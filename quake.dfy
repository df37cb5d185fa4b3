/**
 * One earthquake report of the USGS feed, the bounding box around Thailand,
 * the magnitude threshold of an alert and the severity bands of the alert text.
 */
module Quake {
  import opened Wrappers

  /**
   * A feature of the GeoJSON feed: `properties.time` (epoch milliseconds),
   * `properties.mag` (null when absent), `geometry.coordinates` (longitude,
   * latitude, depth in km) and `properties.place`.
   */
  datatype Event = Event(time: int, mag: Option<real>, lat: real, lon: real, depth: real, place: string)

  // The box is closed on all four sides.
  const LatMin: real := 5.0
  const LatMax: real := 22.0
  const LonMin: real := 92.0
  const LonMax: real := 108.0
  const MinMagnitude: real := 2.5

  predicate IsNearThailand(lat: real, lon: real)
  {
    LatMin <= lat <= LatMax && LonMin <= lon <= LonMax
  }

  /** The box is exactly 5..22 N by 92..108 E, every bound included. */
  lemma NearThailandExactly(lat: real, lon: real)
    ensures IsNearThailand(lat, lon) <==> 5.0 <= lat <= 22.0 && 92.0 <= lon <= 108.0
  {
  }

  /** The four corners of the box are inside it. */
  lemma BoxCornersAreNear()
    ensures IsNearThailand(5.0, 92.0) && IsNearThailand(5.0, 108.0)
    ensures IsNearThailand(22.0, 92.0) && IsNearThailand(22.0, 108.0)
  {
  }

  predicate InBox(e: Event)
  {
    IsNearThailand(e.lat, e.lon)
  }

  /**
   * The polling cycle skips an event whose magnitude is falsy (absent or
   * zero) or below the threshold.
   */
  predicate SkippedForMagnitude(e: Event)
  {
    e.mag.None? || e.mag.value == 0.0 || e.mag.value < MinMagnitude
  }

  /** An event the polling cycle may alert on. */
  predicate IsAlertCandidate(e: Event)
  {
    !SkippedForMagnitude(e) && InBox(e)
  }

  /**
   * The zero test is subsumed by the threshold: an event is a candidate exactly
   * when its magnitude is present and at least 2.5 and it lies in the box.
   */
  lemma AlertCandidateExactly(e: Event)
    ensures IsAlertCandidate(e) <==> e.mag.Some? && e.mag.value >= 2.5 && InBox(e)
  {
  }

  datatype Severity = Severe | Moderate | Light

  /** Severity bands, each closed at its lower bound. */
  function Classify(mag: real): (s: Severity)
    ensures s == Severe <==> mag >= 6.0
    ensures s == Moderate <==> 4.0 <= mag < 6.0
    ensures s == Light <==> mag < 4.0
  {
    if mag >= 6.0 then Severe else if mag >= 4.0 then Moderate else Light
  }

  function Rank(s: Severity): nat
  {
    match s
    case Light => 0
    case Moderate => 1
    case Severe => 2
  }

  /** A larger magnitude never gets a milder severity. */
  lemma ClassifyMonotone(a: real, b: real)
    requires a <= b
    ensures Rank(Classify(a)) <= Rank(Classify(b))
  {
  }

  /** The band edges: 3.999 is light, 4.0 and 5.999 moderate, 6.0 severe. */
  lemma ClassifyBandEdges()
    ensures Classify(3.999) == Light && Classify(4.0) == Moderate
    ensures Classify(5.999) == Moderate && Classify(6.0) == Severe
  {
  }

  function SeverityLabel(s: Severity): string
  {
    match s
    case Severe => "⛔️ รุนแรงมาก"
    case Moderate => "⚠️ รุนแรงปานกลาง"
    case Light => "ℹ️ เบา"
  }

  const AlertHeadline: string := "🌋 แผ่นดินไหวล่าสุด (ทดสอบ API)!"

  /** The three severity lines differ, so the alert text tells the bands apart. */
  lemma SeverityLabelsDistinct(a: Severity, b: Severity)
    requires a != b
    ensures SeverityLabel(a) != SeverityLabel(b)
  {
    assert SeverityLabel(a)[2] != SeverityLabel(b)[2] || |SeverityLabel(a)| != |SeverityLabel(b)|;
  }

  /**
   * The alert text, reduced to its headline, its severity line and the place;
   * the formatted magnitude, coordinates, depth, local time and map link are
   * not rendered. It is never empty, so the sender always tries to send it,
   * and its second line is the label of the given severity.
   */
  function AlertText(e: Event, severity: Severity): (text: string)
    ensures |text| > |AlertHeadline|
    ensures text[..|AlertHeadline|] == AlertHeadline
    ensures var start := |AlertHeadline| + 1;
      var line := SeverityLabel(severity);
      && text[|AlertHeadline|] == '\n'
      && start + |line| < |text|
      && text[start..start + |line|] == line
      && text[start + |line|] == '\n'
  {
    AlertHeadline + "\n" + SeverityLabel(severity) + "\n" + e.place
  }
}
