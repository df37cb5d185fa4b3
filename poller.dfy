/**
 * The poller: start-up seeding of the latest quake time, and one polling
 * cycle that alerts on the newest qualifying event near Thailand.
 *
 * The fetched feed is an input: `None` stands for a failed fetch, an empty
 * document or one without "features"; `Some(events)` is its feature list.
 */
module Poller {
  import opened Wrappers
  import opened Quake
  import opened Ranking
  import opened Dispatch

  /** Seconds slept after a successful alert. */
  const MessageDelay: nat := 5

  const StartupMessage: string :=
    "🚀 ระบบเริ่มแล้ว!\nเช็คแผ่นดินไหวตั้งแต่ 2.5 ริกเตอร์\nในไทยและใกล้เคียง\nอัพเดททุก 60 วินาที"

  /**
   * What one cycle did: the event it alerted on, the severity its alert
   * carried, the sender's report for that single send, the latest quake time
   * afterwards and the cool-down slept.
   */
  datatype Cycle = Cycle(alerted: Option<Event>, severity: Option<Severity>, report: Option<Report>, latest: int, cooldown: nat)

  /** The event a cycle alerts on: the first alert candidate of the newest-first feed. */
  function SelectAlert(feed: Option<seq<Event>>): Option<Event>
  {
    if feed.None? then None else FirstWhere(SortNewestFirst(feed.value), IsAlertCandidate)
  }

  /**
   * One cycle from latest quake time `latest`: at most one broadcast, of the
   * selected event, and the latest time moves to that event only on success.
   * There is no check of the event against `latest`.
   */
  function RunCycle(latest: int, feed: Option<seq<Event>>, respond: nat -> Outcome): Cycle
  {
    match SelectAlert(feed)
    case None => Cycle(None, None, None, latest, 0)
    case Some(e) =>
      assert IsAlertCandidate(e);
      var severity := Classify(e.mag.value);
      var r := Send(AlertText(e, severity), None, respond);
      Cycle(Some(e), Some(severity), Some(r), if r.sent then e.time else latest, if r.sent then MessageDelay else 0)
  }

  /** The time start-up seeds from: that of the first in-box event of the newest-first feed, magnitude ignored. */
  function Seed(feed: Option<seq<Event>>): Option<int>
  {
    if feed.None? then None
    else match FirstWhere(SortNewestFirst(feed.value), InBox)
      case None => None
      case Some(e) => Some(e.time)
  }

  /**
   * A cycle alerts on nothing exactly when the feed is missing or has no alert
   * candidate; otherwise on the newest candidate, the earliest in feed order
   * among candidates of the same time.
   */
  lemma CycleSelectsNewestCandidate(latest: int, feed: Option<seq<Event>>, respond: nat -> Outcome)
    ensures RunCycle(latest, feed, respond).alerted.None? <==>
      feed.None? || forall j :: 0 <= j < |feed.value| ==> !IsAlertCandidate(feed.value[j])
    ensures RunCycle(latest, feed, respond).alerted.Some? ==>
      feed.Some? &&
      exists i :: IsNewestAt(feed.value, IsAlertCandidate, i) && feed.value[i] == RunCycle(latest, feed, respond).alerted.value
  {
    if feed.Some? {
      SelectsNoneExactly(feed.value, IsAlertCandidate);
      SelectsNewest(feed.value, IsAlertCandidate);
    }
  }

  /**
   * A cycle sends once when it selects an event and never otherwise; the
   * alert carries the severity band of the event's magnitude; that send
   * follows the retry policy; the latest time becomes the event's time
   * on success and is unchanged otherwise; the cool-down follows success.
   */
  lemma CycleSendsOnceAndRecords(latest: int, feed: Option<seq<Event>>, respond: nat -> Outcome)
    ensures RunCycle(latest, feed, respond).report.Some? <==> RunCycle(latest, feed, respond).alerted.Some?
    ensures RunCycle(latest, feed, respond).severity.Some? <==> RunCycle(latest, feed, respond).alerted.Some?
    ensures RunCycle(latest, feed, respond).alerted.Some? ==>
      var mag := RunCycle(latest, feed, respond).alerted.value.mag;
      var severity := RunCycle(latest, feed, respond).severity.value;
      && mag.Some? && mag.value >= MinMagnitude
      && (severity == Severe <==> mag.value >= 6.0)
      && (severity == Moderate <==> 4.0 <= mag.value < 6.0)
      && (severity == Light <==> mag.value < 4.0)
    ensures RunCycle(latest, feed, respond).report.Some? ==>
      FollowsRetryPolicy(respond, RunCycle(latest, feed, respond).report.value)
    ensures RunCycle(latest, feed, respond).latest ==
      if RunCycle(latest, feed, respond).report.Some? && RunCycle(latest, feed, respond).report.value.sent
      then RunCycle(latest, feed, respond).alerted.value.time
      else latest
    ensures RunCycle(latest, feed, respond).cooldown ==
      if RunCycle(latest, feed, respond).report.Some? && RunCycle(latest, feed, respond).report.value.sent
      then MessageDelay else 0
  {
    var c := RunCycle(latest, feed, respond);
    if c.alerted.Some? {
      var e := c.alerted.value;
      assert IsAlertCandidate(e);
      SendContract(AlertText(e, Classify(e.mag.value)), None, respond);
    }
  }

  /**
   * No de-duplication: what a cycle alerts on and sends does not depend on
   * the latest quake time, so a second cycle over the same feed and the same
   * channel behaviour announces the same event again.
   */
  lemma NoDeduplication(a: int, b: int, feed: Option<seq<Event>>, respond: nat -> Outcome)
    ensures RunCycle(a, feed, respond).alerted == RunCycle(b, feed, respond).alerted
    ensures RunCycle(a, feed, respond).report == RunCycle(b, feed, respond).report
    ensures RunCycle(RunCycle(a, feed, respond).latest, feed, respond).alerted == RunCycle(a, feed, respond).alerted
  {
  }

  /**
   * Start-up seeds from nothing exactly when the feed is missing or has no
   * event in the box; otherwise from the time of the newest in-box event,
   * whatever its magnitude.
   */
  lemma SeedIsNewestInBox(feed: Option<seq<Event>>)
    ensures Seed(feed).None? <==> feed.None? || forall j :: 0 <= j < |feed.value| ==> !InBox(feed.value[j])
    ensures Seed(feed).Some? ==>
      feed.Some? &&
      exists i :: IsNewestAt(feed.value, InBox, i) && feed.value[i].time == Seed(feed).value
  {
    if feed.Some? {
      SelectsNoneExactly(feed.value, InBox);
      SelectsNewest(feed.value, InBox);
    }
  }

  /**
   * The latest quake time is not monotone: start-up counts an in-box event
   * with no magnitude, a cycle does not, so a successful cycle afterwards can
   * set an earlier time.
   */
  lemma LatestTimeCanDecrease()
    ensures
      var old_ := Event(200, None, 13.0, 100.0, 5.0, "A");
      var bangkok := Event(100, Some(5.2), 13.75, 100.5, 10.0, "Bangkok");
      var feed := Some([old_, bangkok]);
      Seed(feed) == Some(200) && RunCycle(200, feed, _ => Ok).latest == 100
  {
    var old_ := Event(200, None, 13.0, 100.0, 5.0, "A");
    var bangkok := Event(100, Some(5.2), 13.75, 100.5, 10.0, "Bangkok");
    var s := [old_, bangkok];
    assert s[1..] == [bangkok];
    assert SortNewestFirst(s) == [old_, bangkok];
    assert [old_, bangkok][1..] == [bangkok];
    assert SelectAlert(Some(s)) == Some(bangkok);
  }

  /** The process-wide state of the poller. */
  class Poller {
    var latestQuakeTime: int

    /** Before start-up the latest quake time is 0. */
    constructor ()
      ensures latestQuakeTime == 0
    {
      latestQuakeTime := 0;
    }

    /**
     * The first half of `main`: seed the latest quake time from the feed,
     * then send the start-up announcement; `running` is false when that send
     * fails, and the program then ends without polling.
     */
    method Startup(feed: Option<seq<Event>>, respond: nat -> Outcome) returns (running: bool, announcement: Report)
      modifies this
      ensures latestQuakeTime == if Seed(feed).Some? then Seed(feed).value else old(latestQuakeTime)
      ensures announcement == Send(StartupMessage, None, respond)
      ensures running == announcement.sent
    {
      if feed.Some? {
        var sorted := SortNewestFirst(feed.value);
        var i := 0;
        while i < |sorted|
          invariant 0 <= i <= |sorted|
          invariant FirstWhere(sorted[i..], InBox) == FirstWhere(sorted, InBox)
          invariant latestQuakeTime == old(latestQuakeTime)
        {
          var quake := sorted[i];
          FirstWhereFrom(sorted, i, InBox);
          if IsNearThailand(quake.lat, quake.lon) {
            latestQuakeTime := quake.time;
            break;
          }
          i := i + 1;
        }
        assert i == |sorted| ==> sorted[i..] == [];
      }
      var sent, broadcasts, waits := SendLineNotification(StartupMessage, None, respond);
      announcement := Report(sent, broadcasts, waits);
      running := sent;
    }

    /**
     * One polling cycle: scan the newest-first feed, skip events without a
     * usable magnitude or outside the box, alert on the first remaining one
     * and stop, whether or not the send succeeded.
     */
    method CheckEarthquakes(feed: Option<seq<Event>>, respond: nat -> Outcome)
      returns (alerted: Option<Event>, severity: Option<Severity>, report: Option<Report>, cooldown: nat)
      modifies this
      ensures Cycle(alerted, severity, report, latestQuakeTime, cooldown) == RunCycle(old(latestQuakeTime), feed, respond)
    {
      alerted, severity, report, cooldown := None, None, None, 0;
      if feed.None? {
        return;
      }
      var sorted := SortNewestFirst(feed.value);
      var i := 0;
      while i < |sorted|
        invariant 0 <= i <= |sorted|
        invariant FirstWhere(sorted[i..], IsAlertCandidate) == FirstWhere(sorted, IsAlertCandidate)
        invariant latestQuakeTime == old(latestQuakeTime)
        invariant alerted.None? && severity.None? && report.None? && cooldown == 0
      {
        var quake := sorted[i];
        FirstWhereFrom(sorted, i, IsAlertCandidate);
        if SkippedForMagnitude(quake) {
          i := i + 1;
          continue;
        }
        if !IsNearThailand(quake.lat, quake.lon) {
          i := i + 1;
          continue;
        }
        var magnitude := quake.mag.value;
        var band := Classify(magnitude);
        var sent, broadcasts, waits := SendLineNotification(AlertText(quake, band), None, respond);
        alerted, severity, report := Some(quake), Some(band), Some(Report(sent, broadcasts, waits));
        if sent {
          latestQuakeTime := quake.time;
          cooldown := MessageDelay;
        }
        break;
      }
      assert i == |sorted| ==> sorted[i..] == [];
    }
  }
}
