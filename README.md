# QuickQuake, modelled in Dafny

QuickQuake is a single Python script, `main.py`. It polls the USGS GeoJSON feed
of earthquakes of magnitude 2.5 and above. It picks the newest qualifying event
in a box around Thailand and broadcasts an alert through the LINE Messaging API.
This project models the script's decision logic and proves its properties:

- `Quake` holds the event record, the inclusive latitude/longitude box
  (5..22 N, 92..108 E), the cycle's magnitude test (`not magnitude or
  magnitude < 2.5`) and the three severity bands.
- `Ranking` holds the newest-first ordering of the feed. It is Python's stable
  `sorted(..., reverse=True)` on `time`, written as a stable insertion sort.
  Its stability is proved outright (`SortIsStable`). It also holds the scan
  for the first event that passes a test. The main
  theorem: the event found is the passing event with the largest time, and
  among ties the earliest in feed order.
- `Dispatch` holds `send_line_notification`. A recursive specification
  (`Send`/`SendFrom`) is proved equivalent to a direct statement of the retry
  policy (`FollowsRetryPolicy`). The imperative method with the script's
  `for` loop and early returns is proved equal to the specification.
- `Poller` holds a class with the global `latest_quake_time`. It has the
  start-up half of `main` and one run of `check_earthquakes`. Each is proved
  against a specification function (`Seed`, `RunCycle`), and the lemmas
  about those functions state what a cycle and start-up do.

Inputs the script gets from the outside are parameters:

- The fetched feed is `Option<seq<Event>>`. `None` stands for a failed
  request, an empty JSON document or one without `"features"`.
- The LINE broadcast is `respond: nat -> Outcome`, the outcome of attempt k.
  `Ok` means the attempt returned normally. `RateLimited` means the attempt
  raised an exception whose `status_code` is 429. `OtherError` means it raised
  any other exception, including one from setting up the API client or the
  message.
- Sleeps are returned as data: the back-off waits of the sender and the
  5-second cool-down after a successful alert.

Three consequences of the code as written:

- The latest quake time is not monotone. Start-up seeds it from the newest
  in-box event whatever its magnitude, while a cycle only alerts on events of
  magnitude 2.5 or more. So a later successful cycle can set a smaller time.
  `Poller.LatestTimeCanDecrease` exhibits such a feed.
  (The script never reads this value back, so nothing depends on it.)
- The sender returns a boolean, not a typed error. An exhausted rate limit and
  any other error both give `false`.
- A magnitude of exactly 0 is skipped as "falsy" before the threshold test. It
  is below 2.5 anyway, so the filter is exactly "present and at least 2.5"
  (`Quake.AlertCandidateExactly`).

## Model

| member | source | states |
|---|---|---|
| Quake.NearThailandExactly | main.py:49-50 | a point is near Thailand exactly when 5 <= lat <= 22 and 92 <= lon <= 108 |
| Quake.BoxCornersAreNear | main.py:28-29 | all four corners of the box are inside it: every bound is inclusive |
| Quake.AlertCandidateExactly | main.py:112-116 | the cycle keeps an event exactly when its magnitude is present and at least 2.5 and it lies in the box |
| Quake.Classify | main.py:122-126 | severe exactly when magnitude >= 6.0, moderate exactly when 4.0 <= magnitude < 6.0, light exactly when magnitude < 4.0 |
| Quake.ClassifyMonotone | main.py:122-126 | a larger magnitude never gets a milder severity |
| Quake.ClassifyBandEdges | main.py:122-126 | 3.999 is light, 4.0 and 5.999 are moderate, 6.0 is severe |
| Quake.AlertText | main.py:128-137 | the alert is never empty; it starts with the fixed headline, and its second line is the label of the severity it is given |
| Quake.SeverityLabelsDistinct | main.py:122-126 | the three severity lines are different strings |
| Ranking.InsertNewestFirst | main.py:99-103 | inserting adds exactly the new event (multiset) and puts either it or the old head first |
| Ranking.InsertKeepsNewestFirst | main.py:99-103 | inserting into a list in descending time order keeps it in descending time order |
| Ranking.SortNewestFirst | main.py:99-103 | the sorted feed is a permutation of the feed, in descending time order |
| Ranking.InsertWithTime | main.py:99-103 | insertion puts an event ahead of every event with the same time and leaves their order alone |
| Ranking.SortIsStable | main.py:99-103 | the sort is stable: for every time t, the events with time t keep their feed order |
| Ranking.FirstWhere | main.py:106-117 | the scan returns the first event of the list that passes the test (every earlier one fails), and none exactly when no event passes |
| Ranking.FirstWhereInsert | main.py:99-117 | after inserting e, the scan finds e exactly when e passes and no passing event is strictly newer |
| Ranking.SelectsNoneExactly | main.py:99-117 | the scan of the sorted feed finds nothing exactly when no event of the feed passes |
| Ranking.SelectsNewest | main.py:99-117 | the event found is a passing event with the largest time, and every passing event before it in the feed is strictly older |
| Dispatch.SendFromFacts | main.py:60-88 | from attempt k: 1 to 5-k broadcasts, waits 5*2^(k+i), all but the last rate-limited, success iff the last was Ok, a rate-limited last only at the fifth attempt |
| Dispatch.RetryPolicyExactly | main.py:57-88 | a report follows the retry policy exactly when it is the one the broadcast loop produces |
| Dispatch.SendContract | main.py:53-88 | an empty message fails after zero attempts; a user id succeeds with no broadcast; a broadcast follows the retry policy |
| Dispatch.OtherErrorStopsAtOnce | main.py:86-88 | a non-429 error on the first attempt fails after one broadcast and no wait |
| Dispatch.SucceedsOnFifthAttempt | main.py:57-85 | four 429s then Ok: success after exactly 5 broadcasts with waits 5, 10, 20, 40 |
| Dispatch.RateLimitExhausted | main.py:78-85 | 429 on every attempt: failure after 5 broadcasts, no sixth, waits 5, 10, 20, 40 totalling 75 |
| Dispatch.SendLineNotification | main.py:53-88 | the loop with early returns produces exactly the specified result, broadcast count and waits |
| Poller.CycleSelectsNewestCandidate | main.py:94-117 | a cycle alerts on nothing exactly when the feed is missing or has no candidate; else on the newest candidate, earliest in feed order among ties |
| Poller.CycleSendsOnceAndRecords | main.py:118-143 | a cycle sends exactly once when it selects an event, by the retry policy; the alert carries the severity band of the event's magnitude; the latest time becomes the event's time only on success; the cool-down follows success |
| Poller.NoDeduplication | main.py:118-143 | the selected event and the send do not depend on the latest time, so repeating a cycle re-announces the same event |
| Poller.SeedIsNewestInBox | main.py:152-164 | start-up seeds nothing exactly when the feed is missing or has no in-box event; else the time of the newest in-box event, magnitude ignored |
| Poller.LatestTimeCanDecrease | main.py:139-140 | after start-up seeds 200 from an unmeasured event, a successful cycle sets 100: the latest time is not monotone |
| Poller.Poller.constructor | main.py:35 | the latest quake time starts at 0 |
| Poller.Poller.Startup | main.py:152-175 | the latest time becomes the seed or stays as it was; the start-up announcement is sent once and polling goes on only if it succeeded |
| Poller.Poller.CheckEarthquakes | main.py:91-143 | the alerted event, its severity, the single send's report, the new latest time and the cool-down are those of the cycle specification |

## Left out

- The HTTP fetch of the feed and its JSON parsing (main.py:38-46) are network I/O. The feed is an input.
- Malformed features are not modelled: a missing key or a coordinate list not of length three raises in the script and ends the loop. Every event is well formed here.
- The LINE SDK objects and the broadcast call are foreign library code. They are replaced by the per-attempt outcome `respond`. The commented-out push branch is absent, so a user id gives success with no call.
- `asyncio.sleep`, the endless polling loop with its 60-second interval, and the loop's exception handling (main.py:177-184) are timing and process wiring. Waits are returned as data, and one cycle is modelled.
- The interrupt and failure announcements (main.py:186-195) and all logging are process wiring.
- Dispatch.Send: the report records whether and how often the message was broadcast, not its text. The channel outcome is abstract and does not depend on the text; only an empty message changes the result. The cycle records the alert's severity instead.
- Quake.AlertText: renders only the headline, the severity line and the place. The `.1f`/`.2f` number formatting, the Bangkok-time `strftime` and the map link are library formatting and float rendering.
- Magnitudes and coordinates are exact reals. IEEE float rounding and NaN are not modelled; the script only compares them.
