# Verified model of the viofosync services

viofosync downloads recordings from a Viofo dashcam, keeps an archive within its disk budget, works
out where the car drove and stopped from the GPS fixes inside the recordings, and cuts timelines out
of them. This project models the deterministic core of those services in Dafny and proves what their
comments, documentation and tests promise. Clocks, HTTP, SQLite, the file system and the great-circle
distance appear as parameters, as explicit state or as arbitrary outcomes.

`dafny verify dfyconfig.toml` checks everything.

| file | what it models |
|---|---|
| `Basics.dfy`, `Sorting.dfy`, `Fixes.dfy` | optional values; stable sorting by a key; GPS fixes, an abstract distance, tracks and time windows |
| `Outliers.dfy` | the median-of-neighbours filter and the GPX spike filter |
| `Stops.dfy`, `Journeys.dfy`, `DayShape.dfy` | the two-state stop detector, sessions, journeys between stops, the shape of a whole day |
| `ShutdownTails.dfy`, `Geofence.dfy` | shutdown tails at home and the clips skipped there |
| `RouteWindows.dfy`, `RouteShape.dfy` | padding, extending, trimming and reframing at read time, and why the chain is safe |
| `Retention.dfy`, `ShortStops.dfy` | the disk-pressure pass, room for an import, the cached byte total; exactly when a pass stops over quota |
| `Bytes.dfy`, `Utf8.dfy`, `IsoBoxes.dfy`, `RangeReaders.dfy`, `MoovWalk.dfy` | the box scanner, the range-backed reader, the `moov` walkers |
| `ClipNames.dfy` | the grammar of recording names and the keys derived from a name |
| `DownloadQueue.dfy`, `QueueRules.dfy`, `QueueRuns.dfy`, `Drain.dfy` | the queue table, what its statements do column by column, all runs of them, the drain loop |
| `CutEditor.dfy`, `EditorSession.dfy`, `EditorRules.dfy`, `SwitchPieces.dfy` | the cut editor, what each operation does, its export, and the trims laid over the clips |

Code that changes things step by step is a method or a class whose `ensures` equates the result or the
new state with a function; the lemmas tell what that function does in terms of fixes, rows, bytes or segments alone. GPS times are reals in seconds; times in
the editor and the exporter are whole milliseconds, so the rounding of trims to three decimals is exact.
The distance between two places is any non-negative function that is zero from a place to itself.

## What was found

- The disk-pressure pass can stop with the archive still over quota. The check after a deletion goes by a
  figure: the last walk of the tree in this pass, or the total cached on entry, less the bytes credited since.
  The pass stops short at a deletion exactly when the percentage is met there, the figure is below the quota
  and the tree is not, and the figure was not below it at any earlier check (`ShortStops.StopsShortIff`).
  There are two causes:
  - a stale total. When the percentage rule opens the pass nothing is walked, and the entry figure stays in
    use until a batch begins or it is a minute old (`ShortStops.EntryIsUsedIff`). Without credit from outside
    the tree this is the only cause (`ShortStops.EveryShortStopIsStale`). Where every byte tried is counted,
    the pass stops short exactly when quota + bytes freed before <= entry figure < quota + bytes freed <= tree on
    entry (`ShortStops.StaleTotalStopsShortIffBehind`). `ShortStops.StaleTotalStopsShort` is an input,
    `ShortStops.StaleRun` is the pass called on it.
  - credit for a recording that was never counted in the tree: it lowers a walked figure too, by no more than
    that credit (`ShortStops.WalkedIsBehindByCredit`). `ShortStops.OutsideCreditStopsShort` is an input,
    `ShortStops.CreditRun` the pass called on it; `Retention.NoOutsideCredit` says when there is none.

  When the percentage rule does not open the pass, or the cached total covers the truth on entry, an early stop
  means that the quota is met but for such credit (`Retention.TrustedPassMeetsTheQuota`).
- A crash costs one download attempt although the comment of `reconcile_orphan_downloads` says it does not:
  `QueueRuns.AttemptsAreCharges` counts crashes among the charges, `QueueRuns.CrashCostsAnAttempt` is a run.
- An import made while the clip is downloading is undone when that download fails or is cancelled, because
  those statements do not look at the row's state (`QueueRuns.ImportInFlightIsKeptIff`,
  `QueueRuns.ImportIsUndone`). Otherwise an imported clip is not downloaded again, as the comment says
  (`QueueRuns.ImportedStaysDone`).
- An incomplete clip of the newest capture is deferred even when the capture is confirmed complete,
  because `select_targets` does not fetch that column (`QueueRuns.IncompleteDefersTheNewest`,
  `QueueRuns.ConfirmedNewestIsDeferred`).
- A server that ignores the range of a request and closes after exactly as many bytes as were asked for makes
  the reader accept wrong bytes, unless the range begins the file or the bytes happen to be equal; of replies
  made of bytes of the file no other does (`RangeReaders.ReadIsWrongIff`, `RangeReaders.WrongBytesCanBeRead`).
  Such a body must come without a Content-Length, otherwise `resp.read()` raises before the slice is taken.
- A stop of zero length is dropped whenever any journey exists (`RouteShape.DroppedIffCovered`).
- A `moov` of size 0 is found by one walker and not entered by the other (`MoovWalk.SameMoov`).
- A comment in `naming.py` says a compact name can only match itself as a sibling. Two compact names of one
  second match when their sequence numbers begin with the same digit (`ClipNames.SiblingIffSameCapture`).
- In the editor an inset can come to show its own main channel, by turning a channel off; the export drops
  it (`EditorSession.InsetsStayApartUnlessTurnedOff`, `EditorSession.InsetCanRepeat`). In footage shorter
  than a second "set end" puts the end of a fresh selection past the footage (`CutEditor.SelectionStaysInFootage`).

## Model

| member | source | states |
|---|---|---|
| Sorting.SortByCorrect | web/services/gps.py:487-491 | the sort orders by key, keeps every element and the order of equal keys |
| Fixes.WindowIsSlice | web/routers/archive.py:812-816 | over a time-ordered track the fixes of a window are a contiguous slice, and exactly those whose instant lies in it |
| Fixes.LengthJoins | web/services/gps.py:416-418 | the length of a track is the sum of the distances between neighbours: tracks put end to end add up with the step between them |
| Outliers.FilterOutliers | web/services/gps.py:236-276 | the loop keeps the fixes whose distance to the median place of their neighbourhood passes |
| Outliers.WindowStart | web/services/gps.py:246-256 | the clamped neighbourhood has full size, lies in bounds and contains its fix, for every track of three fixes or more |
| Outliers.FilteredIsSubsequence | web/services/gps.py:236-276 | the output is an ordered subsequence holding exactly the fixes that pass |
| Outliers.MajorityHoldsMedian | web/services/gps.py:258-261 | if more than half of the values lie in an interval, so does the median |
| Outliers.MajorityDecides | web/services/gps.py:236-276 | when most of a neighbourhood lies in a box: a fix in a box of diameter at most 150 m is kept, a fix more than 150 m from all of the box is dropped |
| Outliers.FilterGpsSpikes | viofosync_lib/_gpx.py:90-150 | the spike filter over decoded atoms is the same filter on those that decode |
| Outliers.DecodedJoins | viofosync_lib/_gpx.py:90-150 | the fixes that decode are taken in order, the others dropped, and nothing else |
| Stops.DetectStops | web/services/gps.py:293-387 | the two-state loop emits exactly the stops of the scan, with their centres and counts |
| Stops.StopsAreSound | web/services/gps.py:293-387 | every stop lasts five minutes, ends inside the radius, holds no excursion of a minute, ends for a minute outside or the end of the track; stops are in order |
| Stops.CountedAreNear | web/services/gps.py:293-387 | the fixes counted in a stop are exactly those of its time within 50 m of its anchor |
| Stops.StopsAreApart | web/services/gps.py:293-387 | consecutive stops have at least sixty seconds between them |
| Stops.DwellMeetsAStop | web/services/gps.py:293-387 | completeness: ten minutes within one radius, plus the longest silence meanwhile, always meet a stop |
| Stops.CountedInOrder | web/services/gps.py:293-387 | the fixes counted in a stop are, in order and each once, those from its anchor to its end within 50 m of the anchor |
| Stops.CenterIsMean | web/services/gps.py:293-387 | the centre times the number of counted fixes is the sum of their latitudes and longitudes, each on its own axis |
| Stops.CenterIsInside | web/services/gps.py:293-387 | the centre lies in every box that holds the counted fixes |
| Journeys.BuildJourneys | web/services/gps.py:390-431 | the loop carves exactly the journeys of the gaps before, between and after the stops |
| Journeys.SplitOnTimeGaps | web/services/gps.py:434-448 | the loop splits at exactly the gaps above the limit |
| Journeys.SessionsKeepAll | web/services/gps.py:434-448 | the sessions in order are the whole track |
| Journeys.SessionsAreDense | web/services/gps.py:434-448 | no silence inside a session is longer than the limit |
| Journeys.SessionsAreSeparated | web/services/gps.py:434-448 | between sessions lies more than half an hour |
| Journeys.StationaryChunk | web/services/gps.py:451-466 | a chunk is stationary exactly when every fix is within the radius of the first |
| Journeys.AggregateDay | web/services/gps.py:481-512 | the day is the merged, filtered fixes and the stops and journeys of its sessions |
| DayShape.StopsAndGapsCover | web/services/gps.py:390-431 | every instant of a session lies in a stop or in a gap that is carved |
| DayShape.JourneyInGap | web/services/gps.py:390-431 | a carved journey is the track of its own time span, at least 200 m long, inside its gap |
| DayShape.EveryDayHasShape | web/services/gps.py:481-512 | for all fixes: journeys are in order with at least 300 s between them, each is the track of its time span, no journey meets the interior of a stop, stops are in order, and a stop that starts less than 300 s from a journey's end starts exactly there |
| DayShape.EveryStopAndDriveIsThere | web/services/gps.py:481-512 | for all fixes: a stop is listed exactly when it is the whole of a stationary session or a stop of a moving one, and a journey exactly when it is the track of a gap of a moving session, at least two fixes and 200 m long |
| DayShape.MergedAreKept | web/services/gps.py:481-512 | the day's points are, in time order, exactly the fixes that pass the filter, whatever order they came in |
| ShutdownTails.Classify | web/services/geofence.py:67-163 | the loop returns exactly the tails and the undecided stops of the rule |
| ShutdownTails.WalkIsFirstSilence | web/services/geofence.py:134-143 | the walk ends at the first listed time that a silence of more than five minutes follows |
| ShutdownTails.TailIffConfirmed | web/services/geofence.py:76-84 | a stop is a tail exactly when the rule, told by the listing alone, says so |
| ShutdownTails.TailsAre | web/services/geofence.py:67-163 | the tails are exactly those of the stops given, stop by stop |
| ShutdownTails.TailIsBounded | web/services/geofence.py:131-162 | a tail lasts at most 960 s, holds no parking file, and no listed file starts within 300 s after its last one |
| ShutdownTails.TailStaysForGood | web/services/geofence.py:86-98 | over every run of evaluations a confirmed tail stays the same tail: late files, more journeys, triage progress and time do not change it |
| Geofence.HomeStops | web/services/geofence.py:166-176 | the nested loop collects the stops whose centre lies in some zone |
| Geofence.EvaluateDay | web/services/geofence.py:179-241 | the clips skipped are exactly the candidates the rule skips, in order; none without zones, candidates or a home stop |
| Geofence.UnprotectedIffIdle | web/services/geofence.py:131-162 | a stop leaves a listed clip unprotected exactly when the clip idles there, whatever the clock says |
| Geofence.SkippedIffIdle | web/services/geofence.py:220-241 | a listed clip is skipped exactly when it lies at home, outside every padded drive, and idles at every home stop begun by then |
| Geofence.HomeAre | web/services/geofence.py:166-176 | the home stops are exactly the day's stops in a zone, with their times |
| Geofence.SkippedIffIdleAtHome | web/services/geofence.py:166-241 | the same told by the day's stops and journeys: a stop in a zone holds the instant, no padded journey does, and the clip idles at every stop in a zone begun by then |
| Geofence.TailIsNeverSkipped | web/services/geofence.py:220-241 | over every run of sweeps no clip of a confirmed tail is skipped while its stop is seen |
| RouteWindows.ExpandJourneyWindow | web/services/gps.py:531-552 | the fold computes the padded start and end |
| RouteWindows.PadStartIsTight | web/services/gps.py:531-552 | the padded start is the earliest instant within 120 s that no parking clip begun before reaches past |
| RouteWindows.PadEndIsTight | web/services/gps.py:531-552 | the padded end is the latest instant within 120 s before which no parking clip that outlasts the journey begins |
| RouteWindows.RoutePayload.ApplyGroupWindows | web/routers/archive.py:708-785 | in place, every journey gets the padded window; a tail of a home stop within 120 s of the journey's end carries the window's end to its own end, or to the next padded start if that comes first, and the end is the padded one or one of these |
| RouteWindows.WindowedIsExact | web/routers/archive.py:754-785 | window by window: the start is the padded start; the end is no earlier than the padded end nor than any matched tail up to the next padded start, and equals one of them |
| RouteWindows.PadsAreUnique | web/services/gps.py:531-552 | the two conditions on a padded start and on a padded end leave one value each |
| RouteWindows.RoutePayload.TrimStopsToJourneys | web/routers/archive.py:669-705 | in place, stops give way to the journeys' windows; nothing changes without journeys |
| RouteWindows.RoutePayload.ReframeJourneys | web/routers/archive.py:792-833 | in place, every journey is re-cut to its window |
| RouteShape.WindowContainsJourney | web/routers/archive.py:770-785 | a window contains its raw journey, begins at most 120 s before it, and ends at most 120 s after it or with a tail matched to it |
| RouteShape.WindowsNeverOverlap | web/services/gps.py:53-60 | for all journeys, parking clips and tails: a window ends no later than every later one begins, strictly earlier when no tail matches its journey |
| RouteShape.MatchedTailStartsAtTheEnd | web/routers/archive.py:761-785 | a tail matched to a journey within 120 s starts exactly where the journey ends, ends within 960 s of it, and no parking file starts from there to its end |
| RouteShape.ZoneStopsAre | web/routers/archive.py:748-763 | the stops asked about are exactly those with a centre in a zone |
| RouteShape.MatchedIsTailAt | web/routers/archive.py:754-785 | a tail is matched to a journey exactly when a home stop starts within 120 s of its end and the listing alone confirms a tail of that length there |
| RouteShape.WindowEndIsTold | web/routers/archive.py:754-785 | over every listing in time order the end of every window is told by journeys, home stops, parking clips and listed rows alone: it reaches every tail confirmed there up to the next padded start, and is the padded end or one of these |
| RouteShape.EveryExtensionIsSafe | web/routers/archive.py:754-785 | for all fixes, zones and listings: an edge that a tail carries past the padding ends within 960 s of the journey's end, and no parking file starts in between |
| RouteShape.TrimIsTight | web/routers/archive.py:669-705 | a trimmed edge is the old one or the edge of a window that covers it, and no window covers past it |
| RouteShape.SurvivorIsClear | web/routers/archive.py:669-705 | a surviving stop is a non-empty part of the original that meets no window's interior |
| RouteShape.NoInstantIsLost | web/routers/archive.py:669-705 | every instant of a stop stays in it or lies in a window |
| RouteShape.DroppedIffCovered | web/routers/archive.py:690-699 | a stop is dropped exactly when it has zero length or the windows cover it |
| RouteShape.TrimmedIsPart | web/routers/archive.py:669-705 | every stop left in the list is a non-empty part of one of the day's stops |
| RouteShape.TrimmedLosesNothing | web/routers/archive.py:669-705 | over the whole list every instant of a stop of positive length is in a stop that is left or in a window |
| RouteShape.TrimmedInTurn | web/routers/archive.py:669-705 | stops in turn stay in turn |
| RouteShape.ReframeIsExact | web/routers/archive.py:792-833 | the new trace is exactly the fixes in the window, a contiguous stretch around the raw trace, no shorter in metres |
| RouteShape.ThinCardsStay | web/routers/archive.py:806-819 | a journey with fewer than two fixes in its window is left as it is |
| RouteShape.TracesShareOnlyABoundary | web/routers/archive.py:733-737 | two journeys share a fix only at an instant where one window ends and the other begins |
| RouteShape.ChainIsFinal | web/routers/archive.py:498-611 | over any raw day all of these together: each window contains its raw journey, each trace is the raw trace with more before and after it and no shorter, with its ends, duration and length; windows are in order, traces share only a boundary, stops left are clear parts of raw stops in turn, and no instant of a stop is lost |
| RouteShape.BuildRoute | web/routers/archive.py:498-611 | for all fixes, parking clips, zones and listings the payload after the three steps has them with respect to the journeys and stops of the day, every window starts at its padded start, and over a listing in time order every window ends exactly where the listing says and safely |
| Retention.Archive.CachedUsedBytes | web/services/retention.py:288-298 | the figure is the cached one when that is younger than a minute and no refresh was asked for, and a walk at this instant otherwise |
| Retention.Archive.OverThreshold | web/services/retention.py:383-393 | over exactly when the bytes on the volume reach the percentage, or else the figure consulted reaches the quota, in plain arithmetic; and when the cache is filled |
| Retention.Archive.DeleteClipFiles | web/services/retention.py:55-90 | the recording is gone exactly when it was absent or could be unlinked, the sidecars are gone in any case, the credit is the recording's size or nothing, and other recordings are untouched |
| Retention.TotalCounts | web/services/retention.py:253-285 | a walk counts each recording and its sidecars once, those of the tree only where asked |
| Retention.ReadOnlyRowsJoin | web/services/retention.py:493-503 | the protected rows reported are those marked read-only, each once |
| Retention.WhereMembers | web/services/retention.py:448-471 | a query returns exactly the unlocked rows that match, are not shielded and not excluded |
| Retention.NextQuery | web/services/retention.py:444-471 | after any number of batches the next query returns exactly the candidates not yet tried |
| Retention.CreditIsEarned | web/services/retention.py:301-307 | true bytes plus credit never exceed the bytes before, but for credit from outside the tree |
| Retention.AttemptsFollowAnOver | web/services/retention.py:444-490 | every attempt was made on the word of the last check before it, which said over by the figure it then had; since then only attempts failed |
| Retention.Archive.DiskPressurePass | web/services/retention.py:405-503 | the pass ends although unlinks fail; it tries the eligible rows in order, each once, up to the one moment at which the last check says fine or no row is left; table, files, credit and cached total are those of that moment |
| Retention.StopsOnce | web/services/retention.py:405-503 | that moment is determined by the state on entry and the clock |
| Retention.PassMeetsThePercentage | web/services/retention.py:405-503 | a pass that stops with candidates left has met the percentage |
| Retention.TrustedPassMeetsTheQuota | web/services/retention.py:405-503 | it has met the quota in true bytes, up to credit from outside the tree, if the percentage did not open it or the cached total covered the tree on entry |
| ShortStops.BooksAreFigures | web/services/retention.py:301-307 | at every moment the bookkept total is the last walk of the pass, or the entry total, less exactly the bytes credited since |
| ShortStops.StopsShortIff | web/services/retention.py:405-503 | for every pass and every moment with candidates left: the pass stops there over quota exactly when a deletion came before, the percentage is met, that figure is below the quota, the tree is not, and at every earlier deletion with the percentage met the figure was not below |
| ShortStops.EntryIsUsedIff | web/services/retention.py:288-298 | the figure is the entry total exactly when since the percentage was met no batch began and the entry total was young at each reading of the clock, one for each deletion |
| ShortStops.WalkedIsBehindByCredit | web/services/retention.py:405-503 | a walked figure is below the tree by no more than the credit from outside |
| ShortStops.StaleTotalStopsShortIff | web/services/retention.py:427-447 | with the percentage met from m on, and nothing walked or no outside credit: the pass stops over quota at k exactly when nothing was walked, the entry figure less the credit is below the quota at k and at no check before, and the tree is not |
| ShortStops.EveryShortStopIsStale | web/services/retention.py:405-503 | without outside credit every stop over quota is one of these, and every one of these is a stop over quota |
| ShortStops.StaleTotalStopsShortIffBehind | web/services/retention.py:427-447 | with every byte tried counted, in figures known before the pass: nothing walked, and quota + freed before the last deletion <= entry figure < quota + freed <= tree on entry (without the first bound when it is the first check) |
| Retention.ProtectedSurvive | web/services/retention.py:448-471 | at every moment of a pass a locked, protected or shielded clip is still there, untouched |
| Retention.EvictedAreOldest | web/services/retention.py:405-503 | every deleted clip is no newer than every surviving eligible clip that did not fail, across batches |
| Retention.Archive.MakeRoomFor | web/services/retention.py:506-582 | it ends; it says yes exactly when the size fits: the bytes of the volume and the size stay below the percentage, and the walked bytes less the credit and the size below the quota, in plain arithmetic; it evicts only while the size does not fit, only clips older than asked, oldest first; no means every candidate was tried |
| Retention.RoomIsReal | web/services/retention.py:506-582 | under the quota rule yes means that the true bytes and the size fit |
| Retention.NoOutsideCredit | web/services/retention.py:55-90 | the error term is zero exactly when every credited recording was counted in the tree |
| ShortStops.StaleTotalStopsShort | web/services/retention.py:427-447 | an input that stops short: a volume of 8 GiB that holds its tree of 3 GiB, a total 30 s old that says 1 GiB, a quota of 1 GiB |
| ShortStops.StaleRun | web/services/retention.py:405-503 | the pass itself, called on that input, deletes one clip and stops with the tree at twice its quota and a clip left that could have gone |
| ShortStops.OutsideCreditStopsShort | web/services/retention.py:405-503 | an input that stops short after a walk of the tree, with trusted books: a recording outside the tree goes before one of the size of the quota in it |
| ShortStops.CreditRun | web/services/retention.py:405-503 | the pass itself, called on that input, deletes the recording outside and leaves the tree at its quota |
| Bytes.BigEndianRoundTrip | web/services/durations.py:31-52 | a number that fits the width survives its encoding |
| Bytes.BigEndianOfFour | web/services/durations.py:31-52 | four bytes read as a number have the first as the most significant |
| Bytes.BigEndianJoins | web/services/durations.py:31-52 | at every width the bytes before count for a power of 256 more |
| IsoBoxes.FindBox | web/services/durations.py:55-75 | on arbitrary bytes the scan ends with what the box chain says and leaves the cursor at the payload |
| IsoBoxes.FindFrom | web/services/durations.py:55-75 | a range found lies inside the region, after a header |
| IsoBoxes.FindIff | web/services/durations.py:55-75 | on arbitrary bytes a range is found exactly when a chain of boxes of other kinds, told by their bytes, leads to a box of the kind with that payload |
| IsoBoxes.HeaderRoundTrip | web/services/durations.py:31-52 | all three size forms of a header are read back |
| IsoBoxes.FindRoundTrip | web/services/durations.py:55-75 | in every serialised list of well-formed boxes the scan finds exactly the payload of the first box of the kind, or nothing |
| IsoBoxes.ExpectedIsFirst | web/services/durations.py:55-75 | what is expected is the payload of the first box of the kind |
| IsoBoxes.AnyBoxesAreFound | web/services/durations.py:55-75 | any kinds and payloads can be written as such a list, each box with either size form, and are found in it |
| IsoBoxes.ProbeDuration | web/services/durations.py:78-120 | the cursor code computes the duration the bytes tell |
| IsoBoxes.DurationIff | web/services/durations.py:78-120 | on arbitrary bytes there is a duration exactly when the movie header in the first `moov` says one: seconds times timescale is its duration field, neither being zero nor unknown |
| IsoBoxes.DurationRoundTrip | web/services/durations.py:78-120 | an encoded version 0 or 1 header nested in `moov` yields the seconds that times the timescale are its duration, or none for zero and the unknown marks |
| RangeReaders.RangeReader.Read | viofosync_lib/_protocol.py:582-606 | a read asks for at most one range and gives what the reply makes of it; the cursor moves by what was returned and stays when the read raises |
| RangeReaders.RangeReader.Open | viofosync_lib/_protocol.py:561-566 | the reader starts at the beginning with a head that is the beginning of the file, and in full when the server answers in full |
| RangeReaders.Replay | viofosync_lib/_protocol.py:548-606 | from an honest server every sequence of seeks and reads gives what a plain file in memory gives, but for reads that raised; none raises when the server answers in full |
| RangeReaders.OpenAndReplay | viofosync_lib/_protocol.py:548-606 | the same for every run from the opening on, whatever head was asked for |
| RangeReaders.ReadIsWrongIff | viofosync_lib/_protocol.py:582-642 | for every reply made of bytes of the file, a read returns other bytes than a plain file exactly when the server answered 200 from the start of the file with as many bytes as were asked for, and these are not the bytes of the range |
| RangeReaders.WrongBytesCanBeRead | viofosync_lib/_protocol.py:634-642 | for every size and every range that does not begin the file there is a file and such a reply |
| RangeReaders.HonestReadIsRight | viofosync_lib/_protocol.py:582-642 | when no reply passes for a range like that, every read is right or raises |
| RangeReaders.CompleteReadIsRight | viofosync_lib/_protocol.py:582-642 | when replies are in full no read raises, and no read inside the head ever does |
| MoovWalk.HasFinalMoov | viofosync_lib/_gpx.py:305-338 | the walk ends on every byte string; yes means that a chain of readable atoms other than `moov` leads to a `moov`, no that none does unless a read was cut short; over a server that answers in full it is yes exactly when one does |
| MoovWalk.FinalMoovIff | viofosync_lib/_gpx.py:305-338 | on arbitrary bytes the `moov` found is the one a chain leads to, each position being the last plus its atom's size, with every atom before it readable, at least 8 long and no `moov` |
| MoovWalk.MoovOfRecording | viofosync_lib/_gpx.py:305-338 | over every recording of atoms with 32-bit sizes it is the first `moov`, wherever it stands, and none exactly when there is none |
| Utf8.DecodesIffText | viofosync_lib/_gpx.py:153-158 | the kind of an atom is readable exactly when its bytes are the UTF-8 encoding of some text |
| MoovWalk.ParseMoov | viofosync_lib/_gpx.py:341-386 | the walk ends on every byte string and, unless the reader raised, gathers exactly what the atoms say; with a server that answers in full it is not interrupted |
| MoovWalk.SameMoov | viofosync_lib/_gpx.py:305-386 | the `moov` the first walker finds is the one the second enters first, unless its size is 0: then it enters none |
| MoovWalk.GpsAtomIff | viofosync_lib/_gpx.py:259-302 | a block gives a payload exactly when its size is the one in the table and its kind and mark are those of a GPS block |
| MoovWalk.DamageStops | viofosync_lib/_gpx.py:341-386 | what a walk does at an atom cut short, of size 0, or too small |
| MoovWalk.OthersArePassed | viofosync_lib/_gpx.py:341-386 | atoms of other kinds are passed by their size, on arbitrary bytes |
| MoovWalk.BlockIsRead | viofosync_lib/_gpx.py:259-302 | a stored GPS block is read back |
| MoovWalk.TableRoundTrip | viofosync_lib/_gpx.py:365-380 | a table of stored blocks gives every payload in table order |
| MoovWalk.RecordingRoundTrip | viofosync_lib/_gpx.py:341-386 | over every recording of atoms with 32-bit sizes the walk enters each `moov` and gathers the payload of every block of every GPS table, in order |
| ClipNames.RenderParses | viofosync_lib/_archive.py:54-59 | every well-formed name in every layout is accepted and taken apart as it was put together |
| ClipNames.ParseIsRendered | viofosync_lib/_archive.py:54-59 | nothing else is accepted |
| ClipNames.KeyIsStamp | web/services/naming.py:209-222 | in every layout the 14-digit key is the parsed date and time |
| ClipNames.DayKeyIsDate | web/services/naming.py:225-234 | the day key is the parsed date |
| ClipNames.BelowIsEarlier | web/services/naming.py:253-258 | the byte order of keys is the order of the numbers |
| ClipNames.MaxIsLatest | web/services/naming.py:253-258 | the greatest key is the latest capture, whatever layouts are mixed |
| ClipNames.RangeIsPrefix | web/services/naming.py:237-250 | the range test of the sibling query is a prefix test |
| ClipNames.SiblingIffSameCapture | web/services/naming.py:237-250 | of any two names, siblings are exactly those of one layout and one capture; compact names need the same first character after the stamp as well |
| ClipNames.BytesTellTheLens | web/services/naming.py:162-198 | the bytewise tests for lens and event agree with the parsed name whenever the registry knows its letters |
| ClipNames.LettersTell | web/services/naming.py:162-198 | over every well-formed name, known letters or not, the last letter tells the lens and the one before it the event |
| ClipNames.KnownSuffixes | web/services/queue.py:295-348 | the registry knows a suffix exactly when it is empty, a lens, or an event and a lens, in any case |
| DownloadQueue.Queue.Reconcile | web/services/queue.py:108-292 | the two loops over listing and table are the per-row transition, in any order of names |
| QueueRules.ListedRowLaw | web/services/queue.py:185-234 | a listed row: on disk, pending, failed and gone become done; not on disk, pending and failed keep state and attempts and take the new path unless it is empty, gone comes back pending with fresh attempts; other rows stay |
| QueueRules.LostRowLaw | web/services/queue.py:259-283 | an unlisted row becomes gone exactly when the listing is not empty and it was pending or failed; otherwise it stays |
| QueueRules.NewRowLaw | web/services/queue.py:158-257 | a new name becomes a row, done when on disk and pending otherwise, without attempts, at the listed path |
| QueueRuns.ByNameIsLast | web/services/queue.py:138-141 | of several listings of one name the last one counts |
| DownloadQueue.Queue.NextPending | web/services/queue.py:432-490 | the pick is an eligible row that no eligible row comes before, and there is none exactly when nothing is eligible |
| QueueRules.EligibleIff | web/services/queue.py:351-490 | a row is eligible exactly when it is pending, in scope or asked for, no pending GPS sibling waits for triage, and its capture is confirmed or not the newest, told by columns |
| QueueRules.NextIff | web/services/queue.py:432-490 | the pick is eligible, no eligible row has a higher priority, and of those with the same one none was enqueued earlier |
| QueueRules.OnlyReadOnlyDirs | web/services/queue.py:345-369 | a directory counts as read-only only for a component RO in any case |
| QueueRules.ReadOnlyDirs | web/services/queue.py:345-369 | and for every such component |
| DownloadQueue.Queue.MarkDownloading | web/services/queue.py:517-524 | the row goes to downloading with one more attempt, no other row changes |
| QueueRules.DownloadLaw | web/services/queue.py:517-580 | what a pick, a success, a failure and a cancel write in the row, cell by cell, and in no other |
| DownloadQueue.Queue.MarkTransientFailure | web/services/queue.py:536-561 | the row goes back to pending, or to failed once the attempts are used up |
| DownloadQueue.Queue.MarkCancelled | web/services/queue.py:564-580 | the row goes back to pending with the attempt refunded |
| DownloadQueue.Queue.ReconcileOrphanDownloads | web/services/queue.py:493-514 | downloads without an owner go back to pending, attempts as they are |
| DownloadQueue.Queue.DownloadNext | web/services/queue.py:1266-1285 | the four statements together put the named clips on top, requested |
| QueueRules.RequestLaw | web/services/queue.py:1266-1285 | every named clip that is pending, failed or skipped ends pending, asked for and on top, with its attempts only where it was pending, released where the geofence had skipped it |
| QueueRules.SkipLaw | web/services/queue.py:977-1110 | what skipping by a user and by the geofence takes, cell by cell |
| QueueRules.UnskipLaw | web/services/queue.py:1073-1126 | what taking a skip back restores, and when it releases a clip from the geofence |
| QueueRules.RetryLaw | web/services/queue.py:935-975 | what retry, asking and ordering write |
| QueueRules.DeleteLaw | web/services/queue.py:999-1070 | deleting a clip here skips it, deleting it on the camera makes it gone |
| DownloadQueue.Queue.ReleaseNewest | web/services/sync_worker.py:328-356 | only an explicit "stopped" confirms, and only the newest capture |
| QueueRules.FlagLaw | web/services/sync_worker.py:328-356 | the flag confirms exactly the pending and failed rows that no row still there has a later capture than, only when it says stopped, and writes nothing else |
| DownloadQueue.Queue.TriageOne | web/services/triage.py:179-255 | what each outcome of a reading writes |
| QueueRules.TriageLaw | web/services/triage.py:179-255 | outcome by outcome the columns written in the row, and that no other row changes |
| DownloadQueue.Queue.HasPendingTargets | web/services/triage.py:98-157 | there are targets exactly when some row meets the selection |
| QueueRules.TargetIff | web/services/triage.py:98-157 | a row is a target exactly when it is a pending untriaged GPS clip with fewer than five attempts, settled for 120 or 1860 s, past its backoff of 10, 30, 120 or 600 s, and not the unconfirmed newest |
| QueueRules.ParkingClips | web/services/queue.py:295-348 | a parking clip is one whose name has a P before a letter the registry knows |
| DownloadQueue.Queue.RecordOrigin | web/services/importer.py:179-197 | an imported clip's row becomes done, or is added as done; nothing else changes |
| QueueRules.RestartAndImportLaw | web/services/importer.py:179-197 | a restart and an import, cell by cell |
| QueueRules.ImportDirs | web/services/importer.py:171-174 | the directory an import is filed under is read-only exactly for a locked clip |
| QueueRuns.ListingOrderIsIrrelevant | web/services/queue.py:138-141 | listings of distinct names in any order reconcile alike |
| QueueRuns.SecondReconcileWritesNothing | web/services/queue.py:108-292 | reconciling again with the same inputs changes nothing, at any later time |
| QueueRuns.ListingIsSafe | web/services/queue.py:113-137 | no row is removed, an empty listing marks nothing gone, a listed gone clip is revived to pending with fresh attempts or to done |
| QueueRuns.RunKeepsOneInFlight | web/services/sync_worker.py:1004-1058 | over every run only the picked row is downloading, and it is until it ends, unless an import makes it done meanwhile |
| QueueRuns.AttemptsStayWithinBudget | web/services/queue.py:517-561 | with one limit M and no crash every pending row has fewer than M attempts and the row in flight 1 to M |
| QueueRuns.AttemptsAreCharges | web/services/queue.py:493-580 | over every run attempts are exactly the failures and crashes since the row was listed or came back, plus the one in flight |
| QueueRuns.CrashCostsAnAttempt | web/services/queue.py:493-514 | for every clip name there is a run without a failed download after which the clip is pending with one attempt used, out of budget where one is allowed |
| QueueRuns.DownloadsAreAllowed | web/services/queue.py:432-490 | over every run a row starts downloading only when picked: pending, in scope or requested, not gated, its capture superseded or confirmed, and first in order |
| QueueRuns.NothingIsTakenBack | web/services/sync_worker.py:328-356 | over every run no row is removed and no confirmation, triage, triage attempt or release is undone |
| QueueRuns.ConfirmedOnlyByTheFlag | web/services/sync_worker.py:328-356 | a capture is confirmed only by a "stopped" flag read while it was the newest |
| QueueRuns.ImportedStaysDone | web/services/importer.py:179-197 | over every run a clip imported while it was not downloading stays done and is not picked again until it is deleted here or on the camera |
| QueueRuns.ImportInFlightIsKeptIff | web/services/importer.py:179-197 | an import during the clip's download holds until that ends, and is kept exactly when the download succeeds or the service restarts |
| QueueRuns.ImportIsUndone | web/services/importer.py:179-197 | for every clip name there is a run in which it is imported, done, and then pending or failed again by the failure of its download |
| QueueRuns.FiveAnswersEndTheWait | web/services/triage.py:179-255 | five answers of the camera, whatever they say, while the capture is not the newest, end the wait for triage for good |
| QueueRuns.GateOpens | web/services/queue.py:432-490 | the gate is open once every GPS sibling had five such answers |
| QueueRuns.IncompleteDefersTheNewest | web/services/triage.py:199-226 | an incomplete clip is let go exactly when its capture is not the newest |
| QueueRuns.ConfirmedNewestIsDeferred | web/services/triage.py:199-226 | for every GPS clip there is a run in which it is confirmed complete, the newest and a target, is found incomplete, and is a target again ten minutes later with no attempt counted |
| QueueRuns.AnsweredTargetRests | web/services/triage.py:98-147 | whatever the camera answered, the clip is no target again for ten seconds |
| QueueRuns.TargetsAreGated | web/services/queue.py:432-490 | where triage gates, a triage target is not downloaded before it is read |
| QueueRuns.RequestedComeFirst | web/services/queue.py:1266-1285 | after "download next" the next pick is one of the named clips as long as one is eligible |
| QueueRuns.RequestBypassesScope | web/services/queue.py:1266-1285 | a requested clip is held back only by the triage gate and the newest capture |
| Drain.PickPays | web/services/sync_worker.py:1213-1278 | every pick lowers what is left to do, unless it is refunded |
| Drain.ListingOwes | web/services/queue.py:108-292 | a listing adds at most a full budget for each clip it lists |
| Drain.SyncWorker.DownloadOne | web/services/sync_worker.py:1119-1278 | ending by ending the row afterwards: done, pending or failed with one more attempt, or as it was with the attempt refunded; no other row changes |
| Drain.SyncWorker.Drain | web/services/sync_worker.py:1004-1058 | the drain is a run of the queue made of exactly the pick, the ending and the events between for each turn; it goes on and ends by the first of the stop, the pause, the full disk, the camera gone and nothing eligible; its picks are paid by the debt it began with, by refunds and by new listings; without these two it picks at most the attempts left |
| Drain.DebtIsAttemptsLeft | web/services/sync_worker.py:1004-1058 | the debt of a table within its budget is the sum of the attempts its pending rows have left |
| CutEditor.ClampedTiles | web/static/timeline.js:847-863 | clamping any tiling leaves a tiling of the new selection |
| CutEditor.ClampKeepsViews | web/static/timeline.js:847-873 | moving an edge changes nothing of the picture inside both selections |
| CutEditor.StepIsValid | web/static/timeline.js:834-954 | every operation keeps a tiling of positive lengths on enabled channels, with at least one enabled |
| CutEditor.EveryEditIsValid | web/static/timeline.js:770-954 | so does every run of operations |
| CutEditor.SelectionStaysInFootage | web/static/timeline.js:865-873 | the selection stays in footage of at least a second; in shorter footage "set end" leaves it |
| EditorRules.EnabledInOrder | web/static/timeline.js:754-757 | the enabled channels are those not turned off, in registry order |
| EditorRules.FirstIsFirst | web/static/timeline.js:758-762 | the first enabled channel has no enabled one before it |
| EditorRules.NextIsNext | web/static/timeline.js:763-769 | between a channel and the next enabled one, round the registry, there is no enabled one |
| EditorRules.NextFromNowhere | web/static/timeline.js:763-769 | from a channel that is off the next one is the first enabled |
| EditorRules.EdgesFollowThePlayhead | web/static/timeline.js:865-874 | an edge goes exactly to the playhead where the footage and the second between the edges allow it, and to the bound otherwise |
| EditorRules.ClampedRunsOn | web/static/timeline.js:847-863 | where the selection grows the picture at the near end goes on; clear of the old one it is the fallback |
| EditorSession.SwitchChangesTheRest | web/static/timeline.js:883-897 | a switch changes the picture from the playhead to the end of its segment and nothing else |
| EditorRules.SwitchNeedsRoom | web/static/timeline.js:883-897 | a switch is added exactly inside the selection and 200 ms from both ends of its segment |
| EditorSession.RemovalExtendsThePicture | web/static/timeline.js:902-909 | removing a switch lets the picture before it run on |
| EditorRules.RemoveLaw | web/static/timeline.js:902-909 | removing a switch merges two segments on the earlier picture; the others stay |
| EditorRules.CameraLaw | web/static/timeline.js:910-918 | a camera change keeps times, takes the next channel and drops an inset equal to it |
| EditorRules.InsetLaw | web/static/timeline.js:922-936 | an inset change keeps times and camera and takes the next option |
| EditorRules.InsetsAreTheOthers | web/static/timeline.js:922-936 | the options are the enabled channels other than the camera, in order |
| EditorRules.InsetsTakeTurns | web/static/timeline.js:922-936 | from off through the options in turn and off again |
| EditorRules.ToggleLaw | web/static/timeline.js:937-954 | turning a channel off moves its segments to the first channel still enabled and drops its insets, turning it on only enables it, and the last one stays on |
| EditorRules.ClearLaw | web/static/timeline.js:875-882 | a cleared editor is the whole footage on the first channel, told field by field |
| EditorSession.ExportIsTheWholeTiling | web/static/timeline.js:1064-1079 | after any edits the export is the whole tiling, on enabled channels, and no inset repeats its channel |
| EditorRules.ExportLaw | web/static/timeline.js:1064-1079 | piece by piece: the segment's channel and times, and its inset exactly when that shows another enabled channel |
| EditorRules.ExportJoins | web/static/timeline.js:1064-1079 | segments of channels turned off are left out, the others stay in order |
| EditorSession.InsetsStayApartUnlessTurnedOff | web/static/timeline.js:937-954 | in the editor insets stay apart from their channel exactly unless a channel is turned off onto its inset |
| EditorSession.InsetCanRepeat | web/static/timeline.js:937-954 | that happens with two channels, and the export drops the inset |
| EditorSession.Editor.ClampSegments | web/static/timeline.js:847-863 | the filter, the map and the two edge writes in place are the clamped list |
| EditorSession.Editor.SetIn | web/static/timeline.js:865-869 | the editor's state after the operation |
| EditorSession.Editor.SetOut | web/static/timeline.js:870-874 | the editor's state after the operation |
| EditorSession.Editor.AddSwitchAtPlayhead | web/static/timeline.js:883-897 | the editor's state after the operation, found by the search for the segment |
| EditorSession.Editor.DeleteSwitch | web/static/timeline.js:902-909 | the editor's state after the operation |
| EditorSession.Editor.CycleSegmentCamera | web/static/timeline.js:910-918 | the editor's state after the operation |
| EditorSession.Editor.CycleSegmentPip | web/static/timeline.js:922-936 | the editor's state after the operation |
| EditorSession.Editor.ToggleChannel | web/static/timeline.js:937-954 | the editor's state after the operation, segment by segment in place |
| EditorSession.Editor.ClearEditor | web/static/timeline.js:875-882 | the editor is as on opening: the whole footage as one segment on the first channel, every channel enabled |
| EditorSession.Editor.ExportTimeline | web/static/timeline.js:1064-1079 | the loop emits the export |
| SwitchPieces.BuildSwitchPieces | web/services/exporter.py:128-171 | a piece is emitted exactly when it is the share of at least 50 ms that some segment has of some clip of its channel, with path, offset, length, start and inset |
| SwitchPieces.PiecesAre | web/services/exporter.py:128-171 | the same of the list the loops compute |
| SwitchPieces.PiecesConserveTime | web/services/exporter.py:128-171 | over the whole list the pieces and the slivers together last exactly the recorded time of all segments |
| SwitchPieces.TrimsAreInside | web/services/exporter.py:128-171 | every trim is cut from a clip of the segment's channel, inside the clip and the segment, at the right offset, with the segment's inset |
| SwitchPieces.PiecesMoveForward | web/services/exporter.py:128-171 | over segments in order and clips that do not overlap the whole list moves strictly forward in time |
| SwitchPieces.SegmentConservesTime | web/services/exporter.py:128-171 | the trims last exactly the recorded time of the segment less the slivers, each under 50 ms |
| SwitchPieces.EveryExportPlaysForward | web/static/timeline.js:1064-1079 | whatever was edited and exported, the pieces are exactly the shares of its segments, play forward, and with the slivers last exactly the recorded time of all segments, and of each |
| SwitchPieces.FindClipAt | web/services/exporter.py:474-487 | the first clip of the channel that covers the instant is found, and none exactly when none does |

## Left out

- Trigonometry and rounding: the distance is abstract, and the rounding of journey distances to one decimal is not modelled.
- Re-anchoring of GPS clocks, time zones and GPX parsing: the model starts from anchored fixes. Speeds and bearings of journeys are not part of the model.
- The rest of the route payload (labels, tracks for the map, caching by signature).
- The age rule of the retention sweep, empty-directory pruning, and which sidecar files a recording has (only their bytes count); a walk of the tree cannot fail here, and reading the disk's fill level fails only where the model says so.
- Protection of export inputs end to end: protection is relative to the ids passed in, and the sweep after a drain passes none.
- Decoding the GPS payload bytes of an atom: the walkers return the raw payloads.
- RangeReaders.Replay: positions are not negative, as no walker seeks to before the start of the file; the server is honest, that is, its replies are bytes of the file and none passes for a range it is not (RangeReaders.ReadIsWrongIff says what happens otherwise). A server that invents bytes is not modelled.
- ClipNames.ParseIsRendered: names are ASCII and without a trailing newline; the Unicode digits and case folding the pattern would also accept are not modelled.
- Deleting a clip while it is downloading, and the maintenance flush that forgets triage results: after either the invariants of a run no longer hold.
- Sizes, errors and time stamps of queue rows that no decision reads; the text of log messages.
- SQLite, threads and tasks: every statement is one atomic step.
- The drain's re-listing interval, the scan and the retention sweep after it; a re-listing is an arbitrary outcome of a turn.
- CutEditor.EveryEditIsValid: the footage has positive length and at least one channel; without clips the editor starts with an empty segment.
- Restoring a saved cut, dragging a boundary by hand, and drawing: restoring can leave gaps that clamping does not fill.
- HTTP, authentication, settings, ffmpeg, thumbnails, geocoding, MQTT: no decision of the modelled core depends on them.
