/** The download queue of web/services/queue.py: one table of rows, keyed by file name, and the
    statements that change it, together with those of triage.py and sync_worker.py. */
module DownloadQueue {
  import opened Basics
  import opened ClipNames

  const TRIAGE_MAX_ATTEMPTS := 5

  datatype Status = Pending | Downloading | Done | Failed | Gone | Skipped

  datatype Reason = NoReason | ByUser | ByGeofence

  datatype Row = Row(state: Status, attempts: nat, priority: int, enqueuedAt: int, sourceDir: string,
                     recordedAt: Option<int>, requested: bool, skipReason: Reason, released: bool,
                     triagedAt: Option<int>, gpsPoints: nat, triageAttempts: nat,
                     triageLastAttempt: Option<int>, remoteComplete: bool)
  {
    function Apply(op: Op): Row {
      match op
      case Skip => if state.Pending? || state.Failed? then Skipping(ByUser) else this
      case GeofenceSkip => if state.Pending? && !released then Skipping(ByGeofence) else this
      case Unskip => Unskipped()
      case GeofenceUnskip =>
        if state.Skipped? && skipReason.ByGeofence? && !released then Unskipped().(released := released) else this
      case Retry => Retried()
      case MarkRequested => Requested()
      case Request(top) => Unskipped().Retried().Requested().Prioritized(top)
      case Prioritize(p) => Prioritized(p)
      case DeleteLocal => Skipping(ByUser)
      case RemoveFromCamera => this.(state := Gone)
    }

    function Skipping(reason: Reason): Row { this.(state := Skipped, skipReason := reason, requested := false) }

    function Unskipped(): Row {
      if state.Skipped?
      then this.(state := Pending, attempts := 0, skipReason := NoReason,
                 released := released || skipReason.ByGeofence?)
      else this
    }

    function Retried(): Row { if state.Failed? then this.(state := Pending, attempts := 0) else this }

    function Requested(): Row { if state.Pending? then this.(requested := true) else this }

    function Prioritized(p: int): Row { if state.Pending? then this.(priority := p) else this }

    function Started(): Row { this.(state := Downloading, attempts := attempts + 1) }

    function Ended(how: Outcome): Row {
      match how
      case Success => this.(state := Done)
      case Failure(max) => this.(state := if attempts >= max then Failed else Pending)
      case Cancelled => this.(state := Pending, attempts := if attempts > 0 then attempts - 1 else 0)
    }

    /** A triage outcome; the newest capture is always taken for unconfirmed. */
    function Triaged(how: Reading, newest: bool, now: int): Row {
      match how
      case Points(n) => this.(triagedAt := Some(now), gpsPoints := n)
      case Incomplete =>
        if newest then this.(triageLastAttempt := Some(now)) else this.(triagedAt := Some(now), gpsPoints := 0)
      case Unreadable => this.(triageAttempts := triageAttempts + 1, triageLastAttempt := Some(now))
      case Offline => this
    }

    predicate AwaitsTriage() { triagedAt.None? && triageAttempts < TRIAGE_MAX_ATTEMPTS }
  }

  datatype Op = Skip | GeofenceSkip | Unskip | GeofenceUnskip | Retry | MarkRequested | Request(top: int)
              | Prioritize(p: int) | DeleteLocal | RemoveFromCamera

  datatype Outcome = Success | Failure(max: nat) | Cancelled

  datatype Reading = Points(n: nat) | Incomplete | Unreadable | Offline

  type Rows = map<string, Row>

  // ---- Scope and gates ----

  datatype Scope = Everything | NoParking | RoOnly | Nothing

  /** A clip under the card's read-only directory. */
  predicate IsRO(dir: string) {
    exists i :: 0 <= i && i + 3 <= |dir| && dir[i] == '/' && Upper(dir[i + 1]) == 'R' && Upper(dir[i + 2]) == 'O'
                && (i + 3 == |dir| || dir[i + 3] == '/')
  }

  predicate InScope(scope: Scope, f: string, r: Row) {
    match scope
    case Everything => true
    case Nothing => false
    case RoOnly => IsRO(r.sourceDir)
    case NoParking => IsRO(r.sourceDir) || EventByte(f) != 'P'
  }

  /** The row's GPS sibling is still pending and still awaits triage. */
  predicate Gated(rows: Rows, f: string) {
    exists g :: g in rows && InRange(g, Prefix16(f)) && IsGpsLens(g)
                && rows[g].state.Pending? && rows[g].AwaitsTriage()
  }

  /** The row's capture key is the greatest of the rows not gone. */
  predicate IsNewest(rows: Rows, f: string) {
    && (exists g :: g in rows && !rows[g].state.Gone? && CaptureKey(g) == CaptureKey(f))
    && forall g :: g in rows && !rows[g].state.Gone? ==> !Below(CaptureKey(f), CaptureKey(g))
  }

  predicate Eligible(rows: Rows, f: string, scope: Scope, gate: bool, guard: bool) {
    && f in rows && rows[f].state.Pending?
    && (rows[f].requested || InScope(scope, f, rows[f]))
    && (gate ==> !Gated(rows, f))
    && (guard ==> !(IsNewest(rows, f) && !rows[f].remoteComplete))
  }

  // ---- What triage reads ----

  const TRIAGE_SETTLE_S := 120
  const TRIAGE_SETTLE_PARKING_S := 1860

  predicate IsParkingClip(f: string) {
    var letters := SuffixLetters(f);
    letters.Some? && EventOf(letters.value) == 'P'
  }

  function Backoff(attempts: nat): int {
    if attempts == 1 then 10 else if attempts == 2 then 30 else if attempts == 3 then 120 else 600
  }

  /** A pending GPS clip triage may read now: its recording has settled, its last reading is long
      enough ago, and it is not the unconfirmed newest capture. */
  predicate IsTarget(rows: Rows, f: string, now: int) {
    && f in rows && rows[f].state.Pending? && rows[f].AwaitsTriage() && IsGpsLens(f)
    && !(IsNewest(rows, f) && !rows[f].remoteComplete)
    && (rows[f].recordedAt.Some? ==>
          now - rows[f].recordedAt.value >= if IsParkingClip(f) then TRIAGE_SETTLE_PARKING_S else TRIAGE_SETTLE_S)
    && (rows[f].triageLastAttempt.Some? ==> now - rows[f].triageLastAttempt.value >= Backoff(rows[f].triageAttempts))
  }

  predicate Precedes(a: Row, b: Row) {
    a.priority > b.priority || (a.priority == b.priority && a.enqueuedAt <= b.enqueuedAt)
  }

  /** An eligible row no eligible row comes before. */
  predicate IsNext(rows: Rows, f: string, scope: Scope, gate: bool, guard: bool) {
    && Eligible(rows, f, scope, gate, guard)
    && forall g :: g in rows && Eligible(rows, g, scope, gate, guard) ==> Precedes(rows[f], rows[g])
  }

  // ---- A fresh listing ----

  datatype Listed = Listed(filepath: string, recordedAt: Option<int>)

  type Listing = map<string, Listed>

  function NewRow(listed: Listed, onDisk: bool, now: int): Row {
    Row(if onDisk then Done else Pending, 0, 0, now, listed.filepath, listed.recordedAt, false, NoReason, false,
        None, 0, 0, None, false)
  }

  /** What a listing makes of one row. */
  function Reconciled(r: Row, listed: Option<Listed>, onDisk: bool, emptyListing: bool): Row {
    match listed
    case None =>
      if !emptyListing && (r.state.Pending? || r.state.Failed?) then r.(state := Gone) else r
    case Some(l) =>
      if onDisk then (if r.state.Pending? || r.state.Failed? || r.state.Gone? then r.(state := Done) else r)
      else if r.state.Gone? then
        r.(state := Pending, attempts := 0, requested := false,
           sourceDir := if l.filepath != "" then l.filepath else r.sourceDir)
      else if l.filepath != "" && (r.state.Pending? || r.state.Failed?) then r.(sourceDir := l.filepath)
      else r
  }

  function Entry(listing: Listing, f: string): Option<Listed> {
    if f in listing then Some(listing[f]) else None
  }

  function ReconciledRow(rows: Rows, listing: Listing, present: set<string>, now: int, f: string): Row
    requires f in rows || f in listing
  {
    if f in rows then Reconciled(rows[f], Entry(listing, f), f in present, listing == map[])
    else NewRow(listing[f], f in present, now)
  }

  function ReconciledRows(rows: Rows, listing: Listing, present: set<string>, now: int): Rows {
    map f | f in rows.Keys + listing.Keys :: ReconciledRow(rows, listing, present, now, f)
  }

  // ---- Steps on the table ----

  datatype Event =
    | Relist(listing: Listing, present: set<string>, now: int)
    | Pick(name: string, scope: Scope, gate: bool)
    | End(name: string, how: Outcome)
    | Restart
    | Flag(recording: Option<int>)
    | Triage(name: string, reading: Reading, now: int)
    | Change(names: set<string>, op: Op)
    | Import(name: string, sourceDir: string, recordedAt: Option<int>, now: int)

  /** The row an import adds for a clip the table does not know. */
  function Imported(e: Event): Row
    requires e.Import?
  {
    NewRow(Listed(e.sourceDir, e.recordedAt), true, e.now)
  }

  /** What an event makes of one row. */
  function RowAfter(rows: Rows, e: Event, f: string): Row
    requires f in rows
  {
    var r := rows[f];
    match e
    case Relist(listing, present, now) => Reconciled(r, Entry(listing, f), f in present, listing == map[])
    case Pick(name, _, _) => if f == name then r.Started() else r
    case End(name, how) => if f == name then r.Ended(how) else r
    case Restart => if r.state.Downloading? then r.(state := Pending) else r
    case Flag(recording) =>
      if recording == Some(0) && (r.state.Pending? || r.state.Failed?) && !r.remoteComplete && IsNewest(rows, f)
      then r.(remoteComplete := true) else r
    case Triage(name, reading, now) => if f == name then r.Triaged(reading, IsNewest(rows, f), now) else r
    case Change(names, op) => if f in names then r.Apply(op) else r
    case Import(name, _, _, _) => if f == name then r.(state := Done) else r
  }

  function After(rows: Rows, e: Event): Rows {
    if e.Relist? then ReconciledRows(rows, e.listing, e.present, e.now)
    else if e.Import? && e.name !in rows then rows[e.name := Imported(e)]
    else map f | f in rows :: RowAfter(rows, e, f)
  }

  // ---- The queue as the services use it ----

  datatype Recording = Recording(filename: string, filepath: string, recordedAt: Option<int>)

  /** The listing by name; of two entries for one name the later counts. */
  function ByName(recordings: seq<Recording>): Listing {
    if recordings == [] then map[]
    else
      var n := |recordings| - 1;
      var r := recordings[n];
      ByName(recordings[..n])[r.filename := Listed(r.filepath, r.recordedAt)]
  }

  function RequestedRows(rows: Rows, names: set<string>): Rows {
    After(After(After(rows, Change(names, Unskip)), Change(names, Retry)), Change(names, MarkRequested))
  }

  lemma SamePriorities(rows: Rows, names: set<string>)
    ensures var now := RequestedRows(rows, names);
            now.Keys == rows.Keys && forall f :: f in rows ==> now[f].priority == rows[f].priority
  {
    hide After, Row.Apply;
    EarlyStepsKeepPriority();
    ChangeKeeps(rows, names, Unskip);
    var a := After(rows, Change(names, Unskip));
    ChangeKeeps(a, names, Retry);
    ChangeKeeps(After(a, Change(names, Retry)), names, MarkRequested);
  }

  lemma EarlyStepsKeepPriority()
    ensures forall r: Row :: r.Apply(Unskip).priority == r.priority
    ensures forall r: Row :: r.Apply(Retry).priority == r.priority
    ensures forall r: Row :: r.Apply(MarkRequested).priority == r.priority
  {
  }

  lemma ChangeKeeps(rows: Rows, names: set<string>, op: Op)
    ensures var now := After(rows, Change(names, op));
            && now.Keys == rows.Keys
            && forall f :: f in rows ==> now[f] == if f in names then rows[f].Apply(op) else rows[f]
  {
  }

  /** "Download next" is its four statements, one after the other. */
  lemma RequestInSteps(rows: Rows, names: set<string>, top: int)
    ensures After(RequestedRows(rows, names), Change(names, Prioritize(top)))
            == After(rows, Change(names, Request(top)))
  {
    hide After;
    var a := After(rows, Change(names, Unskip));
    var b := After(a, Change(names, Retry));
    var c := After(b, Change(names, MarkRequested));
    ChangeKeeps(rows, names, Unskip);
    ChangeKeeps(a, names, Retry);
    ChangeKeeps(b, names, MarkRequested);
    ChangeKeeps(c, names, Prioritize(top));
    ChangeKeeps(rows, names, Request(top));
  }

  lemma UnlistedRow(rows: Rows, listing: Listing, present: set<string>, now: int)
    ensures forall f :: f in rows && f !in listing ==>
              ReconciledRow(rows, listing, present, now, f) == Reconciled(rows[f], None, false, listing == map[])
  {
  }

  class Queue {
    var rows: Rows

    constructor ()
      ensures rows == map[]
    {
      rows := map[];
    }

    method Reconcile(recordings: seq<Recording>, present: set<string>, now: int)
      modifies this
      ensures rows == After(old(rows), Relist(ByName(recordings), present, now))
    {
      hide ReconciledRow, Reconciled;
      var existing := rows;
      var byName: Listing := map[];
      for i := 0 to |recordings|
        invariant rows == old(rows) && byName == ByName(recordings[..i])
      {
        assert recordings[..i + 1][..i] == recordings[..i];
        var r := recordings[i];
        byName := byName[r.filename := Listed(r.filepath, r.recordedAt)];
      }
      assert recordings[..|recordings|] == recordings;
      FoldIn(byName, present, now);
      MarkGone(existing, byName);
      assert rows == ReconciledRows(existing, byName, present, now) by {
        UnlistedRow(existing, byName, present, now);
      }
    }

    /** The pass over the listing; rows it does not list stay. */
    method FoldIn(listing: Listing, present: set<string>, now: int)
      modifies this
      ensures rows.Keys == old(rows).Keys + listing.Keys
      ensures forall f :: f in listing ==> rows[f] == ReconciledRow(old(rows), listing, present, now, f)
      ensures forall f :: f in old(rows) && f !in listing ==> rows[f] == old(rows)[f]
    {
      hide ReconciledRow;
      var existing := rows;
      var todo := listing.Keys;
      while exists f :: f in todo
        invariant todo <= listing.Keys
        invariant rows.Keys == existing.Keys + (listing.Keys - todo)
        invariant forall f :: f in listing && f !in todo ==>
                    rows[f] == ReconciledRow(existing, listing, present, now, f)
        invariant forall f :: f in existing && (f in todo || f !in listing) ==> rows[f] == existing[f]
        decreases todo
      {
        var f :| f in todo;
        todo := todo - {f};
        FoldOne(existing, listing[f], f, listing, present, now);
      }
    }

    method FoldOne(existing: Rows, rec: Listed, f: string, listing: Listing, present: set<string>, now: int)
      requires f in listing && rec == listing[f] && (f in existing ==> f in rows && rows[f] == existing[f])
      modifies this
      ensures rows == old(rows)[f := ReconciledRow(existing, listing, present, now, f)]
              || (f in existing && rows == old(rows) && rows[f] == ReconciledRow(existing, listing, present, now, f))
    {
      if f in present {
        if f !in existing {
          rows := rows[f := NewRow(rec, true, now)];
        } else if existing[f].state.Pending? || existing[f].state.Failed? || existing[f].state.Gone? {
          rows := rows[f := rows[f].(state := Done)];
        }
        return;
      }
      if f in existing {
        if existing[f].state.Gone? {
          var dir := if rec.filepath != "" then rec.filepath else existing[f].sourceDir;
          rows := rows[f := rows[f].(state := Pending, attempts := 0, requested := false, sourceDir := dir)];
        } else if rec.filepath != "" && existing[f].sourceDir != rec.filepath
                  && (existing[f].state.Pending? || existing[f].state.Failed?) {
          rows := rows[f := rows[f].(sourceDir := rec.filepath)];
        }
        return;
      }
      rows := rows[f := NewRow(rec, false, now)];
    }

    /** The pass over the tracked rows the listing has lost, unless the listing is empty. */
    method MarkGone(existing: Rows, listing: Listing)
      requires rows.Keys == existing.Keys + listing.Keys
      requires forall f :: f in existing && f !in listing ==> rows[f] == existing[f]
      modifies this
      ensures rows.Keys == old(rows).Keys
      ensures forall f :: f in listing ==> rows[f] == old(rows)[f]
      ensures forall f :: f in existing && f !in listing ==>
                rows[f] == Reconciled(existing[f], None, false, listing == map[])
    {
      var tracked := set f | f in existing && (existing[f].state.Pending? || existing[f].state.Failed?);
      if listing == map[] {
        return;
      }
      var todo := tracked;
      while exists f :: f in todo
        invariant todo <= tracked && rows.Keys == old(rows).Keys
        invariant forall f :: f in listing ==> rows[f] == old(rows)[f]
        invariant forall f :: f in existing && f !in listing ==>
                    rows[f] == if f in tracked && f !in todo then existing[f].(state := Gone) else existing[f]
        decreases todo
      {
        var f :| f in todo;
        todo := todo - {f};
        if f in listing {
          continue;
        }
        rows := rows[f := rows[f].(state := Gone)];
      }
    }

    /** The next row to download: of the eligible ones, the highest priority, oldest first. */
    method NextPending(scope: Scope, gate: bool, guard: bool) returns (next: Option<string>)
      ensures next.None? ==> forall f :: f in rows ==> !Eligible(rows, f, scope, gate, guard)
      ensures next.Some? ==> IsNext(rows, next.value, scope, gate, guard)
    {
      next := None;
      var todo := rows.Keys;
      while exists f :: f in todo
        invariant todo <= rows.Keys
        invariant next.None? ==> forall f :: f in rows && f !in todo ==> !Eligible(rows, f, scope, gate, guard)
        invariant next.Some? ==>
                    && Eligible(rows, next.value, scope, gate, guard)
                    && forall g :: g in rows && g !in todo && Eligible(rows, g, scope, gate, guard)
                         ==> Precedes(rows[next.value], rows[g])
        decreases todo
      {
        var f :| f in todo;
        todo := todo - {f};
        if Eligible(rows, f, scope, gate, guard) {
          if next.None? || !Precedes(rows[next.value], rows[f]) {
            next := Some(f);
          }
        }
      }
    }

    /** The drain waits while any clip is a target. */
    method HasPendingTargets(now: int) returns (any: bool)
      ensures any <==> exists f :: f in rows && IsTarget(rows, f, now)
    {
      any := false;
      var todo := rows.Keys;
      while exists f :: f in todo
        invariant todo <= rows.Keys
        invariant any <==> exists f :: f in rows && f !in todo && IsTarget(rows, f, now)
        decreases todo
      {
        var f :| f in todo;
        todo := todo - {f};
        if IsTarget(rows, f, now) {
          any := true;
        }
      }
    }

    method MarkDownloading(f: string, ghost scope: Scope, ghost gate: bool)
      modifies this
      ensures rows == After(old(rows), Pick(f, scope, gate))
    {
      if f in rows {
        rows := rows[f := rows[f].(state := Downloading, attempts := rows[f].attempts + 1)];
      }
    }

    method MarkDone(f: string)
      modifies this
      ensures rows == After(old(rows), End(f, Success))
    {
      if f in rows {
        rows := rows[f := rows[f].(state := Done)];
      }
    }

    /** The new state after a failure: failed once the attempts are used up. */
    method MarkTransientFailure(f: string, maxAttempts: nat) returns (state: Status)
      modifies this
      ensures rows == After(old(rows), End(f, Failure(maxAttempts)))
      ensures f in rows ==> state == rows[f].state
    {
      state := if f in rows && rows[f].attempts >= maxAttempts then Failed else Pending;
      if f in rows {
        rows := rows[f := rows[f].(state := state)];
      }
    }

    method MarkCancelled(f: string)
      modifies this
      ensures rows == After(old(rows), End(f, Cancelled))
    {
      if f in rows {
        var n := rows[f].attempts;
        rows := rows[f := rows[f].(state := Pending, attempts := if n > 0 then n - 1 else 0)];
      }
    }

    method ReconcileOrphanDownloads()
      modifies this
      ensures rows == After(old(rows), Restart)
    {
      rows := map f | f in rows :: if rows[f].state.Downloading? then rows[f].(state := Pending) else rows[f];
    }

    method Update(names: set<string>, op: Op)
      modifies this
      ensures rows == After(old(rows), Change(names, op))
    {
      rows := map f | f in rows :: if f in names then rows[f].Apply(op) else rows[f];
    }

    /** SQL COALESCE(MAX(priority), 0). */
    method HighestPriority() returns (m: int)
      ensures forall f :: f in rows ==> rows[f].priority <= m
      ensures if rows == map[] then m == 0 else exists f :: f in rows && rows[f].priority == m
    {
      var highest: Option<int> := None;
      var todo := rows.Keys;
      while exists f :: f in todo
        invariant todo <= rows.Keys
        invariant highest.None? ==> todo == rows.Keys
        invariant highest.Some? ==>
                    && (forall f :: f in rows && f !in todo ==> rows[f].priority <= highest.value)
                    && exists f :: f in rows && rows[f].priority == highest.value
        decreases todo
      {
        var f :| f in todo;
        todo := todo - {f};
        if highest.None? || rows[f].priority > highest.value {
          highest := Some(rows[f].priority);
        }
      }
      m := if highest.None? then 0 else highest.value;
    }

    /** Un-skip and retry the named clips, mark them requested and put them on top. */
    method DownloadNext(names: set<string>) returns (ghost top: int)
      modifies this
      ensures forall f :: f in old(rows) ==> old(rows)[f].priority < top
      ensures names != {} ==> rows == After(old(rows), Change(names, Request(top)))
      ensures names == {} ==> rows == old(rows)
    {
      hide After;
      if names == {} {
        var highest := HighestPriority();
        top := highest + 1;
        return;
      }
      ghost var before := rows;
      Update(names, Unskip);
      Update(names, Retry);
      Update(names, MarkRequested);
      SamePriorities(before, names);
      var m := HighestPriority();
      top := m + 1;
      Update(names, Prioritize(m + 1));
      RequestInSteps(before, names, m + 1);
    }

    /** A clip copied into the archive by an import is done, whatever its row said. */
    method RecordOrigin(f: string, sourceDir: string, recordedAt: Option<int>, now: int)
      modifies this
      ensures rows == After(old(rows), Import(f, sourceDir, recordedAt, now))
    {
      if f in rows {
        rows := rows[f := rows[f].(state := Done)];
      } else {
        rows := rows[f := NewRow(Listed(sourceDir, recordedAt), true, now)];
      }
    }

    /** The camera's record flag frees the newest capture when it says "stopped". */
    method ReleaseNewest(recording: Option<int>)
      modifies this
      ensures rows == After(old(rows), Flag(recording))
    {
      hide IsNewest;
      if recording != Some(0) {
        return;
      }
      rows := map f | f in rows ::
        if (rows[f].state.Pending? || rows[f].state.Failed?) && !rows[f].remoteComplete && IsNewest(rows, f)
        then rows[f].(remoteComplete := true) else rows[f];
    }

    method TriageOne(f: string, reading: Reading, now: int)
      modifies this
      ensures rows == After(old(rows), Triage(f, reading, now))
    {
      if f !in rows {
        return;
      }
      var r := rows[f];
      match reading {
        case Incomplete =>
          if IsNewest(rows, f) {
            rows := rows[f := r.(triageLastAttempt := Some(now))];
          } else {
            rows := rows[f := r.(triagedAt := Some(now), gpsPoints := 0)];
          }
        case Unreadable =>
          rows := rows[f := r.(triageAttempts := r.triageAttempts + 1, triageLastAttempt := Some(now))];
        case Offline =>
        case Points(n) =>
          rows := rows[f := r.(triagedAt := Some(now), gpsPoints := n)];
      }
    }
  }
}
