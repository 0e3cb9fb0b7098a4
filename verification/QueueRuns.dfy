/** What holds over every run of the queue: the worker, triage, listings, the record flag, the
    user, imports and restarts of the service, one atomic step after the other. */
module QueueRuns {
  import opened Basics
  import opened ClipNames
  import opened DownloadQueue

  /** The table and the download in flight. */
  datatype World = World(rows: Rows, current: Option<string>)

  /** What the services do: one download at a time, ended by the worker that began it. Deleting a
      clip in flight is left out. */
  ghost predicate Legal(w: World, e: Event) {
    match e
    case Pick(name, scope, gate) => w.current.None? && IsNext(w.rows, name, scope, gate, true)
    case End(name, _) => w.current == Some(name)
    case Change(names, op) =>
      (op.DeleteLocal? || op.RemoveFromCamera? ==> forall f :: f in names ==> w.current != Some(f))
    case _ => true
  }

  function InFlight(current: Option<string>, e: Event): Option<string> {
    match e
    case Pick(name, _, _) => Some(name)
    case End(_, _) => None
    case Restart => None
    case _ => current
  }

  function Next(w: World, e: Event): World { World(After(w.rows, e), InFlight(w.current, e)) }

  ghost predicate Follows(ws: seq<World>, es: seq<Event>, i: nat)
    requires |ws| == |es| + 1 && i < |es|
  {
    Legal(ws[i], es[i]) && ws[i + 1] == Next(ws[i], es[i])
  }

  ghost predicate IsRun(ws: seq<World>, es: seq<Event>) {
    |ws| == |es| + 1 && forall i {:trigger Follows(ws, es, i)} :: 0 <= i < |es| ==> Follows(ws, es, i)
  }

  lemma RunGoesOn(ws: seq<World>, es: seq<Event>, e: Event)
    requires IsRun(ws, es) && Legal(ws[|es|], e)
    ensures IsRun(ws + [Next(ws[|es|], e)], es + [e])
  {
    hide Legal, Next;
    var vs, ds := ws + [Next(ws[|es|], e)], es + [e];
    forall i | 0 <= i < |ds| ensures Follows(vs, ds, i) {
      if i < |es| { assert Follows(ws, es, i); }
    }
  }

  lemma RowNext(rows: Rows, e: Event, f: string)
    ensures f in rows ==> f in After(rows, e) && After(rows, e)[f] == RowAfter(rows, e, f)
    ensures f !in rows && f in After(rows, e) ==>
              || (e.Relist? && f in e.listing && After(rows, e)[f] == NewRow(e.listing[f], f in e.present, e.now))
              || (e.Import? && f == e.name && After(rows, e)[f] == Imported(e))
    ensures e.Relist? && f in e.listing ==> f in After(rows, e)
    ensures e.Import? && f == e.name ==> f in After(rows, e)
  {
  }

  // ---- Reconciling with a listing ----

  ghost predicate DistinctNames(rs: seq<Recording>) {
    forall i, j :: 0 <= i < j < |rs| ==> rs[i].filename != rs[j].filename
  }

  lemma {:induction false} ByNameOfDistinct(rs: seq<Recording>, f: string)
    requires DistinctNames(rs)
    ensures f in ByName(rs) <==> exists i :: 0 <= i < |rs| && rs[i].filename == f
    ensures forall i :: 0 <= i < |rs| && rs[i].filename == f ==>
              f in ByName(rs) && ByName(rs)[f] == Listed(rs[i].filepath, rs[i].recordedAt)
  {
    if rs != [] {
      var n := |rs| - 1;
      ByNameOfDistinct(rs[..n], f);
      if i :| 0 <= i < n && rs[..n][i].filename == f { assert rs[i].filename == f; }
      assert forall i :: 0 <= i < n ==> rs[..n][i] == rs[i];
    }
  }

  /** Of several entries for one name the last counts. */
  lemma {:induction false} ByNameIsLast(rs: seq<Recording>, f: string)
    ensures (forall i :: 0 <= i < |rs| ==> rs[i].filename != f) ==> f !in ByName(rs)
    ensures forall i :: 0 <= i < |rs| && rs[i].filename == f && (forall k :: i < k < |rs| ==> rs[k].filename != f)
              ==> f in ByName(rs) && ByName(rs)[f] == Listed(rs[i].filepath, rs[i].recordedAt)
  {
    if rs != [] {
      var n := |rs| - 1;
      ByNameIsLast(rs[..n], f);
      forall i | 0 <= i < n ensures rs[..n][i] == rs[i] {}
    }
  }

  /** The order of a listing without repeated names does not matter. */
  lemma ListingOrderIsIrrelevant(a: seq<Recording>, b: seq<Recording>)
    requires DistinctNames(a) && DistinctNames(b) && forall r :: r in a <==> r in b
    ensures ByName(a) == ByName(b)
  {
    forall f ensures (f in ByName(a) <==> f in ByName(b)) && (f in ByName(a) ==> ByName(a)[f] == ByName(b)[f]) {
      ByNameOfDistinct(a, f);
      ByNameOfDistinct(b, f);
      if i :| 0 <= i < |a| && a[i].filename == f { assert a[i] in b; }
      if j :| 0 <= j < |b| && b[j].filename == f { assert b[j] in a; }
    }
  }

  /** A second reconciliation with the same listing and files writes nothing, whenever it comes. */
  lemma SecondReconcileWritesNothing(rows: Rows, listing: Listing, present: set<string>, now: int, later: int)
    ensures var once := After(rows, Relist(listing, present, now));
            After(once, Relist(listing, present, later)) == once
  {
    hide After, Reconciled;
    var once := After(rows, Relist(listing, present, now));
    var twice := After(once, Relist(listing, present, later));
    forall f ensures (f in twice <==> f in once) && (f in once ==> twice[f] == once[f]) {
      RowNext(rows, Relist(listing, present, now), f);
      RowNext(once, Relist(listing, present, later), f);
      if f in once {
        if f in rows {
          ReconciledTwice(rows[f], Entry(listing, f), f in present, listing == map[]);
        } else {
          NewRowStays(listing[f], f in present, now);
        }
      }
    }
  }

  lemma ReconciledTwice(r: Row, listed: Option<Listed>, onDisk: bool, empty: bool)
    ensures var s := Reconciled(r, listed, onDisk, empty); Reconciled(s, listed, onDisk, empty) == s
  {
  }

  lemma NewRowStays(listed: Listed, onDisk: bool, now: int)
    ensures Reconciled(NewRow(listed, onDisk, now), Some(listed), onDisk, false) == NewRow(listed, onDisk, now)
  {
  }

  /** A listing takes no row away, brings every listed clip into the table, and gives a gone clip
      that is listed again a fresh start, or marks it done when it is on disk. An empty listing
      makes no row gone. */
  lemma ListingIsSafe(rows: Rows, listing: Listing, present: set<string>, now: int, f: string)
    ensures var table := After(rows, Relist(listing, present, now));
            && (f in rows || f in listing <==> f in table)
            && (listing == map[] && f in rows ==> table[f] == rows[f])
            && (f in rows && rows[f].state.Gone? && f in listing ==>
                  if f in present then table[f].state.Done? else table[f].state.Pending? && table[f].attempts == 0)
            && (f in rows && table[f].state.Gone? && !rows[f].state.Gone? ==>
                  f !in listing && (rows[f].state.Pending? || rows[f].state.Failed?))
            && (f in rows && (rows[f].state.Downloading? || rows[f].state.Skipped? || rows[f].state.Done?) ==>
                  table[f] == rows[f])
  {
    RowNext(rows, Relist(listing, present, now), f);
  }

  // ---- One download at a time ----

  /** The row in flight is downloading, unless an import has made it done meanwhile; no other row
      is downloading. */
  ghost predicate OneInFlight(w: World) {
    && (w.current.Some? ==> w.current.value in w.rows)
    && forall f :: f in w.rows ==> FlightShown(w.rows[f], w.current == Some(f))
  }

  ghost predicate FlightShown(r: Row, flying: bool) {
    if flying then r.state.Downloading? || r.state.Done? else !r.state.Downloading?
  }

  lemma ChangesLeaveTheDownload(r: Row, op: Op)
    ensures r.Apply(op).state.Downloading? ==> r.state.Downloading?
    ensures (r.state.Downloading? || r.state.Done?) && !op.DeleteLocal? && !op.RemoveFromCamera? ==> r.Apply(op) == r
  {
  }

  lemma ReadingsLeaveTheAttempts(r: Row, how: Reading, newest: bool, now: int)
    ensures var s := r.Triaged(how, newest, now); s.state == r.state && s.attempts == r.attempts
  {
  }

  lemma RowInFlight(w: World, e: Event, f: string)
    requires Legal(w, e) && OneInFlight(w) && f in w.rows
    ensures FlightShown(RowAfter(w.rows, e, f), InFlight(w.current, e) == Some(f))
  {
    hide IsNewest, Eligible, Precedes, Row.Apply, Row.Triaged;
    assert FlightShown(w.rows[f], w.current == Some(f));
    if e.Pick? { PickedIsPending(w.rows, e.name, e.scope, e.gate); }
    if e.Change? { ChangesLeaveTheDownload(w.rows[f], e.op); }
    if e.Triage? { ReadingsLeaveTheAttempts(w.rows[f], e.reading, IsNewest(w.rows, f), e.now); }
  }

  lemma PickedIsPending(rows: Rows, f: string, scope: Scope, gate: bool)
    requires IsNext(rows, f, scope, gate, true)
    ensures f in rows && rows[f].state.Pending?
  {
  }

  lemma StepKeepsOneInFlight(w: World, e: Event)
    requires Legal(w, e) && OneInFlight(w)
    ensures OneInFlight(Next(w, e))
  {
    hide RowAfter, After;
    var v := Next(w, e);
    forall f | f in v.rows ensures FlightShown(v.rows[f], v.current == Some(f)) {
      RowNext(w.rows, e, f);
      if f in w.rows { RowInFlight(w, e, f); } else { NotInFlight(w, e, f); }
    }
    if v.current.Some? {
      CurrentStays(w, e);
      RowNext(w.rows, e, v.current.value);
    }
  }

  lemma CurrentStays(w: World, e: Event)
    requires Legal(w, e) && OneInFlight(w) && InFlight(w.current, e).Some?
    ensures InFlight(w.current, e).value in w.rows
  {
    if e.Pick? { PickedIsPending(w.rows, e.name, e.scope, e.gate); }
  }

  lemma NotInFlight(w: World, e: Event, f: string)
    requires OneInFlight(w) && f !in w.rows && (e.Relist? || e.Import?)
    ensures InFlight(w.current, e) != Some(f)
  {
  }

  lemma {:induction false} RunKeepsOneInFlight(ws: seq<World>, es: seq<Event>, n: nat)
    requires IsRun(ws, es) && n < |ws| && OneInFlight(ws[0])
    ensures OneInFlight(ws[n])
  {
    if n > 0 {
      RunKeepsOneInFlight(ws, es, n - 1);
      assert Follows(ws, es, n - 1);
      StepKeepsOneInFlight(ws[n - 1], es[n - 1]);
    }
  }

  // ---- The attempt budget ----

  ghost predicate WithinBudget(r: Row, flying: bool, max: nat) {
    && (r.state.Pending? ==> r.attempts < max)
    && (flying ==> 1 <= r.attempts <= max)
  }

  /** No crash, and one retry limit throughout. */
  ghost predicate Calm(e: Event, max: nat) {
    !e.Restart? && (e.End? && e.how.Failure? ==> e.how.max == max)
  }

  lemma ChangeBudget(r: Row, op: Op, max: nat)
    requires WithinBudget(r, false, max) && max > 0
    ensures WithinBudget(r.Apply(op), false, max)
  {
  }

  lemma RowBudget(w: World, e: Event, f: string, max: nat)
    requires Legal(w, e) && OneInFlight(w) && Calm(e, max) && max > 0
    requires f in w.rows && WithinBudget(w.rows[f], w.current == Some(f), max)
    ensures WithinBudget(RowAfter(w.rows, e, f), InFlight(w.current, e) == Some(f), max)
  {
    hide IsNewest, Eligible, Precedes, Row.Apply, Row.Triaged;
    assert FlightShown(w.rows[f], w.current == Some(f));
    if e.Pick? { PickedIsPending(w.rows, e.name, e.scope, e.gate); }
    if e.Change? {
      ChangesLeaveTheDownload(w.rows[f], e.op);
      ChangeBudget(w.rows[f], e.op, max);
    }
    if e.Triage? { ReadingsLeaveTheAttempts(w.rows[f], e.reading, IsNewest(w.rows, f), e.now); }
  }

  ghost predicate AllWithinBudget(w: World, max: nat) {
    forall f :: f in w.rows ==> WithinBudget(w.rows[f], w.current == Some(f), max)
  }

  lemma StepBudget(w: World, e: Event, max: nat)
    requires Legal(w, e) && OneInFlight(w) && Calm(e, max) && max > 0 && AllWithinBudget(w, max)
    ensures AllWithinBudget(Next(w, e), max)
  {
    hide RowAfter, After;
    var v := Next(w, e);
    forall f | f in v.rows ensures WithinBudget(v.rows[f], v.current == Some(f), max) {
      RowNext(w.rows, e, f);
      if f in w.rows { RowBudget(w, e, f, max); } else { NotInFlight(w, e, f); }
    }
  }

  /** With one retry limit and no crash, every pending row has attempts to spare and the download
      in flight is within them. */
  lemma {:induction false} AttemptsStayWithinBudget(ws: seq<World>, es: seq<Event>, n: nat, max: nat)
    requires IsRun(ws, es) && n < |ws| && OneInFlight(ws[0]) && AllWithinBudget(ws[0], max) && max > 0
    requires forall i :: 0 <= i < n ==> Calm(es[i], max)
    ensures AllWithinBudget(ws[n], max)
  {
    if n > 0 {
      AttemptsStayWithinBudget(ws, es, n - 1, max);
      RunKeepsOneInFlight(ws, es, n - 1);
      assert Follows(ws, es, n - 1);
      StepBudget(ws[n - 1], es[n - 1], max);
    }
  }

  /** The row comes back to pending from a state it was parked in. */
  ghost predicate Returns(before: Row, after: Row) {
    (before.state.Failed? || before.state.Skipped? || before.state.Gone?) && after.state.Pending?
  }

  /** The step is a failed download of the row, or a crash during it. */
  ghost predicate Charged(before: Row, e: Event, f: string) {
    (e.End? && e.name == f && e.how.Failure?) || (e.Restart? && before.state.Downloading?)
  }

  /** Failures and crashes of a row since it was listed or last came back. */
  ghost function Charges(ws: seq<World>, es: seq<Event>, f: string, n: nat): nat
    requires |ws| == |es| + 1 && n < |ws|
  {
    if n == 0 || f !in ws[n - 1].rows || f !in ws[n].rows || Returns(ws[n - 1].rows[f], ws[n].rows[f]) then 0
    else Charges(ws, es, f, n - 1) + if Charged(ws[n - 1].rows[f], es[n - 1], f) then 1 else 0
  }

  /** The attempts are accounted for by this many charges. */
  ghost predicate Accounted(r: Row, flying: bool, charges: nat) {
    && (r.state.Pending? || r.state.Failed? ==> r.attempts == charges)
    && (flying ==> r.attempts == charges + 1)
  }

  lemma ChangeAccounts(r: Row, op: Op, charges: nat)
    requires Accounted(r, false, charges)
    ensures Accounted(r.Apply(op), false, if Returns(r, r.Apply(op)) then 0 else charges)
  {
  }

  lemma RowAccounts(w: World, e: Event, f: string, charges: nat)
    requires Legal(w, e) && OneInFlight(w) && f in w.rows && Accounted(w.rows[f], w.current == Some(f), charges)
    ensures var r, s := w.rows[f], RowAfter(w.rows, e, f);
            Accounted(s, InFlight(w.current, e) == Some(f),
                      if Returns(r, s) then 0 else charges + if Charged(r, e, f) then 1 else 0)
  {
    hide IsNewest, Eligible, Precedes, Row.Apply, Row.Triaged;
    assert FlightShown(w.rows[f], w.current == Some(f));
    if e.Pick? { PickedIsPending(w.rows, e.name, e.scope, e.gate); }
    if e.Change? {
      ChangesLeaveTheDownload(w.rows[f], e.op);
      if w.current != Some(f) { ChangeAccounts(w.rows[f], e.op, charges); }
    }
    if e.Triage? { ReadingsLeaveTheAttempts(w.rows[f], e.reading, IsNewest(w.rows, f), e.now); }
  }

  /** Attempts are exactly the failures and crashes since the row was listed or last came back,
      plus the attempt in flight: a crash is not refunded, a cancelled download is. */
  lemma {:induction false} AttemptsAreCharges(ws: seq<World>, es: seq<Event>, f: string, n: nat)
    requires IsRun(ws, es) && n < |ws| && OneInFlight(ws[0]) && ws[0].rows == map[]
    requires f in ws[n].rows
    ensures Accounted(ws[n].rows[f], ws[n].current == Some(f), Charges(ws, es, f, n))
  {
    if n > 0 {
      assert Follows(ws, es, n - 1);
      hide After, RowAfter;
      RowNext(ws[n - 1].rows, es[n - 1], f);
      if f in ws[n - 1].rows {
        AttemptsAreCharges(ws, es, f, n - 1);
        RunKeepsOneInFlight(ws, es, n - 1);
        RowAccounts(ws[n - 1], es[n - 1], f, Charges(ws, es, f, n - 1));
      } else {
        RunKeepsOneInFlight(ws, es, n - 1);
        NotInFlight(ws[n - 1], es[n - 1], f);
      }
    }
  }

  // ---- What may enter the download ----

  /** Some capture still on the card, or in the archive, is strictly later. */
  ghost predicate Superseded(rows: Rows, f: string) {
    exists g :: g in rows && !rows[g].state.Gone? && Below(CaptureKey(f), CaptureKey(g))
  }

  /** A row starts downloading only when picked: then it was pending, in scope or requested, its
      GPS sibling was not awaiting triage where triage gates, its capture was superseded or
      confirmed complete, and no eligible row came before it. */
  lemma DownloadsAreAllowed(ws: seq<World>, es: seq<Event>, i: nat, f: string)
    requires IsRun(ws, es) && i < |es| && f in ws[i + 1].rows && ws[i + 1].rows[f].state.Downloading?
    requires f in ws[i].rows ==> !ws[i].rows[f].state.Downloading?
    ensures es[i].Pick? && es[i].name == f && f in ws[i].rows
    ensures var rows, r, scope, gate := ws[i].rows, ws[i].rows[f], es[i].scope, es[i].gate;
            && r.state.Pending? && (r.requested || InScope(scope, f, r))
            && (gate ==> !Gated(rows, f))
            && (Superseded(rows, f) || r.remoteComplete)
            && forall g :: g in rows && Eligible(rows, g, scope, gate, true) ==> Precedes(r, rows[g])
  {
    assert Follows(ws, es, i);
    RowNext(ws[i].rows, es[i], f);
    StartsOnlyByPick(ws[i].rows, es[i], f);
  }

  lemma StartsOnlyByPick(rows: Rows, e: Event, f: string)
    ensures (f in rows && !rows[f].state.Downloading? && RowAfter(rows, e, f).state.Downloading?)
            ==> e.Pick? && e.name == f
  {
    hide IsNewest, Row.Apply, Row.Triaged;
    if f in rows {
      if e.Change? { ChangesLeaveTheDownload(rows[f], e.op); }
      if e.Triage? { ReadingsLeaveTheAttempts(rows[f], e.reading, IsNewest(rows, f), e.now); }
    }
  }

  // ---- What is never taken back ----

  ghost predicate Keeps(r: Row, s: Row) {
    && (r.remoteComplete ==> s.remoteComplete)
    && (r.triagedAt.Some? ==> s.triagedAt.Some?)
    && r.triageAttempts <= s.triageAttempts
    && (r.released ==> s.released)
  }

  lemma ChangeKeepsMarks(r: Row, op: Op)
    ensures var s := r.Apply(op);
            && s.remoteComplete == r.remoteComplete && s.triagedAt == r.triagedAt
            && s.triageAttempts == r.triageAttempts && (r.released ==> s.released)
  {
  }

  lemma RowKeeps(rows: Rows, e: Event, f: string)
    requires f in rows
    ensures Keeps(rows[f], RowAfter(rows, e, f))
    ensures !rows[f].remoteComplete && RowAfter(rows, e, f).remoteComplete ==> e == Flag(Some(0)) && IsNewest(rows, f)
  {
    hide IsNewest, Row.Apply;
    if e.Change? { ChangeKeepsMarks(rows[f], e.op); }
  }

  /** Over a run no row is removed and no confirmation, triage, triage attempt or release is undone. */
  lemma {:induction false} NothingIsTakenBack(ws: seq<World>, es: seq<Event>, f: string, m: nat, n: nat)
    requires IsRun(ws, es) && m <= n < |ws| && f in ws[m].rows
    ensures f in ws[n].rows && Keeps(ws[m].rows[f], ws[n].rows[f])
    decreases n
  {
    if m < n {
      NothingIsTakenBack(ws, es, f, m, n - 1);
      assert Follows(ws, es, n - 1);
      hide After, RowAfter;
      RowNext(ws[n - 1].rows, es[n - 1], f);
      RowKeeps(ws[n - 1].rows, es[n - 1], f);
    }
  }

  /** A capture is confirmed complete only by a "stopped" flag read while it was the newest. */
  lemma {:induction false} ConfirmedOnlyByTheFlag(ws: seq<World>, es: seq<Event>, f: string, n: nat) returns (i: nat)
    requires IsRun(ws, es) && n < |ws| && ws[0].rows == map[]
    requires f in ws[n].rows && ws[n].rows[f].remoteComplete
    ensures i < n && es[i] == Flag(Some(0)) && f in ws[i].rows && IsNewest(ws[i].rows, f)
  {
    assert Follows(ws, es, n - 1);
    hide After, RowAfter, IsNewest;
    RowNext(ws[n - 1].rows, es[n - 1], f);
    RowKeeps(ws[n - 1].rows, es[n - 1], f);
    if ws[n - 1].rows[f].remoteComplete {
      i := ConfirmedOnlyByTheFlag(ws, es, f, n - 1);
    } else {
      i := n - 1;
    }
  }

  // ---- Imports ----

  ghost predicate Imports(e: Event, f: string) { e.Import? && e.name == f }

  ghost predicate Discards(e: Event, f: string) {
    e.Change? && f in e.names && (e.op.DeleteLocal? || e.op.RemoveFromCamera?)
  }

  /** An imported clip that was not downloading is done, and is never picked again until it is
      deleted here or on the camera. */
  lemma {:induction false} ImportedStaysDone(ws: seq<World>, es: seq<Event>, f: string, m: nat, n: nat)
    requires IsRun(ws, es) && m < n < |ws| && Imports(es[m], f) && ws[m].current != Some(f)
    requires forall i :: m < i < n ==> !Discards(es[i], f)
    ensures f in ws[n].rows && ws[n].rows[f].state.Done? && ws[n].current != Some(f)
    decreases n
  {
    assert Follows(ws, es, n - 1);
    hide After, RowAfter, IsNext;
    RowNext(ws[n - 1].rows, es[n - 1], f);
    if m < n - 1 {
      ImportedStaysDone(ws, es, f, m, n - 1);
      DoneStays(ws[n - 1], es[n - 1], f);
    } else if f in ws[m].rows {
      ImportIsDone(ws[m].rows, es[m], f);
    }
  }

  lemma DoneStays(w: World, e: Event, f: string)
    requires Legal(w, e) && f in w.rows && w.rows[f].state.Done? && w.current != Some(f) && !Discards(e, f)
    ensures RowAfter(w.rows, e, f).state.Done? && InFlight(w.current, e) != Some(f)
  {
    hide IsNewest, IsNext, Eligible, Row.Apply;
    if e.Pick? { PickedIsPending(w.rows, e.name, e.scope, e.gate); }
    if e.Change? { ChangesLeaveTheDownload(w.rows[f], e.op); }
  }

  lemma ImportIsDone(rows: Rows, e: Event, f: string)
    requires f in rows && Imports(e, f)
    ensures RowAfter(rows, e, f).state.Done?
  {
  }

  /** An import made while the clip is downloading holds until that download ends; it is kept
      exactly when the download succeeds or the service restarts. */
  lemma {:induction false} ImportInFlightIsKeptIff(ws: seq<World>, es: seq<Event>, f: string, m: nat, n: nat)
    requires IsRun(ws, es) && OneInFlight(ws[0]) && m < n < |es| && Imports(es[m], f) && ws[m].current == Some(f)
    requires forall i :: m < i < n ==> !es[i].End? && !es[i].Restart?
    ensures f in ws[n].rows && ws[n].rows[f].state.Done? && ws[n].current == Some(f)
    ensures f in ws[n + 1].rows && (ws[n + 1].rows[f].state.Done? <==> (es[n].End? ==> es[n].how.Success?))
    decreases n
  {
    assert Follows(ws, es, n - 1) && Follows(ws, es, n);
    hide After, RowAfter, IsNext;
    RunKeepsOneInFlight(ws, es, n - 1);
    RowNext(ws[n - 1].rows, es[n - 1], f);
    RowNext(ws[n].rows, es[n], f);
    if m < n - 1 {
      ImportInFlightIsKeptIff(ws, es, f, m, n - 1);
    } else {
      ImportIsDone(ws[m].rows, es[m], f);
    }
    DoneInFlight(ws[n], es[n], f);
  }

  lemma DoneInFlight(w: World, e: Event, f: string)
    requires Legal(w, e) && f in w.rows && w.rows[f].state.Done? && w.current == Some(f)
    ensures RowAfter(w.rows, e, f).state.Done? <==> (e.End? ==> e.how.Success?)
  {
    hide IsNewest, IsNext, Eligible, Row.Apply;
    if e.Change? { ChangesLeaveTheDownload(w.rows[f], e.op); }
  }

  // ---- The triage gate opens ----

  /** The step is a reading of the row that reached the camera, while the row's capture was not
      the newest. */
  ghost predicate Answers(rows: Rows, e: Event, f: string) {
    e.Triage? && e.name == f && !e.reading.Offline? && f in rows && !IsNewest(rows, f)
  }

  ghost function Answered(ws: seq<World>, es: seq<Event>, f: string, n: nat): nat
    requires |ws| == |es| + 1 && n < |ws|
  {
    if n == 0 then 0 else Answered(ws, es, f, n - 1) + if Answers(ws[n - 1].rows, es[n - 1], f) then 1 else 0
  }

  lemma AnswerCounts(rows: Rows, e: Event, f: string)
    requires f in rows && Answers(rows, e, f)
    ensures var s := RowAfter(rows, e, f); s.triagedAt.Some? || s.triageAttempts == rows[f].triageAttempts + 1
  {
    hide IsNewest;
  }

  lemma {:induction false} AnswersAddUp(ws: seq<World>, es: seq<Event>, f: string, n: nat)
    requires IsRun(ws, es) && n < |ws|
    ensures Answered(ws, es, f, n) > 0 ==> f in ws[n].rows
    ensures f in ws[n].rows && ws[n].rows[f].triagedAt.None? ==> ws[n].rows[f].triageAttempts >= Answered(ws, es, f, n)
  {
    if n > 0 {
      AnswersAddUp(ws, es, f, n - 1);
      assert Follows(ws, es, n - 1);
      hide After, RowAfter, IsNewest;
      RowNext(ws[n - 1].rows, es[n - 1], f);
      if f in ws[n - 1].rows {
        RowKeeps(ws[n - 1].rows, es[n - 1], f);
        if Answers(ws[n - 1].rows, es[n - 1], f) { AnswerCounts(ws[n - 1].rows, es[n - 1], f); }
      }
    }
  }

  /** Five answers from the camera, each while the capture was not the newest, end the wait for
      triage for good, whatever they said. */
  lemma FiveAnswersEndTheWait(ws: seq<World>, es: seq<Event>, f: string, m: nat, n: nat)
    requires IsRun(ws, es) && m <= n < |ws| && Answered(ws, es, f, m) >= TRIAGE_MAX_ATTEMPTS
    ensures f in ws[n].rows && !ws[n].rows[f].AwaitsTriage()
  {
    AnswersAddUp(ws, es, f, m);
    NothingIsTakenBack(ws, es, f, m, n);
  }

  /** The gate on a row is open once each GPS sibling has been answered for five times. */
  lemma GateOpens(ws: seq<World>, es: seq<Event>, f: string, n: nat)
    requires IsRun(ws, es) && n < |ws|
    requires forall g :: g in ws[n].rows && InRange(g, Prefix16(f)) && IsGpsLens(g) && ws[n].rows[g].state.Pending?
               ==> Answered(ws, es, g, n) >= TRIAGE_MAX_ATTEMPTS
    ensures !Gated(ws[n].rows, f)
  {
    forall g | g in ws[n].rows && InRange(g, Prefix16(f)) && IsGpsLens(g) && ws[n].rows[g].state.Pending?
      ensures !ws[n].rows[g].AwaitsTriage()
    {
      FiveAnswersEndTheWait(ws, es, g, n, n);
    }
  }

  /** A clip found incomplete is let go exactly when its capture is not the newest: even a capture
      confirmed complete is deferred again and again while it is. */
  lemma IncompleteDefersTheNewest(rows: Rows, f: string, now: int)
    requires f in rows && rows[f].AwaitsTriage()
    ensures var s := RowAfter(rows, Triage(f, Incomplete, now), f);
            (s.AwaitsTriage() <==> IsNewest(rows, f)) && s.triageAttempts == rows[f].triageAttempts
  {
  }

  /** A target is read at most once: whatever the camera answered, the clip is no target again for
      ten seconds. */
  lemma AnsweredTargetRests(rows: Rows, f: string, reading: Reading, now: int, later: int)
    requires IsTarget(rows, f, now) && !reading.Offline? && now <= later < now + 10
    ensures !IsTarget(After(rows, Triage(f, reading, now)), f, later)
  {
    hide IsNewest, IsParkingClip, IsGpsLens;
    RowNext(rows, Triage(f, reading, now), f);
  }

  /** Where triage gates, no target is downloaded before it is read. */
  lemma TargetsAreGated(rows: Rows, f: string, now: int)
    requires IsTarget(rows, f, now) && Parse(f).Some?
    ensures Gated(rows, f)
  {
    hide IsNewest, Parse, InRange, IsParkingClip, IsGpsLens;
    NamesArePlain(f);
    RangeIsPrefix(f, Prefix16(f));
  }

  // ---- "Download next" ----

  /** After "download next" the next pick is one of the named clips, as long as one is eligible. */
  lemma RequestedComeFirst(rows: Rows, names: set<string>, top: int, scope: Scope, gate: bool, f: string, g: string)
    requires forall h :: h in rows ==> rows[h].priority < top
    requires var table := After(rows, Change(names, Request(top)));
             IsNext(table, f, scope, gate, true) && g in names && Eligible(table, g, scope, gate, true)
    ensures f in names
  {
    var table := After(rows, Change(names, Request(top)));
    assert Precedes(table[f], table[g]);
  }

  /** A requested clip needs no scope: held back only by the triage gate and the newest capture. */
  lemma RequestBypassesScope(rows: Rows, names: set<string>, top: int, scope: Scope, gate: bool, f: string)
    requires f in names && f in rows && (rows[f].state.Pending? || rows[f].state.Failed? || rows[f].state.Skipped?)
    ensures var table := After(rows, Change(names, Request(top)));
            && table[f].attempts <= rows[f].attempts
            && (Eligible(table, f, scope, gate, true)
                <==> (gate ==> !Gated(table, f)) && (IsNewest(table, f) ==> table[f].remoteComplete))
  {
    hide Gated, IsNewest, InScope;
    RowNext(rows, Change(names, Request(top)), f);
  }

  // ---- Runs that break a promise ----

  lemma {:induction false} NotBelowItself(s: string)
    ensures !Below(s, s)
  {
    if s != "" { NotBelowItself(s[1..]); }
  }

  lemma OnlyRowIsNewest(f: string, r: Row)
    requires !r.state.Gone?
    ensures IsNewest(map[f := r], f)
  {
    hide CaptureKey;
    NotBelowItself(CaptureKey(f));
  }

  /** A clip listed and confirmed complete. */
  function ConfirmedRow(): Row { NewRow(Listed("", None), false, 0).(remoteComplete := true) }

  /** Every clip can be listed and confirmed: then it is the newest, and the next to download. */
  lemma Confirmed(f: string) returns (ws: seq<World>, es: seq<Event>)
    ensures IsRun(ws, es) && ws[0] == World(map[], None) && |es| == 2 && forall i :: 0 <= i < 2 ==> !es[i].End?
    ensures ws[2] == World(map[f := ConfirmedRow()], None)
    ensures IsNewest(ws[2].rows, f) && IsNext(ws[2].rows, f, Everything, false, true)
  {
    hide CaptureKey, IsNewest;
    var listed := NewRow(Listed("", None), false, 0);
    var a, b, c := World(map[], None), World(map[f := listed], None), World(map[f := ConfirmedRow()], None);
    OnlyRowIsNewest(f, listed);
    OnlyRowIsNewest(f, ConfirmedRow());
    var list := Relist(map[f := Listed("", None)], {}, 0);
    assert Next(a, list) == b;
    assert Next(b, Flag(Some(0))) == c;
    ws, es := [a, b, c], [list, Flag(Some(0))];
    assert Follows(ws, es, 0) && Follows(ws, es, 1);
  }

  lemma Picked(f: string) returns (ws: seq<World>, es: seq<Event>)
    ensures IsRun(ws, es) && ws[0] == World(map[], None) && |es| == 3 && forall i :: 0 <= i < 3 ==> !es[i].End?
    ensures ws[3] == World(map[f := ConfirmedRow().Started()], Some(f))
  {
    hide IsNewest, IsNext;
    ws, es := Confirmed(f);
    var pick := Pick(f, Everything, false);
    assert Next(ws[2], pick) == World(map[f := ConfirmedRow().Started()], Some(f));
    RunGoesOn(ws, es, pick);
    ws, es := ws + [Next(ws[2], pick)], es + [pick];
  }

  /** A crash costs an attempt: whatever the clip, it is pending again with an attempt used although
      no download of it has failed, and where one attempt is allowed that was the last. */
  lemma CrashCostsAnAttempt(f: string) returns (ws: seq<World>, es: seq<Event>)
    ensures IsRun(ws, es) && ws[0] == World(map[], None) && |es| == 4 && es[3] == Restart
    ensures forall i :: 0 <= i < 4 ==> !es[i].End?
    ensures f in ws[4].rows && ws[4].rows[f].state.Pending? && ws[4].rows[f].attempts == 1
    ensures !AllWithinBudget(ws[4], 1)
  {
    ws, es := Picked(f);
    var last := Next(ws[3], Restart);
    assert last.rows == map[f := ConfirmedRow().Started().(state := Pending)];
    RunGoesOn(ws, es, Restart);
    ws, es := ws + [last], es + [Restart];
    assert !WithinBudget(last.rows[f], false, 1);
  }

  /** An import is undone: whatever the clip, it is imported while downloading and, when that download
      fails, pending or failed. */
  lemma ImportIsUndone(f: string, max: nat) returns (ws: seq<World>, es: seq<Event>)
    ensures IsRun(ws, es) && ws[0] == World(map[], None) && |es| == 5
    ensures Imports(es[3], f) && f in ws[4].rows && ws[4].rows[f].state.Done?
    ensures es[4] == End(f, Failure(max))
    ensures f in ws[5].rows && ws[5].rows[f].state == if max <= 1 then Failed else Pending
  {
    ws, es := Picked(f);
    var e, d := Import(f, "/import/", None, 1), End(f, Failure(max));
    var imported := Next(ws[3], e);
    assert imported.rows == map[f := ConfirmedRow().Started().(state := Done)];
    RunGoesOn(ws, es, e);
    ws, es := ws + [imported], es + [e];
    var last := Next(imported, d);
    RunGoesOn(ws, es, d);
    ws, es := ws + [last], es + [d];
  }

  /** A confirmed capture is deferred again: as the newest it is a target, is found incomplete, still
      awaits triage with no attempt counted, and ten minutes later is a target once more. */
  lemma ConfirmedNewestIsDeferred(f: string, now: int) returns (ws: seq<World>, es: seq<Event>)
    requires IsGpsLens(f)
    ensures IsRun(ws, es) && ws[0] == World(map[], None) && |es| == 3 && es[2] == Triage(f, Incomplete, now)
    ensures f in ws[2].rows && ws[2].rows[f].remoteComplete && IsNewest(ws[2].rows, f) && IsTarget(ws[2].rows, f, now)
    ensures f in ws[3].rows && ws[3].rows[f].AwaitsTriage() && ws[3].rows[f].triageAttempts == 0
    ensures IsTarget(ws[3].rows, f, now + 600)
  {
    hide IsNewest, IsNext, IsGpsLens, IsParkingClip;
    ws, es := Confirmed(f);
    var e := Triage(f, Incomplete, now);
    var last := Next(ws[2], e);
    assert last.rows == map[f := ConfirmedRow().(triageLastAttempt := Some(now))];
    RunGoesOn(ws, es, e);
    ws, es := ws + [last], es + [e];
  }
}
