/** The drain loop of web/services/sync_worker.py: it picks and downloads until nothing eligible
    is left, and it ends because every pick uses up an attempt. */
module Drain {
  import opened Basics
  import opened DownloadQueue
  import opened QueueRuns

  // ---- What the drain has left to do ----

  /** The picks a row can still take under a retry limit. */
  function RowDebt(r: Row, max: nat): nat {
    if !r.state.Pending? then 0 else if r.attempts + 1 < max then max - r.attempts else 1
  }

  /** The picks a row can still take while it is within its budget: the attempts it has left. */
  function RowLeft(r: Row, max: nat): nat { if r.state.Pending? && r.attempts < max then max - r.attempts else 0 }

  ghost function Total(costs: map<string, nat>): nat {
    if exists f :: f in costs then
      var f :| f in costs;
      costs[f] + Total(costs - {f})
    else 0
  }

  lemma {:induction false} TotalSplit(costs: map<string, nat>, f: string)
    requires f in costs
    ensures Total(costs) == costs[f] + Total(costs - {f})
    decreases costs
  {
    var g :| g in costs && Total(costs) == costs[g] + Total(costs - {g});
    if g != f {
      TotalSplit(costs - {g}, f);
      TotalSplit(costs - {f}, g);
      assert costs - {g} - {f} == costs - {f} - {g};
    }
  }

  ghost function Debt(rows: Rows, max: nat): nat { Total(map f | f in rows :: RowDebt(rows[f], max)) }

  /** The attempts the pending rows have left. */
  ghost function AttemptsLeft(rows: Rows, max: nat): nat { Total(map f | f in rows :: RowLeft(rows[f], max)) }

  /** As long as the table is within its budget, as it is over every run without a crash, the debt
      is the sum of the attempts left. */
  lemma DebtIsAttemptsLeft(rows: Rows, max: nat)
    requires AllWithinBudget(World(rows, None), max)
    ensures Debt(rows, max) == AttemptsLeft(rows, max)
  {
    var debts, left := map f | f in rows :: RowDebt(rows[f], max), map f | f in rows :: RowLeft(rows[f], max);
    forall f | f in rows ensures debts[f] == left[f] {
      assert WithinBudget(rows[f], false, max);
    }
    assert debts == left;
  }

  lemma DebtSplit(rows: Rows, max: nat, f: string)
    requires f in rows
    ensures Debt(rows, max) == RowDebt(rows[f], max) + Debt(rows - {f}, max)
  {
    hide RowDebt, Total;
    var debts := map g | g in rows :: RowDebt(rows[g], max);
    TotalSplit(debts, f);
    assert debts - {f} == map g | g in rows - {f} :: RowDebt((rows - {f})[g], max);
  }

  /** The table with one row changed, twice over. */
  lemma Round(rows: Rows, f: string, scope: Scope, gate: bool, how: Outcome)
    requires f in rows
    ensures After(After(rows, Pick(f, scope, gate)), End(f, how)) == rows[f := rows[f].Started().Ended(how)]
  {
    hide After, RowAfter;
    var one := After(rows, Pick(f, scope, gate));
    var two := After(one, End(f, how));
    forall g
      ensures g in two <==> g in rows
      ensures g in rows ==> two[g] == if g == f then rows[f].Started().Ended(how) else rows[g]
    {
      RowNext(rows, Pick(f, scope, gate), g);
      RowNext(one, End(f, how), g);
      if g in rows { OneRowOfRound(rows, one, f, scope, gate, how, g); }
    }
  }

  lemma OneRowOfRound(rows: Rows, one: Rows, f: string, scope: Scope, gate: bool, how: Outcome, g: string)
    requires g in rows && g in one && one[g] == RowAfter(rows, Pick(f, scope, gate), g)
    ensures RowAfter(one, End(f, how), g) == if g == f then rows[f].Started().Ended(how) else rows[g]
  {
  }

  /** Each pick uses up part of the debt, unless the download is cancelled: that is refunded. */
  lemma PickPays(rows: Rows, f: string, scope: Scope, gate: bool, how: Outcome, max: nat)
    requires f in rows && rows[f].state.Pending? && (how.Failure? ==> how.max == max)
    ensures var next := After(After(rows, Pick(f, scope, gate)), End(f, how));
            if how.Cancelled? then Debt(next, max) == Debt(rows, max) else Debt(next, max) + 1 <= Debt(rows, max)
  {
    hide After, Debt;
    Round(rows, f, scope, gate, how);
    var r := rows[f].Started().Ended(how);
    DebtSplit(rows, max, f);
    DebtSplit(rows[f := r], max, f);
    assert rows[f := r] - {f} == rows - {f};
  }

  /** One table owes no more than another but for a full budget for each of some names. */
  ghost predicate OwesAtMost(next: Rows, rows: Rows, names: set<string>, max: nat) {
    && rows.Keys <= next.Keys <= rows.Keys + names
    && (forall f :: f in next && f in names ==> RowDebt(next[f], max) <= max)
    && forall f :: f in next && f !in names ==> RowDebt(next[f], max) <= RowDebt(rows[f], max)
  }

  lemma OwesWithout(next: Rows, rows: Rows, names: set<string>, f: string, max: nat)
    requires OwesAtMost(next, rows, names, max)
    ensures OwesAtMost(next - {f}, rows - {f}, names - {f}, max)
  {
    hide RowDebt;
  }

  lemma DebtWithout(rows: Rows, f: string, max: nat)
    ensures Debt(rows, max) == Debt(rows - {f}, max) + if f in rows then RowDebt(rows[f], max) else 0
  {
    hide Debt, RowDebt;
    if f in rows { DebtSplit(rows, max, f); } else { assert rows - {f} == rows; }
  }

  lemma OwesOne(next: Rows, rows: Rows, names: set<string>, f: string, max: nat)
    requires OwesAtMost(next, rows, names, max) && f in next
    ensures RowDebt(next[f], max) <= (if f in rows then RowDebt(rows[f], max) else 0) + (if f in names then max else 0)
  {
  }

  lemma {:induction false} DebtGrows(next: Rows, rows: Rows, names: set<string>, max: nat)
    requires OwesAtMost(next, rows, names, max)
    ensures Debt(next, max) <= Debt(rows, max) + Budgets(names, max)
    decreases next
  {
    hide Debt, RowDebt, OwesAtMost, Budgets;
    if exists f :: f in next {
      var f :| f in next;
      OwesWithout(next, rows, names, f, max);
      OwesOne(next, rows, names, f, max);
      DebtGrows(next - {f}, rows - {f}, names - {f}, max);
      DebtWithout(next, f, max);
      DebtWithout(rows, f, max);
      FewerNames(names, f, max);
    } else {
      NoDebt(next, max);
    }
  }

  /** A full budget for each name. */
  function Budgets(names: set<string>, max: nat): nat { max * |names| }

  lemma NoDebt(rows: Rows, max: nat)
    requires !exists f :: f in rows
    ensures Debt(rows, max) == 0
  {
  }

  lemma FewerNames(names: set<string>, f: string, max: nat)
    ensures Budgets(names, max) == Budgets(names - {f}, max) + if f in names then max else 0
  {
    if f in names {
      assert |names - {f}| == |names| - 1;
      Less(max, |names|);
    } else {
      assert names - {f} == names;
    }
  }

  lemma Less(max: nat, n: nat)
    requires n > 0
    ensures max * (n - 1) + max == max * n
  {
  }

  /** A listing adds at most a full budget for each clip it lists. */
  lemma ListingOwes(rows: Rows, listing: Listing, present: set<string>, now: int, max: nat)
    requires max > 0
    ensures Debt(After(rows, Relist(listing, present, now)), max) <= Debt(rows, max) + Budgets(listing.Keys, max)
  {
    hide After, RowAfter, Debt;
    var e := Relist(listing, present, now);
    var next := After(rows, e);
    forall f ensures (f in rows ==> f in next) && (f in next ==> f in rows || f in listing) { RowNext(rows, e, f); }
    forall f | f in next && f in listing ensures RowDebt(next[f], max) <= max { RowNext(rows, e, f); }
    forall f | f in next && f !in listing ensures RowDebt(next[f], max) <= RowDebt(rows[f], max) {
      RowNext(rows, e, f);
      UnlistedOwes(rows, e, f, max);
    }
    DebtGrows(next, rows, listing.Keys, max);
  }

  lemma UnlistedOwes(rows: Rows, e: Event, f: string, max: nat)
    requires e.Relist? && f in rows && f !in e.listing
    ensures RowDebt(RowAfter(rows, e, f), max) <= RowDebt(rows[f], max)
  {
  }

  // ---- The loop ----

  datatype Ending = Fetched | Broken | Interrupted | VolumeFull

  datatype Relisting = Relisting(recordings: seq<Recording>, present: set<string>, now: int)

  /** What one pass of the loop meets: requests to stop or pause, the profile of the connection,
      whether the camera answers, how the download ends, and a listing taken after it. */
  datatype Turn = Turn(stopped: bool, paused: bool, scope: Scope, gate: bool, answers: bool,
                       ending: Ending, relisting: Option<Relisting>)

  datatype Exit = Stopped | Paused | Drained | CameraGone | DiskFull

  /** What a turn may add to the work: a pick that is refunded, or the clips of a new listing. */
  ghost function Extra(t: Turn, max: nat): nat {
    (if t.ending.Interrupted? || t.ending.VolumeFull? then 1 else 0)
    + if t.relisting.Some? then Budgets(ByName(t.relisting.value.recordings).Keys, max) else 0
  }

  ghost function Extras(turns: nat -> Turn, max: nat, n: nat): nat {
    if n == 0 then 0 else Extras(turns, max, n - 1) + Extra(turns(n - 1), max)
  }

  ghost predicate AreQuiet(turns: nat -> Turn, n: nat) {
    forall i: nat :: i < n ==> !turns(i).ending.Interrupted? && !turns(i).ending.VolumeFull? && turns(i).relisting.None?
  }

  function OutcomeOf(ending: Ending, max: nat): Outcome {
    match ending
    case Fetched => Success
    case Broken => Failure(max)
    case Interrupted => Cancelled
    case VolumeFull => Cancelled
  }

  /** What n turns do, one after the other: a pick, the end that its download meets, and after a download
      that succeeded the listing taken then, if any. */
  ghost function EventsOf(turns: nat -> Turn, names: seq<string>, max: nat, n: nat): seq<Event>
    requires n <= |names|
  {
    if n == 0 then []
    else
      var t := turns(n - 1);
      var how := match t.ending case Fetched => Success case Broken => Failure(max) case _ => Cancelled;
      EventsOf(turns, names, max, n - 1) + [Pick(names[n - 1], t.scope, t.gate), End(names[n - 1], how)]
      + (if t.ending.Fetched? && t.relisting.Some?
         then [Relist(ByName(t.relisting.value.recordings), t.relisting.value.present, t.relisting.value.now)] else [])
  }

  lemma {:induction false} EventsOfPrefix(turns: nat -> Turn, names: seq<string>, more: seq<string>, max: nat, n: nat)
    requires n <= |names|
    ensures EventsOf(turns, names + more, max, n) == EventsOf(turns, names, max, n)
  {
    if n > 0 { EventsOfPrefix(turns, names, more, max, n - 1); }
  }

  /** One more turn. */
  lemma EventsGoOn(turns: nat -> Turn, names: seq<string>, f: string, max: nat)
    ensures var n, t := |names|, turns(|names|);
            EventsOf(turns, names + [f], max, n + 1)
            == EventsOf(turns, names, max, n) + [Pick(f, t.scope, t.gate), End(f, OutcomeOf(t.ending, max))]
               + if t.ending.Fetched? && t.relisting.Some?
                 then [Relist(ByName(t.relisting.value.recordings), t.relisting.value.present, t.relisting.value.now)]
                 else []
  {
    EventsOfPrefix(turns, names, [f], max, |names|);
  }

  /** Nothing stopped the drain before this turn, and the camera was there. */
  ghost predicate GoesOn(turns: nat -> Turn, n: nat) {
    forall i: nat :: i < n ==> !turns(i).stopped && !turns(i).paused && (i > 0 ==> turns(i).answers)
  }

  /** Why the drain ended after these turns, and what it reports. */
  ghost predicate EndedFor(turns: nat -> Turn, taken: nat, exit: Exit, didAny: bool) {
    && GoesOn(turns, taken)
    && (didAny <==> taken > if exit.DiskFull? then 1 else 0)
    && (forall i: nat :: i + 1 < taken ==> !turns(i).ending.VolumeFull?)
    && (exit.DiskFull? <==> taken > 0 && turns(taken - 1).ending.VolumeFull?)
    && (exit.Stopped? ==> turns(taken).stopped)
    && (exit.Paused? ==> !turns(taken).stopped && turns(taken).paused)
    && (exit.Drained? || exit.CameraGone? ==> !turns(taken).stopped && !turns(taken).paused)
    && (exit.CameraGone? ==> taken > 0 && !turns(taken).answers)
  }

  ghost predicate LastedFor(turns: nat -> Turn, taken: nat, exit: Exit) {
    match exit
    case DiskFull => taken > 0 && turns(taken - 1).ending.VolumeFull?
    case Stopped => turns(taken).stopped
    case Paused => !turns(taken).stopped && turns(taken).paused
    case Drained => !turns(taken).stopped && !turns(taken).paused
    case CameraGone => !turns(taken).stopped && !turns(taken).paused && taken > 0 && !turns(taken).answers
  }

  lemma EndsFor(turns: nat -> Turn, taken: nat, exit: Exit, didAny: bool)
    requires GoesOn(turns, taken) && LastedFor(turns, taken, exit)
    requires didAny <==> taken > if exit.DiskFull? then 1 else 0
    requires forall i: nat :: i < (if exit.DiskFull? then taken - 1 else taken) ==> !turns(i).ending.VolumeFull?
    ensures EndedFor(turns, taken, exit, didAny)
  {
    hide GoesOn;
  }

  lemma GoesFurther(turns: nat -> Turn, n: nat)
    requires GoesOn(turns, n) && !turns(n).stopped && !turns(n).paused && (n > 0 ==> turns(n).answers)
    ensures GoesOn(turns, n + 1)
  {
  }

  /** A run ends in this world. */
  ghost predicate Reaches(ws: seq<World>, es: seq<Event>, first: Rows, last: Rows) {
    IsRun(ws, es) && ws[0] == World(first, None) && ws[|es|] == World(last, None)
  }

  lemma PickAndEnd(ws: seq<World>, es: seq<Event>, first: Rows, rows: Rows, f: string,
                   scope: Scope, gate: bool, how: Outcome)
    returns (vs: seq<World>, ds: seq<Event>)
    requires Reaches(ws, es, first, rows) && IsNext(rows, f, scope, gate, true)
    ensures Reaches(vs, ds, first, After(After(rows, Pick(f, scope, gate)), End(f, how)))
    ensures ds == es + [Pick(f, scope, gate), End(f, how)]
  {
    hide After, IsNext, IsRun;
    var e, d := Pick(f, scope, gate), End(f, how);
    var v := Next(World(rows, None), e);
    RunGoesOn(ws, es, e);
    vs, ds := ws + [v], es + [e];
    RunShape(ws, es);
    RunGoesOn(vs, ds, d);
    vs, ds := vs + [Next(v, d)], ds + [d];
  }

  lemma RunShape(ws: seq<World>, es: seq<Event>)
    requires IsRun(ws, es)
    ensures |ws| == |es| + 1
  {
  }

  lemma RelistGoesOn(ws: seq<World>, es: seq<Event>, first: Rows, rows: Rows, e: Event)
    returns (vs: seq<World>, ds: seq<Event>)
    requires Reaches(ws, es, first, rows) && e.Relist?
    ensures Reaches(vs, ds, first, After(rows, e)) && ds == es + [e]
  {
    hide After, IsRun;
    RunShape(ws, es);
    RunGoesOn(ws, es, e);
    vs, ds := ws + [Next(World(rows, None), e)], es + [e];
  }

  lemma ExtrasAdd(turns: nat -> Turn, max: nat, n: nat)
    ensures Extras(turns, max, n + 1) == Extras(turns, max, n) + Extra(turns(n), max)
  {
  }

  ghost function ListingOf(r: Relisting): Event { Relist(ByName(r.recordings), r.present, r.now) }

  /** The table after a turn that picks this clip. */
  ghost function TurnRows(rows: Rows, f: string, t: Turn, max: nat): Rows {
    var mid := After(After(rows, Pick(f, t.scope, t.gate)), End(f, OutcomeOf(t.ending, max)));
    if t.ending.Fetched? && t.relisting.Some? then After(mid, ListingOf(t.relisting.value)) else mid
  }

  /** A turn prolongs the run, and pays for its pick. */
  lemma TurnGoesOn(turns: nat -> Turn, names: seq<string>, max: nat, ws: seq<World>, es: seq<Event>,
                   first: Rows, rows: Rows, f: string)
    returns (vs: seq<World>, ds: seq<Event>)
    requires max > 0 && Reaches(ws, es, first, rows) && es == EventsOf(turns, names, max, |names|)
    requires var t := turns(|names|); IsNext(rows, f, t.scope, t.gate, true)
    ensures var t := turns(|names|);
            && Reaches(vs, ds, first, TurnRows(rows, f, t, max))
            && Debt(TurnRows(rows, f, t, max), max) + 1 <= Debt(rows, max) + Extra(t, max)
    ensures ds == EventsOf(turns, names + [f], max, |names| + 1)
  {
    hide After, Reaches, Debt, Budgets, IsNext, EventsOf;
    var t := turns(|names|);
    var how := OutcomeOf(t.ending, max);
    vs, ds := PickAndEnd(ws, es, first, rows, f, t.scope, t.gate, how);
    PickedIsPending(rows, f, t.scope, t.gate);
    PickPays(rows, f, t.scope, t.gate, how, max);
    EventsGoOn(turns, names, f, max);
    var mid := After(After(rows, Pick(f, t.scope, t.gate)), End(f, how));
    if t.ending.Fetched? && t.relisting.Some? {
      var e := ListingOf(t.relisting.value);
      ListingOwes(mid, e.listing, e.present, e.now, max);
      vs, ds := RelistGoesOn(vs, ds, first, mid, e);
    }
  }

  lemma RoundIsOneRow(rows: Rows, f: string, scope: Scope, gate: bool, ending: Ending, max: nat)
    ensures var next := After(After(rows, Pick(f, scope, gate)), End(f, OutcomeOf(ending, max)));
            if f in rows then next == rows[f := rows[f].Started().Ended(OutcomeOf(ending, max))] else next == rows
  {
    if f in rows { Round(rows, f, scope, gate, OutcomeOf(ending, max)); }
  }

  class SyncWorker {
    const queue: Queue
    var currentFilename: Option<string>
    var active: bool

    constructor (queue: Queue)
      ensures this.queue == queue && currentFilename == None && active
    {
      this.queue, currentFilename, active := queue, None, true;
    }

    /** One download, from the pick to the row's new state. */
    method DownloadOne(f: string, ending: Ending, max: nat, ghost scope: Scope, ghost gate: bool)
      returns (ok: bool, full: bool)
      modifies queue
      ensures queue.rows == After(After(old(queue.rows), Pick(f, scope, gate)), End(f, OutcomeOf(ending, max)))
      ensures f in old(queue.rows) ==>
                f in queue.rows &&
                var r, s := old(queue.rows)[f], queue.rows[f];
                match ending
                case Fetched => s == r.(state := Done, attempts := r.attempts + 1)
                case Broken =>
                  s == r.(state := if r.attempts + 1 < max then Pending else Failed, attempts := r.attempts + 1)
                case Interrupted => s == r.(state := Pending)
                case VolumeFull => s == r.(state := Pending)
      ensures forall g :: g in old(queue.rows) && g != f ==> g in queue.rows && queue.rows[g] == old(queue.rows)[g]
      ensures (ok <==> ending.Fetched?) && (full <==> ending.VolumeFull?)
    {
      RoundIsOneRow(queue.rows, f, scope, gate, ending, max);
      queue.MarkDownloading(f, scope, gate);
      ok, full := false, false;
      match ending {
        case VolumeFull =>
          queue.MarkCancelled(f);
          full := true;
        case Interrupted =>
          queue.MarkCancelled(f);
        case Fetched =>
          queue.MarkDone(f);
          ok := true;
        case Broken =>
          var state := queue.MarkTransientFailure(f, max);
      }
    }

    /** The drain. Its steps are a run of the queue, turn by turn; its picks are paid by the debt it began
        with and what the turns add, so it ends when they add only so much: without cancelled downloads
        and new listings it picks no more than the attempts left. When it ends because nothing is
        left, no row is eligible. */
    method Drain(turns: nat -> Turn, max: nat, ghost bound: nat)
      returns (didAny: bool, exit: Exit, taken: nat,
        ghost ws: seq<World>, ghost es: seq<Event>, ghost names: seq<string>)
      requires max > 0 && forall n: nat :: Extras(turns, max, n) <= bound
      modifies this`currentFilename, this`active, queue
      ensures Reaches(ws, es, old(queue.rows), queue.rows)
      ensures |names| == taken && es == EventsOf(turns, names, max, taken)
      ensures EndedFor(turns, taken, exit, didAny) && (active <==> old(active) && !exit.CameraGone?)
      ensures exit.Drained? ==> forall f :: f in queue.rows ==>
                !Eligible(queue.rows, f, turns(taken).scope, turns(taken).gate, true)
      ensures Debt(queue.rows, max) + taken <= Debt(old(queue.rows), max) + Extras(turns, max, taken)
      ensures AreQuiet(turns, taken) ==> taken <= Debt(old(queue.rows), max)
      ensures AreQuiet(turns, taken) && AllWithinBudget(World(old(queue.rows), None), max) ==>
                taken <= AttemptsLeft(old(queue.rows), max)
      ensures old(currentFilename) == None ==> currentFilename == None
    {
      hide AllWithinBudget, AttemptsLeft, AreQuiet, After, Reaches, Debt, Extras, Extra, Budgets, Eligible, IsNext;
      hide GoesOn, EndedFor, EventsOf;
      didAny, exit, taken := false, Stopped, 0;
      ws, es, names := [World(queue.rows, None)], [], [];
      DrainStarts(queue.rows, turns, max);
      while !turns(taken).stopped
        invariant Reaches(ws, es, old(queue.rows), queue.rows)
        invariant |names| == taken && es == EventsOf(turns, names, max, taken)
        invariant Debt(queue.rows, max) + taken <= Debt(old(queue.rows), max) + Extras(turns, max, taken)
        invariant exit == Stopped && (old(currentFilename) == None ==> currentFilename == None)
        invariant GoesOn(turns, taken) && (didAny <==> taken > 0) && active == old(active)
        invariant forall i: nat :: i < taken ==> !turns(i).ending.VolumeFull?
        decreases Debt(old(queue.rows), max) + bound - taken
      {
        var t := turns(taken);
        if t.paused {
          exit := Paused;
          break;
        }
        var item := queue.NextPending(t.scope, t.gate, true);
        if item.None? {
          exit := Drained;
          break;
        }
        if didAny && !t.answers {
          active := false;
          exit := CameraGone;
          break;
        }
        currentFilename := item;
        ws, es := TurnGoesOn(turns, names, max, ws, es, old(queue.rows), queue.rows, item.value);
        ExtrasAdd(turns, max, taken);
        GoesFurther(turns, taken);
        names := names + [item.value];
        taken := taken + 1;
        var ok, full := DownloadOne(item.value, t.ending, max, t.scope, t.gate);
        currentFilename := None;
        if full {
          exit := DiskFull;
          break;
        }
        didAny := true;
        if !ok {
          continue;
        }
        if t.relisting.Some? {
          queue.Reconcile(t.relisting.value.recordings, t.relisting.value.present, t.relisting.value.now);
        }
      }
      QuietDrain(old(queue.rows), turns, max, taken);
      EndsFor(turns, taken, exit, didAny);
    }
  }

  lemma QuietDrain(rows: Rows, turns: nat -> Turn, max: nat, n: nat)
    ensures AreQuiet(turns, n) ==> Extras(turns, max, n) == 0
    ensures AllWithinBudget(World(rows, None), max) ==> Debt(rows, max) == AttemptsLeft(rows, max)
  {
    if AreQuiet(turns, n) { QuietTurnsAddNothing(turns, max, n); }
    if AllWithinBudget(World(rows, None), max) { DebtIsAttemptsLeft(rows, max); }
  }

  lemma DrainStarts(rows: Rows, turns: nat -> Turn, max: nat)
    ensures Reaches([World(rows, None)], [], rows, rows)
    ensures Extras(turns, max, 0) == 0 && EventsOf(turns, [], max, 0) == [] && GoesOn(turns, 0)
  {
  }

  /** Without cancelled downloads and new listings nothing is added to the work. */
  lemma {:induction false} QuietTurnsAddNothing(turns: nat -> Turn, max: nat, n: nat)
    requires AreQuiet(turns, n)
    ensures Extras(turns, max, n) == 0
  {
    if n > 0 { QuietTurnsAddNothing(turns, max, n - 1); }
  }
}
