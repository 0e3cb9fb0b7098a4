/** When a disk-pressure pass stops with the tree still over its quota: exactly, for every pass. */
module ShortStops {
  import opened Basics
  import opened Retention

  /** The pass stops at this moment, with candidates left and the tree not below its quota. */
  ghost predicate StopsShort(x: Pass, k: nat)
    requires x.Filed()
  {
    k < |x.cand| && x.StopsAt(k) && x.disk.Tree(x.trace[k].files) >= x.Quota()
  }

  // ---- Over the moments of a pass ----

  /** Bytes go, credit adds up, and a percentage once met stays met. What leaves the tree between two
      moments is at least the credit earned inside it. */
  lemma {:induction false} Onwards(x: Pass, j: nat, k: nat)
    requires x.Filed() && j <= k <= |x.cand|
    ensures var a, b := x.trace[j], x.trace[k];
            && x.disk.Tree(b.files) <= x.disk.Tree(a.files) && Total(b.files, false) <= Total(a.files, false)
            && a.freed <= b.freed && a.deleted <= b.deleted
            && x.disk.Tree(b.files) + (b.freed - a.freed) <= x.disk.Tree(a.files) + (b.outside - a.outside)
            && (x.PctOverAt(k) ==> x.PctOverAt(j))
    decreases k
  {
    hide Pass.Filed, Total;
    FiledTrace(x);
    if j < k {
      Onwards(x, j, k - 1);
      TraceNext(x, k - 1);
      var id := x.cand[k - 1].id;
      var m := x.files[id];
      TotalUpdate(x.trace[k - 1].files, true, id, m.Attempted());
      TotalUpdate(x.trace[k - 1].files, false, id, m.Attempted());
    }
  }

  lemma OneMore(x: Pass, j: nat)
    requires x.Filed() && j < |x.cand|
    ensures |x.trace| == |x.cand| + 1 && AllFiled(x.cand, x.files)
    ensures x.trace[j + 1].deleted == x.trace[j].deleted + (if x.Goes(j) then 1 else 0)
    ensures x.trace[j].freed <= x.trace[j + 1].freed
    ensures !x.Goes(j) ==> x.trace[j].freed == x.trace[j + 1].freed
  {
    TraceNext(x, j);
  }

  // ---- Where the cached total comes from ----

  /** The entry, or the walk made at a moment; the time it was walked; and how often the clock has
      been read by then. The figure itself plays no part in it. */
  datatype Source = Source(walk: Option<nat>, at: Option<int>, looks: nat)

  ghost function Entry(x: Pass): Source {
    Source(None, if x.books.cache.Some? then Some(x.books.cache.value.at) else None, x.books.looks)
  }

  ghost predicate IsYoung(x: Pass, at: Option<int>, look: nat) {
    at.Some? && x.times(look) - at.value < SIZE_CACHE_TTL
  }

  /** The source after a check at moment k. */
  ghost function Look(x: Pass, s: Source, k: nat, refresh: bool): Source
    requires k < |x.trace|
  {
    if x.PctOverAt(k) || x.quotaGb <= 0 then s
    else if !refresh && IsYoung(x, s.at, s.looks) then s.(looks := s.looks + 1)
    else Source(Some(k), Some(x.times(s.looks)), s.looks + 1)
  }

  /** After the check that follows a deletion. */
  ghost function InnerSource(x: Pass, k: nat): Source
    requires x.Filed() && k <= |x.cand|
    decreases k, 0
  {
    if k == 0 then Entry(x)
    else if x.Goes(k - 1) then Look(x, SourceAt(x, k - 1), k, false)
    else SourceAt(x, k - 1)
  }

  /** After all checks of a moment. */
  ghost function SourceAt(x: Pass, k: nat): Source
    requires x.Filed() && k <= |x.cand|
    decreases k, 1
  {
    if x.Top(k) then Look(x, InnerSource(x, k), k, true) else InnerSource(x, k)
  }

  /** The entry figure less all credit since. */
  ghost function EntryFigure(x: Pass, k: nat): nat
    requires k < |x.trace|
  {
    if x.books.cache.Some? then Max0(x.books.cache.value.used - x.trace[k].freed) else 0
  }

  /** The figure of the source at a moment: what was known there, less the credit since. */
  ghost function Figure(x: Pass, s: Source, k: nat): nat
    requires k < |x.trace| && (s.walk.Some? ==> s.walk.value < |x.trace|)
  {
    match s.walk
    case None => EntryFigure(x, k)
    case Some(w) => Max0(x.disk.Tree(x.trace[w].files) - (x.trace[k].freed - x.trace[w].freed))
  }

  ghost function BooksFrom(x: Pass, s: Source, k: nat): Books
    requires k < |x.trace| && (s.walk.Some? ==> s.walk.value < |x.trace|)
  {
    Books(if s.at.Some? then Some(Cached(s.at.value, Figure(x, s, k))) else None, s.looks)
  }

  ghost predicate IsSource(x: Pass, s: Source, k: nat) {
    if s.walk.Some? then s.walk.value <= k && s.at.Some? else s.at == Entry(x).at
  }

  lemma LookingTells(x: Pass, s: Source, k: nat, refresh: bool)
    requires k < |x.trace| && IsSource(x, s, k)
    ensures var t := Look(x, s, k, refresh);
            IsSource(x, t, k) && x.Consulted(BooksFrom(x, s, k), x.trace[k].files, refresh) == BooksFrom(x, t, k)
    ensures !x.PctOverAt(k) && x.quotaGb > 0 ==> Look(x, s, k, refresh).at.Some?
  {
  }

  lemma AttemptingTells(x: Pass, s: Source, j: nat)
    requires x.Filed() && j < |x.cand| && IsSource(x, s, j)
    ensures IsSource(x, s, j + 1)
    ensures var b, credit := BooksFrom(x, s, j), x.files[x.cand[j].id].Credit();
            b.(cache := Subtract(b.cache, credit)) == BooksFrom(x, s, j + 1)
    ensures !x.Goes(j) ==> BooksFrom(x, s, j) == BooksFrom(x, s, j + 1)
  {
    FiledTrace(x);
    hide Pass.Filed;
    TraceNext(x, j);
  }

  /** The bookkept total of every moment is the figure of its source. */
  lemma {:induction false} BooksAreFigures(x: Pass, k: nat)
    requires x.Filed() && k <= |x.cand|
    ensures var s := InnerSource(x, k); IsSource(x, s, k) && x.InnerBooks(k) == BooksFrom(x, s, k)
    ensures var s := SourceAt(x, k); IsSource(x, s, k) && x.BooksAt(k) == BooksFrom(x, s, k)
  {
    hide Pass.Filed, Pass.Consulted, Look, IsSource, BooksFrom, Subtract;
    FiledTrace(x);
    if k == 0 {
      FirstBooks(x);
      EntryTells(x);
    } else {
      BooksAreFigures(x, k - 1);
      BooksStep(x, k);
      AttemptingTells(x, SourceAt(x, k - 1), k - 1);
      if x.Goes(k - 1) { LookingTells(x, SourceAt(x, k - 1), k, false); }
    }
    LookingTells(x, InnerSource(x, k), k, true);
  }

  lemma EntryTells(x: Pass)
    requires x.Filed()
    ensures |x.trace| > 0 && IsSource(x, Entry(x), 0) && BooksFrom(x, Entry(x), 0) == x.books
  {
    StandsFirst(x);
  }

  // ---- Exactly when a pass stops short ----

  /** The figure the check after a deletion goes by. Its walk is never a later one. */
  ghost function FigureAt(x: Pass, k: nat): nat
    requires x.Filed() && k <= |x.cand|
  {
    var s := InnerSource(x, k);
    if s.walk.Some? && s.walk.value > k then 0 else Figure(x, s, k)
  }

  lemma InnerCheck(x: Pass, k: nat)
    requires x.Filed() && 0 < k <= |x.cand| && x.quotaGb > 0
    ensures |x.trace| == |x.cand| + 1 && AllFiled(x.cand, x.files)
    ensures x.InnerOver(k) <==> (x.Goes(k - 1) ==> x.PctOverAt(k) || FigureAt(x, k) >= x.Quota())
  {
    hide Pass.Filed, Pass.Consulted, Look, Figure;
    FiledTrace(x);
    BooksAreFigures(x, k);
    BooksAreFigures(x, k - 1);
    LookingTells(x, SourceAt(x, k - 1), k, false) by { AttemptingTells(x, SourceAt(x, k - 1), k - 1); }
  }

  lemma TopCheck(x: Pass, k: nat)
    requires x.Filed() && k <= |x.cand| && x.Top(k) && x.quotaGb > 0
    ensures |x.trace| == |x.cand| + 1
    ensures x.SaysOver(x.BooksAt(k), x.trace[k].files)
            <==> x.PctOverAt(k) || x.disk.Tree(x.trace[k].files) >= x.Quota()
  {
    hide Pass.InnerBooks;
    if k > 0 { BooksStep(x, k); } else { FirstBooks(x); }
  }

  /** Main result, for every pass: it stops short at a moment if and only if the deletion before has
      left the percentage met, the figure known by then is below the quota although the tree is not,
      and at each earlier deletion that left the percentage met the figure was not below. */
  lemma StopsShortIff(x: Pass, k: nat)
    requires x.Filed() && k < |x.cand| && x.quotaGb > 0
    ensures |x.trace| == |x.cand| + 1 && AllFiled(x.cand, x.files)
    ensures StopsShort(x, k)
            <==> && 0 < k && x.Goes(k - 1) && !x.PctOverAt(k)
                 && FigureAt(x, k) < x.Quota() <= x.disk.Tree(x.trace[k].files)
                 && forall j :: 0 < j < k && x.Goes(j - 1) && !x.PctOverAt(j) ==> FigureAt(x, j) >= x.Quota()
  {
    hide Pass.Filed, Pass.BooksAt, Pass.InnerOver, Pass.SaysOver, FigureAt;
    FiledTrace(x);
    forall j | 0 < j <= k
      ensures x.InnerOver(j) <==> (x.Goes(j - 1) ==> x.PctOverAt(j) || FigureAt(x, j) >= x.Quota())
    {
      InnerCheck(x, j);
    }
    FirstMoment(x);
    if x.disk.Tree(x.trace[k].files) >= x.Quota() {
      forall j | 0 <= j <= k ensures x.OverAt(j) <==> x.InnerOver(j) {
        Onwards(x, j, k);
        if x.Top(j) { TopCheck(x, j); }
      }
    }
  }

  lemma FirstMoment(x: Pass)
    requires x.Filed()
    ensures x.InnerOver(0)
  {
  }

  // ---- When the entry figure is the one used ----

  /** The percentage is met from this moment on. */
  ghost predicate MetAt(x: Pass, m: nat)
    requires m < |x.trace|
  {
    !x.PctOverAt(m) && forall j :: 0 <= j < m ==> x.PctOverAt(j)
  }

  /** Between the percentage being met at m and the check at k nothing is walked: no batch begins,
      and the entry figure is young whenever the clock is read, once for each deletion. */
  ghost predicate NoWalk(x: Pass, m: nat, k: nat)
    requires x.Filed() && m <= k <= |x.cand|
  {
    && 0 < m && (forall j :: m <= j < k ==> !x.Top(j))
    && forall l: nat :: x.books.looks <= l < x.books.looks + x.trace[k].deleted - x.trace[m - 1].deleted ==>
         IsYoung(x, Entry(x).at, l)
  }

  lemma {:induction false} EntryIsKept(x: Pass, m: nat, k: nat)
    requires x.Filed() && k < m <= |x.cand|
    requires |x.trace| == |x.cand| + 1 && MetAt(x, m)
    ensures InnerSource(x, k) == SourceAt(x, k) == Entry(x)
  {
    assert x.PctOverAt(k);
    if k > 0 { EntryIsKept(x, m, k - 1); }
  }

  /** The entry figure is in use exactly when nothing was walked. */
  lemma {:induction false} EntryIsUsedIff(x: Pass, m: nat, k: nat)
    requires x.Filed() && x.quotaGb > 0 && m <= k <= |x.cand| && 0 < k
    requires |x.trace| == |x.cand| + 1 && MetAt(x, m)
    ensures InnerSource(x, k).walk.None? <==> NoWalk(x, m, k)
    ensures NoWalk(x, m, k) ==>
              var s := InnerSource(x, k);
              s.at == Entry(x).at && s.looks == x.books.looks + x.trace[k].deleted - x.trace[m - 1].deleted
    decreases k
  {
    hide Pass.Filed, Pass.PctOverAt, IsYoung, NoWalk, MetAt;
    PctStaysMet(x, m, k);
    OneMore(x, k - 1);
    if m == k {
      EntryIsKept(x, m, k - 1);
      NoWalkStarts(x, k);
    } else {
      PctStaysMet(x, m, k - 1);
      NoWalkGoesOn(x, m, k);
      if k > 1 { EntryIsUsedIff(x, m, k - 1); } else { assert x.Top(0); }
    }
  }

  lemma NoWalkStarts(x: Pass, m: nat)
    requires x.Filed() && 0 < m <= |x.cand|
    ensures NoWalk(x, m, m) <==> (x.Goes(m - 1) ==> IsYoung(x, Entry(x).at, x.books.looks))
  {
    hide Pass.Filed, IsYoung;
    OneMore(x, m - 1);
  }

  lemma NoWalkGoesOn(x: Pass, m: nat, k: nat)
    requires x.Filed() && m < k <= |x.cand|
    ensures |x.trace| == |x.cand| + 1 && AllFiled(x.cand, x.files)
    ensures 0 < m ==> x.trace[m - 1].deleted <= x.trace[k - 1].deleted
    ensures NoWalk(x, m, k)
            <==> && NoWalk(x, m, k - 1) && !x.Top(k - 1)
                 && (x.Goes(k - 1) ==>
                       IsYoung(x, Entry(x).at, x.books.looks + (x.trace[k - 1].deleted - x.trace[m - 1].deleted)))
  {
    hide Pass.Filed, IsYoung;
    OneMore(x, k - 1);
    if 0 < m { Onwards(x, m - 1, k - 1); }
  }

  lemma PctStaysMet(x: Pass, m: nat, k: nat)
    requires x.Filed() && m <= k <= |x.cand|
    requires |x.trace| == |x.cand| + 1 && MetAt(x, m)
    ensures !x.PctOverAt(k)
  {
    Onwards(x, m, k);
  }

  /** A figure walked during the pass is behind the tree by no more than the credit from outside. */
  lemma WalkedIsBehindByCredit(x: Pass, k: nat)
    requires x.Filed() && k <= |x.cand| && InnerSource(x, k).walk.Some?
    ensures |x.trace| == |x.cand| + 1
    ensures FigureAt(x, k) + x.trace[k].outside >= x.disk.Tree(x.trace[k].files)
  {
    hide Pass.Filed, InnerSource;
    FiledTrace(x);
    BooksAreFigures(x, k);
    Onwards(x, InnerSource(x, k).walk.value, k);
  }

  /** The entry figure, less the credit, is below the quota at k for the first time since the
      percentage was met at m, and the tree is not. */
  ghost predicate IsStale(x: Pass, m: nat, k: nat)
    requires x.Filed() && 0 < k <= |x.cand| && m <= k
  {
    && MetAt(x, m) && NoWalk(x, m, k) && x.Goes(k - 1)
    && EntryFigure(x, k) < x.Quota() <= x.disk.Tree(x.trace[k].files)
    && forall j :: m <= j < k && x.Goes(j - 1) ==> EntryFigure(x, j) >= x.Quota()
  }

  lemma FigureIsEntrys(x: Pass, m: nat, j: nat, k: nat)
    requires x.Filed() && x.quotaGb > 0 && m <= j <= k <= |x.cand| && 0 < j
    requires |x.trace| == |x.cand| + 1 && MetAt(x, m) && NoWalk(x, m, k)
    ensures FigureAt(x, j) == EntryFigure(x, j)
  {
    hide Pass.Filed, MetAt, InnerSource, IsYoung;
    Onwards(x, j, k);
    assert NoWalk(x, m, j);
    EntryIsUsedIff(x, m, j);
  }

  /** The condition told by the entry, for a pass that is met at m: without credit from outside the
      tree, or as long as nothing was walked, a stop is short exactly when the entry figure is stale. */
  lemma StaleTotalStopsShortIff(x: Pass, m: nat, k: nat)
    requires x.Filed() && x.quotaGb > 0 && m <= k < |x.cand| && 0 < k
    requires |x.trace| == |x.cand| + 1 && MetAt(x, m)
    requires NoWalk(x, m, k) || x.trace[k].outside == 0
    ensures StopsShort(x, k) <==> IsStale(x, m, k)
  {
    hide Pass.Filed, InnerSource, StopsShort, FigureAt, EntryFigure, NoWalk;
    StopsShortIff(x, k);
    EntryIsUsedIff(x, m, k);
    if NoWalk(x, m, k) {
      PctStaysMet(x, m, k);
      forall j | m <= j <= k && 0 < j ensures FigureAt(x, j) == EntryFigure(x, j) && !x.PctOverAt(j) {
        FigureIsEntrys(x, m, j, k);
        PctStaysMet(x, m, j);
      }
      assert 0 < m by { NoWalkBegins(x, m, k); }
    } else {
      WalkedIsBehindByCredit(x, k);
    }
  }

  lemma NoWalkBegins(x: Pass, m: nat, k: nat)
    requires x.Filed() && m <= k <= |x.cand| && NoWalk(x, m, k)
    ensures 0 < m
  {
  }

  /** Without credit from outside the tree this tells every short stop. */
  lemma EveryShortStopIsStale(x: Pass, k: nat)
    requires x.Filed() && x.quotaGb > 0 && 0 < k < |x.cand|
    requires |x.trace| == |x.cand| + 1 && x.trace[k].outside == 0
    ensures StopsShort(x, k) <==> exists m :: 0 <= m <= k && IsStale(x, m, k)
  {
    hide Pass.Filed, Pass.PctOverAt, NoWalk, EntryFigure, StopsShort, FigureAt;
    StopsShortIff(x, k);
    if !x.PctOverAt(k) {
      var m := FirstMet(x, k);
      StaleTotalStopsShortIff(x, m, k);
    } else {
      forall m | 0 <= m <= k && MetAt(x, m) ensures false { PctStaysMet(x, m, k); }
    }
  }

  lemma {:induction false} FirstMet(x: Pass, k: nat) returns (m: nat)
    requires k < |x.trace| && !x.PctOverAt(k)
    ensures m <= k && MetAt(x, m)
  {
    m := k;
    if j: nat :| j < k && !x.PctOverAt(j) { m := FirstMet(x, j); }
  }

  // ---- In figures of the entry alone ----

  /** Files whose every attempt is counted in full: in the tree, of known size, without sidecars. */
  ghost predicate CountedInFull(m: Media) { m.counted && m.side == 0 && m.statOk }

  lemma {:induction false} FreedIsGone(media: Files, rows: seq<Clip>)
    requires AllFiled(rows, media) && DistinctIds(rows)
    requires forall i :: 0 <= i < |rows| ==> CountedInFull(media[rows[i].id])
    ensures Total(FilesAfter(media, rows), true) + Credited(media, rows) == Total(media, true)
    ensures OutsideCredit(media, rows) == 0
  {
    if rows != [] {
      var n := |rows| - 1;
      var id := rows[n].id;
      FreedIsGone(media, rows[..n]);
      Untouched(media, rows[..n], id);
      TotalUpdate(FilesAfter(media, rows[..n]), true, id, media[id].Attempted());
    }
  }

  /** The credit at the last check before k bounds that of all checks since m. */
  lemma {:induction false} LastCheck(x: Pass, m: nat, k: nat, bound: int)
    requires x.Filed() && 0 < m <= k <= |x.cand|
    ensures |x.trace| == |x.cand| + 1 && AllFiled(x.cand, x.files)
    ensures (forall j :: m <= j < k && x.Goes(j - 1) ==> x.trace[j].freed <= bound)
            <==> (x.trace[k - 1].deleted > x.trace[m - 1].deleted ==> x.trace[k - 1].freed <= bound)
  {
    hide Pass.Filed, Pass.Goes;
    FiledTrace(x);
    if m < k {
      LastCheck(x, m, k - 1, bound);
      Onwards(x, m - 1, k - 2);
      OneMore(x, k - 2);
    }
  }

  lemma QuotaIsPositive(x: Pass)
    requires x.quotaGb > 0
    ensures x.Quota() > 0
  {
  }

  lemma UsedIsThere(x: Pass, m: nat, k: nat)
    requires x.Filed() && m <= k <= |x.cand| && 0 < k && NoWalk(x, m, k) && x.Goes(k - 1)
    ensures x.books.cache.Some?
  {
    hide Pass.Filed;
    Onwards(x, m - 1, k - 1);
    OneMore(x, k - 1);
    assert IsYoung(x, Entry(x).at, x.books.looks);
  }

  /** Where all recordings tried are counted in full, in figures known before the pass: it stops short
      exactly when nothing was walked since the percentage was met and the entry figure passes the
      quota with the last deletion, not before, though the tree does not. */
  lemma StaleTotalStopsShortIffBehind(x: Pass, m: nat, k: nat)
    requires x.Filed() && x.quotaGb > 0 && m <= k < |x.cand| && 0 < k
    requires |x.trace| == |x.cand| + 1 && MetAt(x, m)
    requires forall i :: 0 <= i < k ==> CountedInFull(x.files[x.cand[i].id])
    ensures StopsShort(x, k)
            <==> && NoWalk(x, m, k) && x.Goes(k - 1) && x.books.cache.Some?
                 && (x.trace[k - 1].deleted > x.trace[m - 1].deleted ==>
                       x.Quota() + x.trace[k - 1].freed <= x.books.cache.value.used)
                 && x.books.cache.value.used < x.Quota() + x.trace[k].freed <= x.disk.Tree(x.files)
  {
    assert x.Linked(k);
    hide Pass.Filed, StopsShort, NoWalk, MetAt;
    FreedIsGone(x.files, x.cand[..k]);
    StaleTotalStopsShortIff(x, m, k);
    assert x.disk.Tree(x.trace[k].files) + x.trace[k].freed == x.disk.Tree(x.files);
    if NoWalk(x, m, k) && x.Goes(k - 1) {
      NoWalkBegins(x, m, k);
      UsedIsThere(x, m, k);
      var used := x.books.cache.value.used;
      LastCheck(x, m, k, used - x.Quota());
      forall j | m <= j < k ensures EntryFigure(x, j) >= x.Quota() <==> x.trace[j].freed <= used - x.Quota() {
        QuotaIsPositive(x);
      }
    }
  }

  // ---- The inputs ----

  lemma TotalEmpty(treeOnly: bool)
    ensures Total(map[], treeOnly) == 0
  {
  }

  lemma TotalOfTwo(a: Media, b: Media, treeOnly: bool)
    ensures Total(map[1 := a, 2 := b], treeOnly) == Weight(a, treeOnly) + Weight(b, treeOnly)
  {
    var files := map[1 := a, 2 := b];
    TotalSplit(files, treeOnly, 1);
    TotalSplit(files - {1}, treeOnly, 2);
    assert files - {1} - {2} == map[];
    TotalEmpty(treeOnly);
  }

  const OLD_RECORDING := Media(true, GIB, true, true, 0, true)
  const NEW_RECORDING := Media(true, 2 * GIB, true, true, 0, true)

  const TWO_CLIPS := [Clip(1, 10, false, false), Clip(2, 20, false, false)]
  const TWO_FILES: Files := map[1 := OLD_RECORDING, 2 := NEW_RECORDING]

  /** A volume of 8 GiB, 1 GiB of it used by others. */
  const SMALL_DISK := Disk(Some(Volume(8 * GIB, GIB)), 0)

  /** The cached total is 30 seconds old and says 1 GiB; 3 GiB are there. */
  ghost function StalePass(): Pass {
    PassOver(SMALL_DISK, HALF_A_MINUTE, TWO_CLIPS, TWO_FILES, Books(Some(Cached(0, GIB)), 0), TWO_CLIPS, 50, 1)
  }

  lemma TwoCandidates()
    ensures Where(TWO_CLIPS, None, false, {}) == TWO_CLIPS
  {
    assert TWO_CLIPS[..1] == [TWO_CLIPS[0]] && TWO_CLIPS[..1][..0] == [];
    assert Where(TWO_CLIPS[..1], None, false, {}) == [TWO_CLIPS[0]];
  }

  const HALF_A_MINUTE: nat -> int := _ => 30

  lemma PassIsFiled(disk: Disk, times: nat -> int, index: seq<Clip>, files: Files, books: Books,
                    cand: seq<Clip>, pct: int, quotaGb: int)
    requires AllFiled(cand, files) && DistinctIds(cand)
    ensures PassOver(disk, times, index, files, books, cand, pct, quotaGb).Filed()
  {
  }

  /** The first two moments of a pass over two clips. */
  lemma FirstOfTwo(x: Pass, a: Media, b: Media)
    requires x.Filed() && x.cand == TWO_CLIPS && x.files == map[1 := a, 2 := b]
    ensures |x.trace| == 3 && x.trace[0].files == x.files && x.trace[0].freed == 0 && x.trace[0].outside == 0
    ensures x.trace[1].files == map[1 := a.Attempted(), 2 := b] && x.trace[1].freed == a.Credit()
    ensures x.trace[1].outside == if a.counted then 0 else a.Credit()
  {
    FiledTrace(x);
    assert x.Linked(0);
    hide Pass.Filed;
    StandsFirst(x);
    TraceNext(x, 0);
    assert x.files[1 := a.Attempted()] == map[1 := a.Attempted(), 2 := b];
  }

  lemma StaleTotals()
    ensures var after := map[1 := OLD_RECORDING.Attempted(), 2 := NEW_RECORDING];
            && Total(TWO_FILES, true) == 3 * GIB && Total(TWO_FILES, false) == 3 * GIB
            && Total(after, true) == 2 * GIB && Total(after, false) == 2 * GIB
  {
    TotalOfTwo(OLD_RECORDING, NEW_RECORDING, true);
    TotalOfTwo(OLD_RECORDING, NEW_RECORDING, false);
    TotalOfTwo(OLD_RECORDING.Attempted(), NEW_RECORDING, true);
    TotalOfTwo(OLD_RECORDING.Attempted(), NEW_RECORDING, false);
  }

  lemma StaleFigures()
    ensures var x := StalePass();
            && x.Filed() && SMALL_DISK.Holds(TWO_FILES) && x.trace[0].files == TWO_FILES && x.trace[1].freed == GIB
            && x.trace[1].files == map[1 := OLD_RECORDING.Attempted(), 2 := NEW_RECORDING]
            && SMALL_DISK.Tree(TWO_FILES) == 3 * GIB && SMALL_DISK.Tree(x.trace[1].files) == 2 * GIB
            && x.PctOverAt(0) && !x.PctOverAt(1)
  {
    hide Total, Without, Pass.Filed;
    var x := StalePass();
    PassIsFiled(SMALL_DISK, HALF_A_MINUTE, TWO_CLIPS, TWO_FILES, x.books, TWO_CLIPS, 50, 1);
    FirstOfTwo(x, OLD_RECORDING, NEW_RECORDING);
    StaleTotals();
  }

  /** The first input: the percentage opens the pass and is met by the first deletion, the quota is
      1 GiB and the entry figure is 2 GiB behind. */
  lemma StaleTotalStopsShort()
    ensures var x := StalePass();
            x.Filed() && StopsShort(x, 1) && x.disk.Tree(x.trace[1].files) > x.Quota()
  {
    var x := StalePass();
    StaleFigures();
    OneMore(x, 0);
    hide Pass.Filed, Pass.InnerOver, Pass.StopsAt, Pass.BooksAt, Pass.InnerBooks, StopsShort;
    assert MetAt(x, 1);
    assert NoWalk(x, 1, 1);
    StaleTotalStopsShortIff(x, 1, 1);
  }

  /** The pass itself on that input: one clip goes, the tree stays at twice its quota, and a clip
      that could have gone is left. */
  method StaleRun() returns (a: Archive, deleted: nat)
    ensures fresh(a) && a.Valid() && deleted == 1
    ensures a.index == [TWO_CLIPS[1]] && a.disk.Tree(a.files) == 2 * GIB
  {
    StaleFigures();
    TwoCandidates();
    StaleTotalStopsShort();
    a := new Archive(TWO_CLIPS, TWO_FILES, Some(Cached(0, GIB)), SMALL_DISK, HALF_A_MINUTE);
    var bytes, protected, failed;
    ghost var k;
    deleted, bytes, protected, failed, k := a.DiskPressurePass(50, 1, false, {});
    StopsOnce(StalePass(), 1, k);
  }

  const OUTSIDE_RECORDING := Media(true, GIB, true, true, 0, false)

  const CREDITED_FILES: Files := map[1 := OUTSIDE_RECORDING, 2 := OLD_RECORDING]

  /** No total is cached; the older recording, 1 GiB, lies outside the tree and the newer, 1 GiB, in it. */
  ghost function CreditPass(): Pass {
    PassOver(SMALL_DISK, HALF_A_MINUTE, TWO_CLIPS, CREDITED_FILES, Books(None, 0), TWO_CLIPS, 0, 1)
  }

  lemma CreditFigures()
    ensures var x := CreditPass();
            && x.Filed() && SMALL_DISK.Holds(CREDITED_FILES)
            && x.trace[0].files == CREDITED_FILES && x.trace[0].freed == 0 && x.trace[1].freed == GIB
            && x.trace[1].files == map[1 := OUTSIDE_RECORDING.Attempted(), 2 := OLD_RECORDING]
            && SMALL_DISK.Tree(CREDITED_FILES) == GIB && SMALL_DISK.Tree(x.trace[1].files) == GIB
  {
    hide Total, Without, Pass.Filed;
    var x := CreditPass();
    PassIsFiled(SMALL_DISK, HALF_A_MINUTE, TWO_CLIPS, CREDITED_FILES, x.books, TWO_CLIPS, 0, 1);
    FirstOfTwo(x, OUTSIDE_RECORDING, OLD_RECORDING);
    TotalOfTwo(OUTSIDE_RECORDING, OLD_RECORDING, true);
    TotalOfTwo(OUTSIDE_RECORDING, OLD_RECORDING, false);
    TotalOfTwo(OUTSIDE_RECORDING.Attempted(), OLD_RECORDING, true);
  }

  /** The second input: the pass walks the tree, finds it at its quota of 1 GiB, and is then misled by
      the credit for a recording that was never in it. */
  lemma OutsideCreditStopsShort()
    ensures var x := CreditPass();
            && x.Filed() && Trusted(x) && StopsShort(x, 1) && x.trace[1].outside == GIB
            && InnerSource(x, 1).walk == Some(0)
  {
    var x := CreditPass();
    CreditFigures();
    StopsShortIff(x, 1);
    TraceNext(x, 0);
    hide Pass.Filed, Pass.InnerOver, Pass.StopsAt, Pass.BooksAt, Pass.InnerBooks, StopsShort;
    assert x.Top(0);
    assert SourceAt(x, 0) == Source(Some(0), Some(30), 1);
    assert InnerSource(x, 1) == Source(Some(0), Some(30), 2);
  }

  /** The pass itself on that input: the recording outside goes, the tree stays at its quota, and the
      clip that fills it is left. */
  method CreditRun() returns (a: Archive, deleted: nat)
    ensures fresh(a) && a.Valid() && deleted == 1
    ensures a.index == [TWO_CLIPS[1]] && a.disk.Tree(a.files) == GIB
  {
    CreditFigures();
    TwoCandidates();
    OutsideCreditStopsShort();
    a := new Archive(TWO_CLIPS, CREDITED_FILES, None, SMALL_DISK, HALF_A_MINUTE);
    var bytes, protected, failed;
    ghost var k;
    deleted, bytes, protected, failed, k := a.DiskPressurePass(0, 1, false, {});
    StopsOnce(CreditPass(), 1, k);
  }
}
