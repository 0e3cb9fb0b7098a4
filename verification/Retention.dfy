/** The eviction loops of web/services/retention.py: oldest clips first, around protected rows
    and files that will not go, against a bookkept byte total. */
module Retention {
  import opened Basics

  const GIB: nat := 0x4000_0000
  const BATCH_SIZE: nat := 16
  const SIZE_CACHE_TTL: nat := 60

  /** A row of clip_index. */
  datatype Clip = Clip(id: int, timestamp: int, locked: bool, readOnly: bool)

  /** A clip's files on disk: the recording itself (its size, whether stat and unlink work on
      it) and the bytes of its removable sidecars and caches. Files outside the walked tree
      are not counted towards the quota. */
  datatype Media = Media(present: bool, size: nat, statOk: bool, removable: bool, side: nat, counted: bool)
  {
    function Bytes(): nat { (if present then size else 0) + side }

    /** The recording is gone after the attempt. */
    predicate Goes() { !present || removable }

    /** What one attempt leaves: sidecars go even when the recording does not. */
    function Attempted(): Media { this.(present := present && !removable, side := 0) }

    /** The bytes the attempt is credited with. */
    function Credit(): nat { if present && removable && statOk then size else 0 }
  }

  datatype Volume = Volume(total: nat, others: nat)

  type Files = map<int, Media>

  ghost predicate AllFiled(rows: seq<Clip>, media: Files) {
    forall i :: 0 <= i < |rows| ==> rows[i].id in media
  }

  // ---- Sums over the files ----

  function Weight(m: Media, treeOnly: bool): nat { if treeOnly && !m.counted then 0 else m.Bytes() }

  ghost function Total(media: Files, treeOnly: bool): nat {
    if exists k :: k in media then
      var k :| k in media;
      Weight(media[k], treeOnly) + Total(media - {k}, treeOnly)
    else 0
  }

  lemma {:induction false} TotalSplit(media: Files, treeOnly: bool, k: int)
    requires k in media
    ensures Total(media, treeOnly) == Weight(media[k], treeOnly) + Total(media - {k}, treeOnly)
    decreases media
  {
    var x :| x in media && Total(media, treeOnly) == Weight(media[x], treeOnly) + Total(media - {x}, treeOnly);
    if x != k {
      TotalSplit(media - {x}, treeOnly, k);
      TotalSplit(media - {k}, treeOnly, x);
      assert media - {x} - {k} == media - {k} - {x};
    }
  }

  lemma TotalUpdate(media: Files, treeOnly: bool, k: int, m: Media)
    requires k in media
    ensures Total(media[k := m], treeOnly)
         == Total(media, treeOnly) - Weight(media[k], treeOnly) + Weight(m, treeOnly)
  {
    TotalSplit(media, treeOnly, k);
    TotalSplit(media[k := m], treeOnly, k);
    assert media[k := m] - {k} == media - {k};
  }

  /** The bytes are those of each clip's recording, while it is there, and of its sidecars; in the tree
      only the clips counted there. */
  lemma TotalCounts(media: Files, treeOnly: bool, k: int, m: Media)
    requires k !in media
    ensures Total(media[k := m], treeOnly)
            == Total(media, treeOnly)
               + if treeOnly && !m.counted then 0 else (if m.present then m.size else 0) + m.side
    ensures Total(map[], treeOnly) == 0
  {
    TotalSplit(media[k := m], treeOnly, k);
    assert media[k := m] - {k} == media;
  }

  method Sum(media: Files, treeOnly: bool) returns (total: nat)
    ensures total == Total(media, treeOnly)
  {
    total := 0;
    var left := media;
    while exists k :: k in left
      invariant total + Total(left, treeOnly) == Total(media, treeOnly)
      decreases |left|
    {
      var k :| k in left;
      TotalSplit(left, treeOnly, k);
      total := total + Weight(left[k], treeOnly);
      left := left - {k};
    }
  }

  // ---- What deleting a run of rows does ----

  function FilesAfter(media: Files, rows: seq<Clip>): (r: Files)
    requires AllFiled(rows, media)
    ensures r.Keys == media.Keys
  {
    if rows == [] then media
    else
      var m, last := FilesAfter(media, rows[..|rows| - 1]), rows[|rows| - 1];
      m[last.id := m[last.id].Attempted()]
  }

  function Credited(media: Files, rows: seq<Clip>): nat
    requires AllFiled(rows, media)
  {
    if rows == [] then 0
    else Credited(media, rows[..|rows| - 1]) + media[rows[|rows| - 1].id].Credit()
  }

  /** The part of the credit that was never in the walked tree. */
  function OutsideCredit(media: Files, rows: seq<Clip>): nat
    requires AllFiled(rows, media)
  {
    if rows == [] then 0
    else
      var m := media[rows[|rows| - 1].id];
      OutsideCredit(media, rows[..|rows| - 1]) + if m.counted then 0 else m.Credit()
  }

  ghost predicate DistinctIds(rows: seq<Clip>) {
    forall i, j :: 0 <= i < j < |rows| ==> rows[i].id != rows[j].id
  }

  lemma {:induction false} Untouched(media: Files, rows: seq<Clip>, id: int)
    requires AllFiled(rows, media) && id in media
    requires forall i :: 0 <= i < |rows| ==> rows[i].id != id
    ensures FilesAfter(media, rows)[id] == media[id]
  {
    if rows == [] {
    } else {
      Untouched(media, rows[..|rows| - 1], id);
    }
  }

  /** Conservation: what leaves the tree is at least the credit that was earned inside it. */
  lemma {:induction false} CreditIsEarned(media: Files, rows: seq<Clip>)
    requires AllFiled(rows, media) && DistinctIds(rows)
    ensures Total(FilesAfter(media, rows), true) + Credited(media, rows)
         <= Total(media, true) + OutsideCredit(media, rows)
  {
    if rows == [] {
    } else {
      var n := |rows| - 1;
      var id := rows[n].id;
      CreditIsEarned(media, rows[..n]);
      Untouched(media, rows[..n], id);
      TotalUpdate(FilesAfter(media, rows[..n]), true, id, media[id].Attempted());
    }
  }

  // ---- Choosing rows ----

  /** The rows a query returns, oldest first. */
  function Where(index: seq<Clip>, before: Option<int>, shieldReadOnly: bool, except: set<int>): seq<Clip> {
    if index == [] then []
    else
      var n := |index| - 1;
      var c := index[n];
      var rows := Where(index[..n], before, shieldReadOnly, except);
      if Matches(c, before, shieldReadOnly) && c.id !in except then rows + [c] else rows
  }

  predicate Matches(c: Clip, before: Option<int>, shieldReadOnly: bool) {
    !c.locked && !(shieldReadOnly && c.readOnly) && (before.Some? ==> c.timestamp < before.value)
  }

  function Without(rows: seq<Clip>, ids: set<int>): seq<Clip> {
    if rows == [] then []
    else
      var n := |rows| - 1;
      var rest := Without(rows[..n], ids);
      if rows[n].id in ids then rest else rest + [rows[n]]
  }

  function Ids(rows: seq<Clip>): set<int> { set i | 0 <= i < |rows| :: rows[i].id }

  /** The ids of the rows whose recording goes when attempted. */
  function Gone(media: Files, rows: seq<Clip>): set<int>
    requires AllFiled(rows, media)
  {
    set i | 0 <= i < |rows| && media[rows[i].id].Goes() :: rows[i].id
  }

  lemma WhereAdd(rows: seq<Clip>, c: Clip, before: Option<int>, shield: bool, except: set<int>)
    ensures Where(rows + [c], before, shield, except)
            == var init := Where(rows, before, shield, except);
               if Matches(c, before, shield) && c.id !in except then init + [c] else init
  {
    assert (rows + [c])[..|rows|] == rows;
  }

  lemma WithoutAdd(rows: seq<Clip>, c: Clip, ids: set<int>)
    ensures Without(rows + [c], ids) == if c.id in ids then Without(rows, ids) else Without(rows, ids) + [c]
  {
    assert (rows + [c])[..|rows|] == rows;
  }

  lemma {:induction false} WhereOfWithout(index: seq<Clip>, before: Option<int>, shield: bool, except: set<int>,
                                          ids: set<int>)
    ensures Where(Without(index, ids), before, shield, except) == Where(index, before, shield, except + ids)
  {
    if index != [] {
      var n := |index| - 1;
      WhereOfWithout(index[..n], before, shield, except, ids);
      WhereAdd(Without(index[..n], ids), index[n], before, shield, except);
    }
  }

  lemma {:induction false} WithoutOfWhere(index: seq<Clip>, before: Option<int>, shield: bool, except: set<int>,
                                          ids: set<int>)
    ensures Without(Where(index, before, shield, except), ids) == Where(index, before, shield, except + ids)
  {
    if index != [] {
      var n := |index| - 1;
      WithoutOfWhere(index[..n], before, shield, except, ids);
      WithoutAdd(Where(index[..n], before, shield, except), index[n], ids);
    }
  }

  lemma {:induction false} WithoutPrefix(rows: seq<Clip>, k: nat)
    requires DistinctIds(rows) && k <= |rows|
    ensures Without(rows, Ids(rows[..k])) == rows[k..]
  {
    if rows == [] {
    } else {
      var n := |rows| - 1;
      if k <= n {
        WithoutPrefix(rows[..n], k);
        assert rows[..n][..k] == rows[..k];
        assert rows[n].id !in Ids(rows[..k]);
        assert rows[k..] == rows[..n][k..] + [rows[n]];
      } else {
        WithoutAll(rows, Ids(rows));
        assert rows[..k] == rows;
      }
    }
  }

  lemma {:induction false} WithoutAll(rows: seq<Clip>, ids: set<int>)
    requires forall i :: 0 <= i < |rows| ==> rows[i].id in ids
    ensures Without(rows, ids) == []
  {
    if rows == [] {
    } else {
      WithoutAll(rows[..|rows| - 1], ids);
    }
  }

  ghost predicate OldestFirst(rows: seq<Clip>) {
    forall i, j :: 0 <= i < j < |rows| ==> rows[i].timestamp <= rows[j].timestamp
  }

  /** A query returns exactly the rows that are not locked, nor read-only when those are shielded, nor
      too new, nor excluded. */
  lemma {:induction false} WhereMembers(index: seq<Clip>, before: Option<int>, shield: bool, except: set<int>, c: Clip)
    ensures c in Where(index, before, shield, except)
            <==> c in index && !c.locked && !(shield && c.readOnly) && c.id !in except
                 && (before.Some? ==> c.timestamp < before.value)
    ensures c in Where(index, before, shield, except)
            <==> c in index && Matches(c, before, shield) && c.id !in except
  {
    if index == [] {
    } else {
      WhereMembers(index[..|index| - 1], before, shield, except, c);
      assert index == index[..|index| - 1] + [index[|index| - 1]];
    }
  }

  /** A query keeps the order of the index and repeats no row. */
  lemma {:induction false} WhereKeepsOrder(index: seq<Clip>, before: Option<int>, shield: bool, except: set<int>)
    requires DistinctIds(index) && OldestFirst(index)
    ensures DistinctIds(Where(index, before, shield, except)) && OldestFirst(Where(index, before, shield, except))
  {
    if index == [] {
    } else {
      var n := |index| - 1;
      WhereKeepsOrder(index[..n], before, shield, except);
      var rows := Where(index[..n], before, shield, except);
      forall i | 0 <= i < |rows| ensures rows[i].id != index[n].id && rows[i].timestamp <= index[n].timestamp {
        assert rows[i] in rows;
        WhereMembers(index[..n], before, shield, except, rows[i]);
        ComesBeforeLast(index, rows[i]);
      }
    }
  }

  lemma ComesBeforeLast(index: seq<Clip>, c: Clip)
    requires DistinctIds(index) && OldestFirst(index) && index != [] && c in index[..|index| - 1]
    ensures c.id != index[|index| - 1].id && c.timestamp <= index[|index| - 1].timestamp
  {
    var j :| 0 <= j < |index| - 1 && index[j] == c;
  }

  // ---- Progress through the candidates ----

  lemma {:induction false} WithoutMore(rows: seq<Clip>, a: set<int>, b: set<int>)
    ensures Without(Without(rows, a), b) == Without(rows, a + b)
  {
    if rows == [] {
    } else {
      var n := |rows| - 1;
      WithoutMore(rows[..n], a, b);
      var init := Without(rows[..n], a);
      assert (init + [rows[n]])[..|init|] == init && init + [] == init;
    }
  }

  lemma GoneNext(files0: Files, cand: seq<Clip>, k: nat)
    requires AllFiled(cand, files0) && DistinctIds(cand) && k < |cand|
    ensures var id := cand[k].id; var gone := Gone(files0, cand[..k]);
            && Ids(cand[..k + 1]) == Ids(cand[..k]) + {id}
            && id !in Ids(cand[..k]) && id !in gone
            && Gone(files0, cand[..k + 1]) == (if files0[id].Goes() then gone + {id} else gone)
  {
    var a, b := cand[..k], cand[..k + 1];
    assert b == a + [cand[k]];
    var id := cand[k].id;
    forall i | i in Ids(b) ensures i in Ids(a) + {id} {
      var j :| 0 <= j < |b| && b[j].id == i;
      if j < k { assert a[j].id == i; }
    }
    forall i | i in Ids(a) + {id} ensures i in Ids(b) {
      if i == id { assert b[k].id == i; } else {
        var j :| 0 <= j < |a| && a[j].id == i;
        assert b[j].id == i;
      }
    }
    assert Gone(files0, b) == (if files0[id].Goes() then Gone(files0, a) + {id} else Gone(files0, a)) by {
      assert b[k] == cand[k];
      assert forall j :: 0 <= j < k ==> b[j] == a[j];
    }
  }

  lemma FilesNext(files0: Files, cand: seq<Clip>, k: nat)
    requires AllFiled(cand, files0) && DistinctIds(cand) && k < |cand|
    ensures var id := cand[k].id; var m := files0[id]; var now := FilesAfter(files0, cand[..k]);
            && now[id] == m && FilesAfter(files0, cand[..k + 1]) == now[id := m.Attempted()]
            && Credited(files0, cand[..k + 1]) == Credited(files0, cand[..k]) + m.Credit()
            && OutsideCredit(files0, cand[..k + 1])
               == OutsideCredit(files0, cand[..k]) + (if m.counted then 0 else m.Credit())
  {
    assert cand[..k + 1][..k] == cand[..k];
    Untouched(files0, cand[..k], cand[k].id);
  }

  lemma {:induction false} KeepsValid(rows: seq<Clip>, ids: set<int>)
    requires DistinctIds(rows) && OldestFirst(rows)
    ensures DistinctIds(Without(rows, ids)) && OldestFirst(Without(rows, ids))
    ensures forall c :: c in Without(rows, ids) <==> c in rows && c.id !in ids
  {
    if rows == [] {
    } else {
      var n := |rows| - 1;
      KeepsValid(rows[..n], ids);
      assert rows == rows[..n] + [rows[n]];
      var init := Without(rows[..n], ids);
      forall i | 0 <= i < |init| ensures init[i].id != rows[n].id && init[i].timestamp <= rows[n].timestamp {
        assert init[i] in init;
        var j :| 0 <= j < n && rows[..n][j] == init[i];
        assert rows[j] == init[i];
      }
    }
  }

  lemma CandidatesFit(index: seq<Clip>, files: Files, before: Option<int>, shield: bool, protect: set<int>)
    requires AllFiled(index, files) && DistinctIds(index) && OldestFirst(index)
    ensures var cand := Where(index, before, shield, protect);
            AllFiled(cand, files) && DistinctIds(cand) && OldestFirst(cand)
  {
    var cand := Where(index, before, shield, protect);
    WhereKeepsOrder(index, before, shield, protect);
    forall i | 0 <= i < |cand| ensures cand[i].id in files {
      WhereMembers(index, before, shield, protect, cand[i]);
      var j :| 0 <= j < |index| && index[j] == cand[i];
    }
  }

  lemma {:induction false} WithoutNone(rows: seq<Clip>)
    ensures Without(rows, {}) == rows
  {
    if rows == [] {
    } else {
      WithoutNone(rows[..|rows| - 1]);
    }
  }

  // ---- The rules and the books ----

  function Max0(x: int): nat { if x < 0 then 0 else x }

  datatype Cached = Cached(at: int, used: nat)

  /** The disk a pass works on: the volume, and the tree's bytes that belong to no clip. */
  datatype Disk = Disk(volume: Option<Volume>, otherBytes: nat)
  {
    /** The bytes a walk of the tree would find. */
    ghost function Tree(files: Files): nat { otherBytes + Total(files, true) }

    /** The volume has room for what is on it, the walked tree's other bytes included. */
    ghost predicate Holds(files: Files) {
      volume.Some? ==>
        otherBytes <= volume.value.others && volume.value.others + Total(files, false) <= volume.value.total
    }

    ghost predicate PctOver(files: Files, pct: int, extra: nat) {
      && pct > 0 && volume.Some? && volume.value.total > 0
      && (volume.value.others + Total(files, false) + extra) * 100 >= pct * volume.value.total
    }
  }

  /** A moment of a pass. */
  datatype State = State(index: seq<Clip>, files: Files, failed: set<int>, deleted: nat, freed: nat, outside: nat)

  /** After attempting the first k candidates: the files are as the attempts left them, the rows
      whose recording went are gone, the others are remembered as failed. */
  ghost function StateAfter(index: seq<Clip>, files: Files, cand: seq<Clip>, k: nat): State
    requires AllFiled(cand, files) && k <= |cand|
  {
    var seen := cand[..k];
    var gone := Gone(files, seen);
    State(Without(index, gone), FilesAfter(files, seen), Ids(seen) - gone, |gone|,
          Credited(files, seen), OutsideCredit(files, seen))
  }

  /** The cached byte total, and how often the clock has been read for it. */
  datatype Books = Books(cache: Option<Cached>, looks: nat)

  /** What a pass starts from, the readings of its clock, and the moments it can go through: moment k
      is after the first k candidates were attempted. */
  datatype Pass = Pass(disk: Disk, times: nat -> int, index: seq<Clip>, files: Files, books: Books,
                       cand: seq<Clip>, trace: seq<State>, pct: int, quotaGb: int)
  {
    ghost predicate Filed() {
      && AllFiled(cand, files) && DistinctIds(cand) && |trace| == |cand| + 1
      && forall k {:trigger Linked(k)} :: 0 <= k <= |cand| ==> Linked(k)
    }

    ghost predicate Linked(k: nat)
      requires AllFiled(cand, files) && |trace| == |cand| + 1 && k <= |cand|
    {
      trace[k] == StateAfter(index, files, cand, k)
    }

    ghost function Quota(): int { quotaGb * GIB }

    ghost predicate PctOverAt(k: nat)
      requires k < |trace|
    {
      disk.PctOver(trace[k].files, pct, 0)
    }

    /** The recording of candidate j goes when attempted. */
    ghost predicate Goes(j: nat)
      requires AllFiled(cand, files) && j < |cand|
    {
      files[cand[j].id].Goes()
    }

    /** The books after the rules were consulted over some files. */
    ghost function Consulted(b: Books, files: Files, refresh: bool): Books {
      if disk.PctOver(files, pct, 0) || quotaGb <= 0 then b
      else if !refresh && IsFresh(b, times) then Books(b.cache, b.looks + 1)
      else Books(Some(Cached(times(b.looks), disk.Tree(files))), b.looks + 1)
    }

    /** What the rules say, by the percentage and by the cached total. */
    ghost predicate SaysOver(b: Books, files: Files) {
      disk.PctOver(files, pct, 0) || (quotaGb > 0 && b.cache.Some? && b.cache.value.used >= Quota())
    }

    /** A batch begins, or would begin, at this moment. */
    ghost predicate Top(k: nat) { k % BATCH_SIZE == 0 || k == |cand| }

    /** The books after the check that follows a deletion. */
    ghost function InnerBooks(k: nat): Books
      requires Filed() && k <= |cand|
      decreases k, 0
    {
      if k == 0 then books
      else if !Goes(k - 1) then BooksAt(k - 1)
      else
        var b := BooksAt(k - 1);
        Consulted(b.(cache := Subtract(b.cache, files[cand[k - 1].id].Credit())), trace[k].files, false)
    }

    /** The books after all checks of a moment. */
    ghost function BooksAt(k: nat): Books
      requires Filed() && k <= |cand|
      decreases k, 1
    {
      if Top(k) then Consulted(InnerBooks(k), trace[k].files, true) else InnerBooks(k)
    }

    /** The check that follows a deletion, if one is made, says over. */
    ghost predicate InnerOver(k: nat)
      requires Filed() && k <= |cand|
    {
      k == 0 || !Goes(k - 1) || SaysOver(InnerBooks(k), trace[k].files)
    }

    /** Every check of the moment says over. */
    ghost predicate OverAt(k: nat)
      requires Filed() && k <= |cand|
    {
      InnerOver(k) && (Top(k) ==> SaysOver(BooksAt(k), trace[k].files))
    }

    /** The pass stops at this moment: all checks before said over, and one now does not, or there
        is no candidate left. */
    ghost predicate StopsAt(k: nat)
      requires Filed() && k <= |cand|
    {
      (forall j :: 0 <= j < k ==> OverAt(j)) && (k < |cand| ==> !OverAt(k))
    }

    /** The pass stands after k visits. */
    ghost predicate Stands(k: nat, index: seq<Clip>, files: Files, failed: set<int>, deleted: nat, freed: nat) {
      k < |trace| && State(index, files, failed, deleted, freed, trace[k].outside) == trace[k]
    }

    /** The cached total is no lower than the truth, up to credit from outside the tree. */
    ghost predicate Covers(k: nat, b: Books) {
      k < |trace| && (b.cache.Some? ==> b.cache.value.used + trace[k].outside >= disk.Tree(trace[k].files))
    }

    /** A check is made at this moment. */
    ghost predicate Checked(k: nat)
      requires AllFiled(cand, files) && k <= |cand|
    {
      Top(k) || Goes(k - 1)
    }
  }

  /** The cached total is young enough to be used at the next reading of the clock. */
  ghost predicate IsFresh(b: Books, times: nat -> int) {
    b.cache.Some? && times(b.looks) - b.cache.value.at < SIZE_CACHE_TTL
  }

  ghost function PassOver(disk: Disk, times: nat -> int, index: seq<Clip>, files: Files, books: Books,
                          cand: seq<Clip>, pct: int, quotaGb: int): Pass
    requires AllFiled(cand, files)
  {
    Pass(disk, times, index, files, books, cand,
         seq(|cand| + 1, k requires 0 <= k <= |cand| => StateAfter(index, files, cand, k)), pct, quotaGb)
  }

  function Subtract(cache: Option<Cached>, freed: nat): Option<Cached> {
    match cache
    case None => None
    case Some(c) => Some(Cached(c.at, Max0(c.used - freed)))
  }

  /** The first batch of the eligible rows. */
  function Batch(eligible: seq<Clip>): seq<Clip> {
    if |eligible| <= BATCH_SIZE then eligible else eligible[..BATCH_SIZE]
  }

  /** The rows are those of the batch that begins at a moment. */
  ghost predicate IsBatch(x: Pass, start: nat, rows: seq<Clip>) {
    && x.Top(start) && start + |rows| <= |x.cand|
    && (rows == [] <==> start == |x.cand|)
    && (forall r :: 0 <= r < |rows| ==> rows[r] == x.cand[start + r])
    && (start < |x.cand| ==> |rows| == BATCH_SIZE || start + |rows| == |x.cand|) && |rows| <= BATCH_SIZE
  }

  lemma BatchIsNext(x: Pass, k: nat)
    requires k <= |x.cand| && x.Top(k)
    ensures IsBatch(x, k, Batch(x.cand[k..]))
  {
  }

  /** Within a batch no new one begins; at its end one does. */
  lemma InsideBatch(x: Pass, start: nat, rows: seq<Clip>, k: nat)
    requires x.Filed() && IsBatch(x, start, rows) && start < k < start + |rows|
    ensures !x.Top(k) && x.BooksAt(k) == x.InnerBooks(k) && (x.InnerOver(k) ==> x.OverAt(k))
  {
    hide Pass.InnerBooks, Pass.InnerOver;
    NoTopInside(start, k);
  }

  lemma NoTopInside(start: nat, k: nat)
    requires start % BATCH_SIZE == 0 && start < k < start + BATCH_SIZE
    ensures k % BATCH_SIZE != 0
  {
  }

  /** The query of a batch returns exactly the candidates not yet visited, in order. */
  lemma NextQuery(x: Pass, before: Option<int>, shield: bool, protect: set<int>, k: nat)
    requires x.Filed() && k <= |x.cand| && x.cand == Where(x.index, before, shield, protect)
    ensures Where(x.trace[k].index, before, shield, protect + x.trace[k].failed) == x.cand[k..]
  {
    assert x.Linked(k);
    hide Where, Without, Gone, Ids;
    var seen := x.cand[..k];
    Unvisited(protect, Ids(seen), Gone(x.files, seen));
    WhereOfWithout(x.index, before, shield, protect + x.trace[k].failed, Gone(x.files, seen));
    WithoutOfWhere(x.index, before, shield, protect, Ids(seen));
    WithoutPrefix(x.cand, k);
  }

  lemma Unvisited(protect: set<int>, ids: set<int>, gone: set<int>)
    requires gone <= ids
    ensures protect + (ids - gone) + gone == protect + ids
  {
  }

  lemma StandsFirst(x: Pass)
    requires x.Filed()
    ensures x.Stands(0, x.index, x.files, {}, 0, 0)
  {
    assert x.Linked(0);
    WithoutNone(x.index);
    assert Gone(x.files, x.cand[..0]) == {};
  }

  lemma StateNext(index: seq<Clip>, files: Files, cand: seq<Clip>, k: nat)
    requires AllFiled(cand, files) && DistinctIds(cand) && k < |cand|
    ensures NextState(StateAfter(index, files, cand, k), StateAfter(index, files, cand, k + 1),
                      cand[k].id, files[cand[k].id])
  {
    hide Without, Gone, Ids, FilesAfter, Credited, OutsideCredit, Media.Goes, Media.Credit, Media.Attempted;
    GoneNext(files, cand, k);
    FilesNext(files, cand, k);
    var id, gone := cand[k].id, Gone(files, cand[..k]);
    WithoutMore(index, gone, {id});
    FailedNext(Ids(cand[..k]), gone, id);
    assert |gone + {id}| == |gone| + 1;
  }

  /** What is left after any number of attempts is still a good archive. */
  lemma StaysValid(x: Pass, k: nat)
    requires x.Filed() && k <= |x.cand|
    requires AllFiled(x.index, x.files) && DistinctIds(x.index) && OldestFirst(x.index) && x.disk.Holds(x.files)
    ensures |x.trace| == |x.cand| + 1
    ensures var s := x.trace[k];
            AllFiled(s.index, s.files) && DistinctIds(s.index) && OldestFirst(s.index) && x.disk.Holds(s.files)
  {
    assert x.Linked(k);
    var gone := Gone(x.files, x.cand[..k]);
    KeepsValid(x.index, gone);
    FilesShrink(x.files, x.cand[..k]);
    var left := Without(x.index, gone);
    forall i | 0 <= i < |left| ensures left[i].id in x.files {
      assert left[i] in left;
      var j :| 0 <= j < |x.index| && x.index[j] == left[i];
    }
  }

  lemma {:induction false} FilesShrink(media: Files, rows: seq<Clip>)
    requires AllFiled(rows, media)
    ensures Total(FilesAfter(media, rows), false) <= Total(media, false)
  {
    if rows != [] {
      var n := |rows| - 1;
      FilesShrink(media, rows[..n]);
      var now := FilesAfter(media, rows[..n]);
      TotalUpdate(now, false, rows[n].id, now[rows[n].id].Attempted());
    }
  }

  function ReadOnlyRows(rows: seq<Clip>): nat {
    if rows == [] then 0
    else ReadOnlyRows(rows[..|rows| - 1]) + if rows[|rows| - 1].readOnly then 1 else 0
  }

  /** Read-only rows are counted one by one. */
  lemma {:induction false} ReadOnlyRowsJoin(a: seq<Clip>, b: seq<Clip>, c: Clip)
    ensures ReadOnlyRows(a + b) == ReadOnlyRows(a) + ReadOnlyRows(b)
    ensures ReadOnlyRows([c]) == if c.readOnly then 1 else 0
  {
    if b == [] {
      assert a + b == a;
    } else {
      assert (a + b)[..|a + b| - 1] == a + b[..|b| - 1];
      ReadOnlyRowsJoin(a, b[..|b| - 1], c);
    }
  }

  lemma FailedNext(ids: set<int>, gone: set<int>, id: int)
    requires id !in ids
    ensures (ids + {id}) - (gone + {id}) == ids - gone
    ensures id !in gone ==> (ids + {id}) - gone == ids - gone + {id}
  {
  }

  /** The moment b after the recording m, filed under the id, was attempted in the moment a. */
  ghost predicate NextState(a: State, b: State, id: int, m: Media) {
    && id in a.files && a.files[id] == m && b.files == a.files[id := m.Attempted()]
    && b.index == (if m.Goes() then Without(a.index, {id}) else a.index)
    && b.failed == (if m.Goes() then a.failed else a.failed + {id})
    && b.deleted == a.deleted + (if m.Goes() then 1 else 0)
    && b.freed == a.freed + m.Credit()
    && b.outside == a.outside + (if m.counted then 0 else m.Credit())
  }

  /** One visit changes the moment as the attempt on that candidate does. */
  lemma TraceNext(x: Pass, k: nat)
    requires x.Filed() && k < |x.cand|
    ensures NextState(x.trace[k], x.trace[k + 1], x.cand[k].id, x.files[x.cand[k].id])
  {
    assert x.Linked(k) && x.Linked(k + 1);
    StateNext(x.index, x.files, x.cand, k);
  }

  lemma {:induction false} IdsCount(rows: seq<Clip>)
    requires DistinctIds(rows)
    ensures |Ids(rows)| == |rows|
  {
    if rows == [] {
      assert Ids(rows) == {};
    } else {
      var n := |rows| - 1;
      IdsCount(rows[..n]);
      forall i ensures i in Ids(rows) <==> i in Ids(rows[..n]) || i == rows[n].id {
        if j :| 0 <= j < n && rows[j].id == i { assert rows[..n][j].id == i; }
        if j :| 0 <= j < n && rows[..n][j].id == i { assert rows[j].id == i; }
        assert rows[n].id in Ids(rows);
      }
      assert Ids(rows) == Ids(rows[..n]) + {rows[n].id};
      assert rows[n].id !in Ids(rows[..n]);
    }
  }

  lemma AllCounted(x: Pass, k: nat)
    requires x.Filed() && k <= |x.cand|
    ensures |x.trace[k].failed| + x.trace[k].deleted == k
  {
    assert x.Linked(k);
    IdsCount(x.cand[..k]);
    assert Gone(x.files, x.cand[..k]) <= Ids(x.cand[..k]);
  }

  // ---- What the books are worth ----

  /** A deletion frees in the tree at least what it is credited with there. */
  lemma CoversAfterCredit(x: Pass, k: nat, b: Books)
    requires x.Filed() && k < |x.cand| && x.Covers(k, b)
    ensures x.Covers(k + 1, b.(cache := Subtract(b.cache, x.files[x.cand[k].id].Credit())))
  {
    TraceNext(x, k);
    var id := x.cand[k].id;
    TotalUpdate(x.trace[k].files, true, id, x.files[id].Attempted());
  }

  lemma CoversAfterFailure(x: Pass, k: nat, b: Books)
    requires x.Filed() && k < |x.cand| && x.Covers(k, b) && !x.Goes(k)
    ensures x.Covers(k + 1, b)
  {
    TraceNext(x, k);
    var id := x.cand[k].id;
    TotalUpdate(x.trace[k].files, true, id, x.files[id].Attempted());
  }

  lemma ConsultingCovers(x: Pass, k: nat, b: Books, refresh: bool)
    requires k < |x.trace| && (x.Covers(k, b) || (refresh && x.quotaGb > 0 && !x.PctOverAt(k)))
    ensures x.Covers(k, x.Consulted(b, x.trace[k].files, refresh))
  {
  }

  /** The percentage rule does not open the pass, or the cached total covers the truth on entry. */
  ghost predicate Trusted(x: Pass)
    requires x.Filed()
  {
    x.quotaGb > 0 && (!x.PctOverAt(0) || x.Covers(0, x.books))
  }

  /** The bookkept total never falls below the truth. */
  lemma {:induction false} BooksCover(x: Pass, k: nat)
    requires x.Filed() && k <= |x.cand| && Trusted(x)
    ensures x.Covers(k, x.BooksAt(k)) && (k > 0 ==> x.Covers(k, x.InnerBooks(k)))
  {
    hide Pass.Consulted, Pass.Covers, Pass.Filed, Subtract;
    if k == 0 {
      FirstBooks(x);
      ConsultingCovers(x, 0, x.books, true);
    } else {
      BooksCover(x, k - 1);
      BooksStep(x, k);
      var b := x.BooksAt(k - 1);
      if x.Goes(k - 1) {
        CoversAfterCredit(x, k - 1, b);
        var c := b.(cache := Subtract(b.cache, x.files[x.cand[k - 1].id].Credit()));
        ConsultingCovers(x, k, c, false);
      } else {
        CoversAfterFailure(x, k - 1, b);
      }
      ConsultingCovers(x, k, x.InnerBooks(k), true);
    }
  }

  lemma FirstBooks(x: Pass)
    requires x.Filed()
    ensures |x.trace| > 0 && x.InnerBooks(0) == x.books && x.BooksAt(0) == x.Consulted(x.books, x.trace[0].files, true)
  {
    assert x.Top(0);
  }

  lemma BooksStep(x: Pass, k: nat)
    requires x.Filed() && 0 < k <= |x.cand|
    ensures |x.trace| == |x.cand| + 1 && AllFiled(x.cand, x.files)
    ensures var b := x.BooksAt(k - 1);
            var credit := x.files[x.cand[k - 1].id].Credit();
            x.InnerBooks(k) ==
              if x.Goes(k - 1) then x.Consulted(b.(cache := Subtract(b.cache, credit)), x.trace[k].files, false) else b
    ensures x.BooksAt(k) == if x.Top(k) then x.Consulted(x.InnerBooks(k), x.trace[k].files, true) else x.InnerBooks(k)
  {
  }

  /** A check that says fine: by the percentage as it is, and by the books. */
  lemma FineMeansUnderQuota(x: Pass, k: nat, b: Books)
    requires k < |x.trace| && x.quotaGb > 0 && x.Covers(k, b) && b.cache.Some? && !x.SaysOver(b, x.trace[k].files)
    ensures x.disk.Tree(x.trace[k].files) < x.Quota() + x.trace[k].outside && !x.PctOverAt(k)
  {
  }

  lemma ConsultedIsFilled(x: Pass, b: Books, files: Files, refresh: bool)
    requires x.quotaGb > 0 && !x.SaysOver(x.Consulted(b, files, refresh), files)
    ensures x.Consulted(b, files, refresh).cache.Some?
  {
  }

  lemma FiledTrace(x: Pass)
    requires x.Filed()
    ensures |x.trace| == |x.cand| + 1 && AllFiled(x.cand, x.files)
  {
  }

  /** Main result on the quota: a pass whose entry books can be trusted stops with candidates left
      only when the percentage is fine and the true bytes are under the quota, up to credit from
      outside the tree. */
  lemma TrustedPassMeetsTheQuota(x: Pass, k: nat)
    requires x.Filed() && k < |x.cand| && x.StopsAt(k) && Trusted(x)
    ensures |x.trace| == |x.cand| + 1 && !x.PctOverAt(k)
    ensures x.disk.Tree(x.trace[k].files) < x.Quota() + x.trace[k].outside
  {
    hide Pass.Consulted, Pass.Covers, Pass.SaysOver, Pass.Filed, Subtract, Pass.InnerBooks, Pass.BooksAt;
    FiledTrace(x);
    BooksCover(x, k);
    if k > 0 { BooksStep(x, k); } else { FirstBooks(x); }
    assert !x.OverAt(k);
    if !x.InnerOver(k) {
      var b := x.BooksAt(k - 1);
      ConsultedIsFilled(x, b.(cache := Subtract(b.cache, x.files[x.cand[k - 1].id].Credit())), x.trace[k].files, false);
      FineMeansUnderQuota(x, k, x.InnerBooks(k));
    } else {
      ConsultedIsFilled(x, x.InnerBooks(k), x.trace[k].files, true);
      FineMeansUnderQuota(x, k, x.BooksAt(k));
    }
  }

  /** A pass stops with candidates left only when the percentage is fine. */
  lemma PassMeetsThePercentage(x: Pass, k: nat)
    requires x.Filed() && k < |x.cand| && x.StopsAt(k)
    ensures |x.trace| == |x.cand| + 1 && !x.PctOverAt(k)
    ensures x.pct > 0 && x.disk.volume.Some? && x.disk.volume.value.total > 0 ==>
              var v := x.disk.volume.value; (v.others + Total(x.trace[k].files, false)) * 100 < x.pct * v.total
  {
    hide Pass.BooksAt, Pass.InnerBooks;
    assert !x.OverAt(k);
  }

  /** Every attempt was made on the word of the last check before it: that check said over, and no
      recording went since. */
  lemma {:induction false} AttemptsFollowAnOver(x: Pass, k: nat, j: nat) returns (c: nat)
    requires x.Filed() && k <= |x.cand| && x.StopsAt(k) && j < k
    ensures |x.trace| == |x.cand| + 1 && AllFiled(x.cand, x.files)
    ensures c <= j && x.Checked(c) && x.SaysOver(x.BooksAt(c), x.trace[c].files)
    ensures forall i :: c < i <= j ==> !x.Checked(i)
    ensures forall i :: c <= i < j ==> !x.Goes(i)
    decreases j
  {
    hide Pass.Consulted, Pass.SaysOver;
    assert x.OverAt(j);
    if j == 0 {
      assert x.Top(0);
      c := 0;
    } else if x.Checked(j) {
      c := j;
      BooksStep(x, j);
    } else {
      c := AttemptsFollowAnOver(x, k, j - 1);
    }
  }

  /** The pass stops at one moment. */
  lemma StopsOnce(x: Pass, j: nat, k: nat)
    requires x.Filed() && j <= |x.cand| && k <= |x.cand| && x.StopsAt(j) && x.StopsAt(k)
    ensures j == k
  {
    hide Pass.OverAt;
  }

  // ---- The archive ----

  class Archive {
    var index: seq<Clip>
    var files: Files
    var cache: Option<Cached>
    /** How often the clock has been read for the cache, and its readings. */
    var looks: nat
    const times: nat -> int
    const disk: Disk

    ghost predicate Valid()
      reads this
    {
      AllFiled(index, files) && DistinctIds(index) && OldestFirst(index) && disk.Holds(files)
    }

    function CurrentBooks(): Books
      reads this
    {
      Books(cache, looks)
    }

    constructor (index: seq<Clip>, files: Files, cache: Option<Cached>, disk: Disk, times: nat -> int)
      requires AllFiled(index, files) && DistinctIds(index) && OldestFirst(index) && disk.Holds(files)
      ensures Valid() && this.index == index && this.files == files && CurrentBooks() == Books(cache, 0)
      ensures this.disk == disk && this.times == times
    {
      this.index, this.files, this.cache, this.looks := index, files, cache, 0;
      this.disk, this.times := disk, times;
    }

    method ScanDirBytes() returns (total: nat)
      ensures total == disk.Tree(files)
    {
      total := Sum(files, true);
      total := disk.otherBytes + total;
    }

    /** The walk, or its bookkept result while that is younger than a minute. */
    method CachedUsedBytes(refresh: bool) returns (used: nat)
      modifies this`cache, this`looks
      ensures looks == old(looks) + 1 && cache.Some? && used == cache.value.used
      ensures if !refresh && old(cache).Some? && times(old(looks)) - old(cache).value.at < SIZE_CACHE_TTL
              then cache == old(cache)
              else cache == Some(Cached(times(old(looks)), disk.Tree(files)))
    {
      var now := times(looks);
      looks := looks + 1;
      if !refresh && cache.Some? && now - cache.value.at < SIZE_CACHE_TTL {
        return cache.value.used;
      }
      used := ScanDirBytes();
      cache := Some(Cached(now, used));
    }

    method CacheSubtract(freed: nat)
      modifies this`cache
      ensures cache == Subtract(old(cache), freed)
    {
      if cache.Some? && freed > 0 {
        cache := Some(Cached(cache.value.at, Max0(cache.value.used - freed)));
      }
    }

    method PctExceeded(pct: int, extra: nat) returns (over: bool)
      ensures over == disk.PctOver(files, pct, extra)
    {
      if pct <= 0 || disk.volume.None? || disk.volume.value.total <= 0 {
        return false;
      }
      var bytes := Sum(files, false);
      over := (disk.volume.value.others + bytes + extra) * 100 >= pct * disk.volume.value.total;
    }

    /** Either rule is breached. The quota rule is consulted, and the cache refreshed, only
        when the percentage rule holds. */
    method OverThreshold(pct: int, quotaGb: int, refresh: bool) returns (over: bool)
      modifies this`cache, this`looks
      ensures disk.PctOver(files, pct, 0)
              <==> && pct > 0 && disk.volume.Some? && disk.volume.value.total > 0
                   && (disk.volume.value.others + Total(files, false)) * 100 >= pct * disk.volume.value.total
      ensures disk.PctOver(files, pct, 0) ==> over && CurrentBooks() == old(CurrentBooks())
      ensures !disk.PctOver(files, pct, 0) && quotaGb <= 0 ==> !over && CurrentBooks() == old(CurrentBooks())
      ensures !disk.PctOver(files, pct, 0) && quotaGb > 0 ==>
                && looks == old(looks) + 1 && cache.Some? && (over <==> cache.value.used >= quotaGb * GIB)
                && cache == if !refresh && IsFresh(old(CurrentBooks()), times) then old(cache)
                            else Some(Cached(times(old(looks)), disk.Tree(files)))
    {
      over := PctExceeded(pct, 0);
      if over || quotaGb <= 0 {
        return;
      }
      var used := CachedUsedBytes(refresh);
      over := used >= quotaGb * GIB;
    }

    method DeleteClipFiles(c: Clip) returns (freed: nat, ok: bool)
      requires c.id in files
      modifies this`files
      ensures var m := old(files)[c.id];
              && files == old(files)[c.id := m.Attempted()]
              && ok == m.Goes() && freed == m.Credit()
      ensures var m, now := old(files)[c.id], files[c.id];
              && now.side == 0 && now.size == m.size && now.counted == m.counted
              && (ok <==> !now.present) && (ok <==> !m.present || m.removable)
              && freed == (if m.present && ok && m.statOk then m.size else 0)
    {
      var m := files[c.id];
      freed := if m.present && m.statOk then m.size else 0;
      ok := !m.present || m.removable;
      files := files[c.id := m.(present := m.present && !ok, side := 0)];
      if !ok {
        freed := 0;
      }
    }

    // ---- The disk-pressure pass ----

    /** The pass at hand is over this archive. */
    ghost predicate Runs(x: Pass, pct: int, quotaGb: int)
      reads this
    {
      x.Filed() && x.pct == pct && x.quotaGb == quotaGb && x.disk == disk && x.times == times
    }

    method CheckRules(ghost x: Pass, pct: int, quotaGb: int, refresh: bool) returns (over: bool)
      requires Runs(x, pct, quotaGb)
      modifies this`cache, this`looks
      ensures CurrentBooks() == x.Consulted(old(CurrentBooks()), files, refresh)
      ensures over == x.SaysOver(CurrentBooks(), files)
    {
      over := OverThreshold(pct, quotaGb, refresh);
    }

    /** One turn of the batch loop: attempt the row and, after a deletion, check the rules. */
    method Turn(ghost x: Pass, ghost k: nat, c: Clip, failed0: set<int>, deleted0: nat, freed0: nat,
                pct: int, quotaGb: int)
      returns (over: bool, failed: set<int>, deleted: nat, freed: nat)
      requires Runs(x, pct, quotaGb) && k < |x.cand| && c == x.cand[k]
      requires x.Stands(k, index, files, failed0, deleted0, freed0) && CurrentBooks() == x.BooksAt(k)
      modifies this`index, this`files, this`cache, this`looks
      ensures x.Stands(k + 1, index, files, failed, deleted, freed) && CurrentBooks() == x.InnerBooks(k + 1)
      ensures over == x.InnerOver(k + 1)
    {
      hide Pass.Consulted, Pass.SaysOver, Pass.BooksAt, Without, Subtract;
      TraceNext(x, k);
      BooksStep(x, k + 1);
      over, failed, deleted, freed := true, failed0, deleted0, freed0;
      var bytes, ok := DeleteClipFiles(c);
      if !ok {
        failed := failed + {c.id};
        return;
      }
      CacheSubtract(bytes);
      index := Without(index, {c.id});
      freed, deleted := freed + bytes, deleted + 1;
      over := CheckRules(x, pct, quotaGb, false);
    }

    /** One batch: every row is attempted, and after each deletion the rules are checked again. */
    method RunBatch(ghost x: Pass, ghost start: nat, rows: seq<Clip>, failed0: set<int>, deleted0: nat, freed0: nat,
                    pct: int, quotaGb: int)
      returns (over: bool, failed: set<int>, deleted: nat, freed: nat, ghost k: nat)
      requires Runs(x, pct, quotaGb) && start < |x.cand| && IsBatch(x, start, rows)
      requires x.Stands(start, index, files, failed0, deleted0, freed0) && CurrentBooks() == x.BooksAt(start)
      requires forall j :: 0 <= j <= start ==> x.OverAt(j)
      modifies this`index, this`files, this`cache, this`looks
      ensures start < k <= |x.cand| && x.Stands(k, index, files, failed, deleted, freed)
      ensures CurrentBooks() == x.InnerBooks(k) && over == x.InnerOver(k)
      ensures forall j :: 0 <= j < k ==> x.OverAt(j)
      ensures over ==> x.Top(k) && k == start + |rows|
    {
      hide Pass.BooksAt, Pass.InnerBooks, Pass.InnerOver, Pass.Filed;
      over, failed, deleted, freed, k := true, failed0, deleted0, freed0, start;
      for r := 0 to |rows|
        invariant over && k == start + r && Runs(x, pct, quotaGb)
        invariant x.Stands(k, index, files, failed, deleted, freed)
        invariant r < |rows| ==> CurrentBooks() == x.BooksAt(k) && forall j :: 0 <= j <= k ==> x.OverAt(j)
        invariant r > 0 ==> CurrentBooks() == x.InnerBooks(k) && x.InnerOver(k)
        invariant r > 0 ==> forall j :: 0 <= j < k ==> x.OverAt(j)
      {
        over, failed, deleted, freed := Turn(x, k, rows[r], failed, deleted, freed, pct, quotaGb);
        k := k + 1;
        if !over {
          return;
        }
        if r + 1 < |rows| { InsideBatch(x, start, rows, k); }
      }
    }

    method CountReadOnly() returns (n: nat)
      ensures n == ReadOnlyRows(index)
    {
      n := 0;
      for k := 0 to |index|
        invariant n == ReadOnlyRows(index[..k])
      {
        assert index[..k + 1][..k] == index[..k];
        if index[k].readOnly {
          n := n + 1;
        }
      }
      assert index[..|index|] == index;
    }

    /** The batches: until the rules say fine or no candidate is left. `early` tells that the check
        after a deletion ended it. */
    method RunBatches(ghost x: Pass, pct: int, quotaGb: int, protectRo: bool, protectIds: set<int>)
      returns (deleted: nat, freed: nat, failed: set<int>, early: bool, ghost k: nat)
      requires Runs(x, pct, quotaGb)
      requires x.index == index && x.files == files && x.books == CurrentBooks()
      requires x.cand == Where(index, None, protectRo, protectIds)
      modifies this`index, this`files, this`cache, this`looks
      ensures k <= |x.cand| && x.Stands(k, index, files, failed, deleted, freed) && x.StopsAt(k)
      ensures early == !x.InnerOver(k)
      ensures CurrentBooks() == if early then x.InnerBooks(k) else x.BooksAt(k)
    {
      hide Pass.BooksAt, Pass.InnerBooks, Pass.Consulted, Pass.SaysOver, Pass.Filed, Where;
      StandsFirst(x);
      FirstBooks(x);
      deleted, freed, failed, early, k := 0, 0, {}, false, 0;
      var over := CheckRules(x, pct, quotaGb, true);
      while over
        invariant k <= |x.cand| && x.Stands(k, index, files, failed, deleted, freed) && Runs(x, pct, quotaGb)
        invariant CurrentBooks() == x.BooksAt(k) && x.Top(k) && x.InnerOver(k) && !early
        invariant over == x.SaysOver(CurrentBooks(), files)
        invariant forall j :: 0 <= j < k ==> x.OverAt(j)
        decreases |x.cand| - k
      {
        NextQuery(x, None, protectRo, protectIds, k);
        BatchIsNext(x, k);
        var rows := Batch(Where(index, None, protectRo, protectIds + failed));
        if rows == [] {
          break;
        }
        over, failed, deleted, freed, k := RunBatch(x, k, rows, failed, deleted, freed, pct, quotaGb);
        if !over {
          early := true;
          break;
        }
        BooksStep(x, k);
        over := CheckRules(x, pct, quotaGb, true);
      }
    }

    /** Evict oldest first until both rules hold or no candidate is left. The candidates are
        attempted once each, in order, across all batches, up to the one moment the pass stops at;
        everything else, the books included, follows from that moment. */
    method DiskPressurePass(pct: int, quotaGb: int, protectRo: bool, protectIds: set<int>)
      returns (deleted: nat, bytesFreed: nat, protected: nat, failed: nat, ghost k: nat)
      requires Valid() && (pct > 0 ==> disk.volume.Some?)
      modifies this`index, this`files, this`cache, this`looks
      ensures var cand := Where(old(index), None, protectRo, protectIds);
              && AllFiled(cand, old(files))
              && var x := PassOver(disk, times, old(index), old(files), old(CurrentBooks()), cand, pct, quotaGb);
              && x.Filed() && k <= |cand| && x.StopsAt(k)
              && x.Stands(k, index, files, x.trace[k].failed, deleted, bytesFreed) && failed == k - deleted
              && CurrentBooks() == (if !x.InnerOver(k) then x.InnerBooks(k)
                                    else if protectRo then x.Consulted(x.BooksAt(k), files, true)
                                    else x.BooksAt(k))
              && protected == (if protectRo && x.InnerOver(k) && x.SaysOver(CurrentBooks(), files)
                               then ReadOnlyRows(index) else 0)
      ensures Valid()
    {
      hide Pass.BooksAt, Pass.InnerBooks, Pass.Consulted, Pass.SaysOver, Pass.InnerOver, Pass.StopsAt;
      ghost var cand := Where(index, None, protectRo, protectIds);
      CandidatesFit(index, files, None, protectRo, protectIds);
      ghost var x := PassOver(disk, times, index, files, CurrentBooks(), cand, pct, quotaGb);
      assert x.Filed();
      var failedIds, early;
      deleted, bytesFreed, failedIds, early, k := RunBatches(x, pct, quotaGb, protectRo, protectIds);
      AllCounted(x, k);
      StaysValid(x, k);
      failed, protected := |failedIds|, 0;
      if protectRo && !early {
        var over := CheckRules(x, pct, quotaGb, true);
        if over {
          protected := CountReadOnly();
        }
      }
    }

    // ---- Making room for one file ----

    /** With `size` more bytes a rule would be breached after k visits. The quota side knows one
        walk, made first, less what was credited since. */
    ghost predicate NoRoom(x: Pass, k: nat, size: nat)
      requires k < |x.trace|
    {
      || (x.quotaGb > 0 && Max0(disk.Tree(x.files) - x.trace[k].freed) + size >= x.quotaGb * GIB)
      || disk.PctOver(x.trace[k].files, x.pct, size)
    }

    /** With `size` more bytes the volume stays below the percentage, and the tree, walked once and less
        the bytes credited since, below the quota. */
    ghost predicate Fits(files: Files, freed: nat, walked: nat, size: nat, pct: int, quotaGb: int) {
      && (pct > 0 && disk.volume.Some? && disk.volume.value.total > 0 ==>
            (disk.volume.value.others + Total(files, false) + size) * 100 < pct * disk.volume.value.total)
      && (quotaGb > 0 ==> walked + size < quotaGb * GIB + freed && size < quotaGb * GIB)
    }

    lemma FitsUnlessNoRoom(x: Pass, size: nat)
      requires x.Filed()
      ensures |x.trace| == |x.cand| + 1
      ensures forall k :: 0 <= k <= |x.cand| ==>
                && x.trace[k].files == FilesAfter(x.files, x.cand[..k])
                && (NoRoom(x, k, size) <==>
                    !Fits(x.trace[k].files, Credited(x.files, x.cand[..k]), disk.Tree(x.files), size, x.pct, x.quotaGb))
    {
      forall k | 0 <= k <= |x.cand|
        ensures x.trace[k].files == FilesAfter(x.files, x.cand[..k])
        ensures NoRoom(x, k, size) <==>
                !Fits(x.trace[k].files, Credited(x.files, x.cand[..k]), disk.Tree(x.files), size, x.pct, x.quotaGb)
      {
        assert x.Linked(k);
      }
    }

    method Over(size: nat, used: nat, pct: int, quotaGb: int) returns (over: bool)
      ensures over <==> (quotaGb > 0 && used + size >= quotaGb * GIB) || disk.PctOver(files, pct, size)
    {
      if quotaGb > 0 && used + size >= quotaGb * GIB {
        return true;
      }
      over := PctExceeded(pct, size);
    }

    method EvictUntilRoom(ghost x: Pass, size: nat, beforeTs: int, pct: int, quotaGb: int,
                          protectRo: bool, protectIds: set<int>)
      returns (ok: bool, ghost k: nat)
      requires x.Filed() && x.pct == pct && x.quotaGb == quotaGb && x.disk == disk
      requires x.index == index && x.files == files && x.cand == Where(index, Some(beforeTs), protectRo, protectIds)
      modifies this`files, this`index
      ensures k <= |x.cand| && index == x.trace[k].index && files == x.trace[k].files
      ensures forall j :: 0 <= j < k ==> NoRoom(x, j, size)
      ensures ok <==> !NoRoom(x, k, size)
      ensures !ok ==> k == |x.cand|
    {
      StandsFirst(x);
      k := 0;
      var used: int := 0;
      if quotaGb > 0 {
        used := ScanDirBytes();
      }
      var failedIds: set<int> := {};
      var over := Over(size, used, pct, quotaGb);
      while over
        invariant k <= |x.cand| && index == x.trace[k].index && files == x.trace[k].files
        invariant failedIds == x.trace[k].failed
        invariant 0 <= used && (quotaGb > 0 ==> used == Max0(disk.Tree(x.files) - x.trace[k].freed))
        invariant over <==> NoRoom(x, k, size)
        invariant forall j :: 0 <= j < k ==> NoRoom(x, j, size)
        decreases |x.cand| - k
      {
        NextQuery(x, Some(beforeTs), protectRo, protectIds, k);
        var rows := Where(index, Some(beforeTs), protectRo, protectIds + failedIds);
        if rows == [] {
          return false, k;
        }
        TraceNext(x, k);
        var freed, removed := DeleteClipFiles(rows[0]);
        k := k + 1;
        if !removed {
          failedIds := failedIds + {rows[0].id};
        } else {
          index := Without(index, {rows[0].id});
          used := Max0(used - freed);
        }
        over := Over(size, used, pct, quotaGb);
      }
      ok := true;
    }

    /** Evict clips older than `beforeTs`, oldest first, until `size` more bytes fit. */
    method MakeRoomFor(size: nat, beforeTs: int, pct: int, quotaGb: int, protectRo: bool, protectIds: set<int>)
      returns (ok: bool, ghost k: nat)
      requires Valid()
      modifies this`files, this`index
      ensures var cand := Where(old(index), Some(beforeTs), protectRo, protectIds);
              && AllFiled(cand, old(files))
              && var x := PassOver(disk, times, old(index), old(files), Books(None, 0), cand, pct, quotaGb);
              && x.Filed() && k <= |cand|
              && index == x.trace[k].index && files == x.trace[k].files
              && (forall j :: 0 <= j < k ==> NoRoom(x, j, size))
              && (ok <==> !NoRoom(x, k, size))
              && (!ok ==> k == |cand|)
      ensures var cand := Where(old(index), Some(beforeTs), protectRo, protectIds);
              && k <= |cand| && AllFiled(cand, old(files)) && files == FilesAfter(old(files), cand[..k])
              && (ok <==> Fits(files, Credited(old(files), cand[..k]), old(disk.Tree(files)), size, pct, quotaGb))
              && forall j :: 0 <= j < k ==>
                   !Fits(FilesAfter(old(files), cand[..j]), Credited(old(files), cand[..j]), old(disk.Tree(files)),
                         size, pct, quotaGb)
      ensures Valid()
    {
      ghost var cand := Where(index, Some(beforeTs), protectRo, protectIds);
      CandidatesFit(index, files, Some(beforeTs), protectRo, protectIds);
      ghost var x := PassOver(disk, times, index, files, Books(None, 0), cand, pct, quotaGb);
      assert x.Filed();
      if pct <= 0 && quotaGb <= 0 {
        StandsFirst(x);
        return true, 0;
      }
      ok, k := EvictUntilRoom(x, size, beforeTs, pct, quotaGb, protectRo, protectIds);
      StaysValid(x, k);
      FitsUnlessNoRoom(x, size);
    }
  }

  // ---- What an eviction run guarantees ----

  lemma {:induction false} WithoutMembers(rows: seq<Clip>, ids: set<int>, c: Clip)
    ensures c in Without(rows, ids) <==> c in rows && c.id !in ids
  {
    if rows == [] {
    } else {
      WithoutMembers(rows[..|rows| - 1], ids, c);
      assert rows == rows[..|rows| - 1] + [rows[|rows| - 1]];
    }
  }

  lemma SameRow(index: seq<Clip>, a: Clip, b: Clip)
    requires DistinctIds(index) && a in index && b in index && a.id == b.id
    ensures a == b
  {
    var i :| 0 <= i < |index| && index[i] == a;
    var j :| 0 <= j < |index| && index[j] == b;
  }

  /** Safety: locked rows, protected ids, shielded read-only rows and rows not older than the
      limit keep their row and their files, whatever is evicted. */
  lemma ProtectedSurvive(index: seq<Clip>, files: Files, before: Option<int>, shield: bool, protect: set<int>,
                         k: nat, c: Clip)
    requires AllFiled(index, files) && DistinctIds(index) && OldestFirst(index)
    requires AllFiled(Where(index, before, shield, protect), files) && k <= |Where(index, before, shield, protect)|
    requires c in index
    requires c.locked || (shield && c.readOnly) || (before.Some? && c.timestamp >= before.value) || c.id in protect
    ensures var s := StateAfter(index, files, Where(index, before, shield, protect), k);
            c in s.index && c.id in s.files && s.files[c.id] == files[c.id]
  {
    var cand := Where(index, before, shield, protect);
    var seen := cand[..k];
    forall i | 0 <= i < k ensures cand[i].id != c.id {
      WhereMembers(index, before, shield, protect, cand[i]);
      assert cand[i] in cand;
      if cand[i].id == c.id { SameRow(index, cand[i], c); }
    }
    WithoutMembers(index, Gone(files, seen), c);
    var i :| 0 <= i < |index| && index[i] == c;
    Untouched(files, seen, c.id);
  }

  /** Order across all batches: a row that went is no newer than any eligible row that is
      still there and did not refuse to go. */
  lemma EvictedAreOldest(index: seq<Clip>, files: Files, before: Option<int>, shield: bool, protect: set<int>,
                         k: nat, gone: Clip, kept: Clip)
    requires AllFiled(index, files) && DistinctIds(index) && OldestFirst(index)
    requires AllFiled(Where(index, before, shield, protect), files) && k <= |Where(index, before, shield, protect)|
    requires var s := StateAfter(index, files, Where(index, before, shield, protect), k);
             && gone in index && gone !in s.index
             && kept in s.index && kept.id !in protect && kept.id !in s.failed
             && !kept.locked && !(shield && kept.readOnly) && (before.Some? ==> kept.timestamp < before.value)
    ensures gone.timestamp <= kept.timestamp && !gone.locked && !(shield && gone.readOnly)
    ensures gone.id !in protect && (before.Some? ==> gone.timestamp < before.value)
  {
    var cand := Where(index, before, shield, protect);
    CandidatesFit(index, files, before, shield, protect);
    WithoutMembers(index, Gone(files, cand[..k]), gone);
    WithoutMembers(index, Gone(files, cand[..k]), kept);
    var i :| 0 <= i < |cand[..k]| && files[cand[..k][i].id].Goes() && cand[..k][i].id == gone.id;
    assert cand[i] in cand;
    WhereMembers(index, before, shield, protect, cand[i]);
    SameRow(index, cand[i], gone);
    WhereMembers(index, before, shield, protect, kept);
    var j :| 0 <= j < |cand| && cand[j] == kept;
  }

  /** When room was made under the quota, the bytes really there leave room, up to credit earned
      outside the walked tree. */
  lemma RoomIsReal(a: Archive, x: Pass, k: nat, size: nat)
    requires x.Filed() && x.disk == a.disk && k <= |x.cand|
    requires x.quotaGb > 0 && !a.NoRoom(x, k, size)
    ensures x.disk.Tree(x.trace[k].files) + size < x.quotaGb * GIB + OutsideCredit(x.files, x.cand[..k])
  {
    assert x.Linked(k);
    CreditIsEarned(x.files, x.cand[..k]);
  }

  /** Without credit from outside the tree there is no slack: only recordings outside it,
      unlinked with a known size, are credited there. */
  lemma {:induction false} NoOutsideCredit(files: Files, rows: seq<Clip>)
    requires AllFiled(rows, files)
    ensures OutsideCredit(files, rows) == 0
            <==> forall i :: 0 <= i < |rows| ==> files[rows[i].id].counted || files[rows[i].id].Credit() == 0
  {
    if rows == [] {
    } else {
      var n := |rows| - 1;
      NoOutsideCredit(files, rows[..n]);
      assert forall i :: 0 <= i < n ==> rows[..n][i] == rows[i];
    }
  }
}
