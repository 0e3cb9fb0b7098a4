/** What each operation of the cut editor does, told by channels, segments and the picture alone. */
module EditorRules {
  import opened Basics
  import opened CutEditor
  import opened EditorSession

  // ---- Channels ----

  ghost predicate IsOn(channels: seq<string>, disabled: set<string>, i: int) {
    0 <= i < |channels| && channels[i] !in disabled
  }

  /** The indices of the enabled channels, in order. */
  ghost predicate AreOn(channels: seq<string>, disabled: set<string>, index: seq<int>) {
    Ascending(index) && forall i :: i in index <==> IsOn(channels, disabled, i)
  }

  lemma {:induction false} EnabledAppended(channels: seq<string>, disabled: set<string>, x: string)
    ensures Enabled(channels + [x], disabled) == Enabled(channels, disabled) + if x in disabled then [] else [x]
  {
    if channels == [] {
      assert Enabled([x][1..], disabled) == [];
    } else {
      assert (channels + [x])[1..] == channels[1..] + [x];
      EnabledAppended(channels[1..], disabled, x);
    }
  }

  ghost predicate Lists(channels: seq<string>, index: seq<int>, e: seq<string>) {
    |index| == |e| && forall i :: 0 <= i < |index| ==> 0 <= index[i] < |channels| && e[i] == channels[index[i]]
  }

  lemma ListsMore(channels: seq<string>, index: seq<int>, e: seq<string>)
    requires channels != [] && Lists(channels[..|channels| - 1], index, e)
    ensures var n := |channels| - 1;
            && Lists(channels, index, e) && Lists(channels, index + [n], e + [channels[n]])
            && forall i :: 0 <= i < |index| ==> index[i] < n
  {
  }

  /** The enabled channels are those not turned off, in registry order. */
  lemma {:induction false} EnabledInOrder(channels: seq<string>, disabled: set<string>) returns (index: seq<int>)
    ensures AreOn(channels, disabled, index) && Lists(channels, index, Enabled(channels, disabled))
  {
    hide Enabled, Lists, Ascending;
    if channels == [] {
      index := [];
      NothingOn(disabled);
    } else {
      var n := |channels| - 1;
      var init := EnabledInOrder(channels[..n], disabled);
      assert channels == channels[..n] + [channels[n]];
      EnabledAppended(channels[..n], disabled, channels[n]);
      ListsMore(channels, init, Enabled(channels[..n], disabled));
      AppendedIndex(init, n);
      assert forall i :: IsOn(channels, disabled, i)
                         <==> IsOn(channels[..n], disabled, i) || (i == n && channels[n] !in disabled);
      index := if channels[n] in disabled then init else init + [n];
      assert Enabled(channels[..n], disabled) + [] == Enabled(channels[..n], disabled);
    }
  }

  lemma NothingOn(disabled: set<string>)
    ensures Lists([], [], Enabled([], disabled)) && Ascending([])
  {
  }

  /** The first enabled channel comes before every other one; without any it is the first of all. */
  lemma FirstIsFirst(channels: seq<string>, disabled: set<string>) returns (i: nat)
    requires channels != []
    ensures i < |channels| && FirstEnabled(channels, disabled) == channels[i]
    ensures if exists k :: IsOn(channels, disabled, k)
            then IsOn(channels, disabled, i) && NoneOn(channels, disabled, 0, i)
            else i == 0
  {
    hide Enabled;
    var index := EnabledInOrder(channels, disabled);
    i := 0;
    if index == [] {
      assert forall k :: IsOn(channels, disabled, k) ==> k in index;
    } else {
      i := index[0];
      assert index[0] in index;
      AroundTheEnds(channels, disabled, index);
    }
  }

  ghost predicate NoneOn(channels: seq<string>, disabled: set<string>, lo: int, hi: int) {
    forall k :: lo <= k < hi ==> !IsOn(channels, disabled, k)
  }

  lemma PlaceOf(e: seq<string>, p: nat, key: string)
    requires p < |e| && e[p] == key && forall j, k :: 0 <= j < k < |e| ==> e[j] != e[k]
    ensures IndexOf(e, key) == p
  {
  }

  lemma EnabledAreDistinct(channels: seq<string>, e: seq<string>, index: seq<int>)
    requires forall j, k :: 0 <= j < k < |channels| ==> channels[j] != channels[k]
    requires |e| == |index| && forall i, j :: 0 <= i < j < |index| ==> index[i] < index[j]
    requires forall i :: 0 <= i < |index| ==> 0 <= index[i] < |channels| && e[i] == channels[index[i]]
    ensures forall j, k :: 0 <= j < k < |e| ==> e[j] != e[k]
  {
  }

  lemma Wraps(p: int, n: int)
    requires -1 <= p < n && n > 0
    ensures (p + 1) % n == if p + 1 < n then p + 1 else 0
  {
  }

  lemma NextAt(channels: seq<string>, disabled: set<string>, key: string)
    ensures var e := Enabled(channels, disabled);
            NextEnabled(channels, disabled, key) == if e == [] then key else
              var p := IndexOf(e, key); e[if p + 1 < |e| then p + 1 else 0]
  {
    hide Enabled, IndexOf;
    var e := Enabled(channels, disabled);
    if e != [] { Wraps(IndexOf(e, key), |e|); }
  }

  lemma NextAfter(channels: seq<string>, disabled: set<string>, key: string, p: nat)
    requires p < |Enabled(channels, disabled)| && IndexOf(Enabled(channels, disabled), key) == p
    ensures var e := Enabled(channels, disabled);
            NextEnabled(channels, disabled, key) == e[if p + 1 < |e| then p + 1 else 0]
  {
    hide Enabled, IndexOf, NextEnabled;
    NextAt(channels, disabled, key);
  }

  /** The next enabled channel after an enabled one, round the registry; with no other one, itself. */
  lemma NextIsNext(channels: seq<string>, disabled: set<string>, i: nat) returns (m: int)
    requires forall j, k :: 0 <= j < k < |channels| ==> channels[j] != channels[k]
    requires IsOn(channels, disabled, i)
    ensures IsOn(channels, disabled, m) && NextEnabled(channels, disabled, channels[i]) == channels[m]
    ensures if i < m then NoneOn(channels, disabled, i + 1, m)
            else NoneOn(channels, disabled, i + 1, |channels|) && NoneOn(channels, disabled, 0, m)
  {
    hide Enabled, IndexOf, NoneOn, NextEnabled;
    var index := EnabledInOrder(channels, disabled);
    var e := Enabled(channels, disabled);
    assert i in index;
    var p :| 0 <= p < |index| && index[p] == i;
    EnabledAreDistinct(channels, e, index);
    PlaceOf(e, p, channels[i]);
    NextAfter(channels, disabled, channels[i], p);
    if p + 1 < |e| {
      m := index[p + 1];
      assert index[p + 1] in index;
      Between(channels, disabled, index, p);
    } else {
      m := index[0];
      assert index[0] in index;
      AroundTheEnds(channels, disabled, index);
      assert index[|index| - 1] == i;
    }
  }

  lemma NotAmong(index: seq<int>, k: int, p: nat)
    requires p <= |index| && forall i, j :: 0 <= i < j < |index| ==> index[i] < index[j]
    requires (p == 0 || index[p - 1] < k) && (p == |index| || k < index[p])
    ensures k !in index
  {
    forall x | 0 <= x < |index| ensures index[x] != k {
      if x + 1 < p { assert index[x] < index[p - 1]; }
      if p < x { assert index[p] < index[x]; }
    }
  }

  lemma Between(channels: seq<string>, disabled: set<string>, index: seq<int>, p: nat)
    requires p + 1 < |index| && AreOn(channels, disabled, index)
    ensures index[p] < index[p + 1] && NoneOn(channels, disabled, index[p] + 1, index[p + 1])
  {
    forall k | index[p] + 1 <= k < index[p + 1] ensures !IsOn(channels, disabled, k) {
      NotAmong(index, k, p + 1);
    }
  }

  lemma AroundTheEnds(channels: seq<string>, disabled: set<string>, index: seq<int>)
    requires index != [] && AreOn(channels, disabled, index)
    ensures index[0] <= index[|index| - 1]
    ensures NoneOn(channels, disabled, index[|index| - 1] + 1, |channels|) && NoneOn(channels, disabled, 0, index[0])
  {
    forall k | index[|index| - 1] + 1 <= k < |channels| ensures !IsOn(channels, disabled, k) {
      NotAmong(index, k, |index|);
    }
    forall k | 0 <= k < index[0] ensures !IsOn(channels, disabled, k) {
      NotAmong(index, k, 0);
    }
  }

  /** From a channel that is off, or unknown, the next one is the first enabled. */
  lemma NextFromNowhere(channels: seq<string>, disabled: set<string>, key: string)
    requires channels != [] && !(key in channels && key !in disabled)
    ensures NextEnabled(channels, disabled, key)
            == if exists k :: IsOn(channels, disabled, k) then FirstEnabled(channels, disabled) else key
  {
    hide Enabled, IndexOf, NextEnabled;
    var index := EnabledInOrder(channels, disabled);
    var e := Enabled(channels, disabled);
    EnabledMembers(channels, disabled, key);
    NextAt(channels, disabled, key);
    if k :| IsOn(channels, disabled, k) { assert k in index; }
    if index != [] { assert index[0] in index; }
  }

  /** The insets a segment can have are the enabled channels other than its own, in registry order. */
  lemma InsetsAreTheOthers(channels: seq<string>, disabled: set<string>, camera: string) returns (index: seq<int>)
    ensures Ascending(index) && Lists(channels, index, Insets(channels, disabled, camera))
    ensures forall i :: i in index <==> IsOn(channels, disabled, i) && channels[i] != camera
  {
    hide Lists, Ascending;
    index := EnabledInOrder(channels, disabled + {camera});
  }

  /** An inset goes from off through the options in turn and off again. */
  lemma InsetsTakeTurns(opts: seq<string>, i: nat, other: string)
    requires opts != [] && forall j, k :: 0 <= j < k < |opts| ==> opts[j] != opts[k]
    ensures NextInset(opts, None) == Some(opts[0])
    ensures i + 1 < |opts| ==> NextInset(opts, Some(opts[i])) == Some(opts[i + 1])
    ensures i + 1 == |opts| ==> NextInset(opts, Some(opts[i])) == None
    ensures other !in opts ==> NextInset(opts, Some(other)) == None
  {
  }

  // ---- Operations ----

  /** The edges go to the playhead, kept in the footage and a second apart. */
  lemma EdgesFollowThePlayhead(tl: Timeline, c: Cut, p: int)
    requires tl.channels != []
    ensures var s := Apply(tl, c, SetIn(p));
            && s.outTs == c.outTs && s.disabled == c.disabled
            && (tl.start <= p <= c.outTs - 1000 ==> s.inTs == p) && (p < tl.start ==> s.inTs == tl.start)
            && (tl.start <= c.outTs - 1000 < p ==> s.inTs == c.outTs - 1000)
    ensures var s := Apply(tl, c, SetOut(p));
            && s.inTs == c.inTs && s.disabled == c.disabled
            && (c.inTs + 1000 <= p <= tl.end ==> s.outTs == p) && (p < c.inTs + 1000 ==> s.outTs == c.inTs + 1000)
            && (c.inTs + 1000 <= tl.end < p ==> s.outTs == tl.end)
  {
    hide Clamped, FirstEnabled;
  }

  /** Where the selection grows past the old tiling, the picture at its near end goes on; a selection
      clear of it shows the fallback. */
  lemma ClampedRunsOn(segs: seq<Segment>, a: int, b: int, lo: int, hi: int, fallback: string, t: int)
    requires Tiles(segs, a, b) && lo <= t < hi
    ensures a < hi && lo < b && t < a ==> ViewAt(Clamped(segs, lo, hi, fallback), t) == ViewAt(segs, a)
    ensures a < hi && lo < b && b <= t ==> ViewAt(Clamped(segs, lo, hi, fallback), t) == ViewAt(segs, b - 1)
    ensures hi <= a || b <= lo ==> ViewAt(Clamped(segs, lo, hi, fallback), t) == Some(View(fallback, None))
  {
    hide Inside, Stretch, ViewAt;
    ClampedTiles(segs, a, b, lo, hi, fallback);
    InsideTiles(segs, a, b, lo, hi);
    var kept, out := Inside(segs, lo, hi), Clamped(segs, lo, hi, fallback);
    if a < hi && lo < b {
      SpanIsPositive(segs, a, b);
      StretchKeepsEnds(kept, lo, hi);
      if t < a {
        InsideShows(segs, lo, hi, a);
        TileShows(kept, a, Min(b, hi), 0, a);
        TileShows(out, lo, hi, 0, t);
      }
      if b <= t {
        InsideShows(segs, lo, hi, b - 1);
        TileShows(kept, Max(a, lo), b, |kept| - 1, b - 1);
        TileShows(out, lo, hi, |kept| - 1, t);
      }
    } else {
      StretchKeepsEnds([Segment(lo, hi, fallback, None)], lo, hi);
      TileShows(out, lo, hi, 0, t);
    }
  }

  lemma StretchKeepsEnds(segs: seq<Segment>, lo: int, hi: int)
    requires segs != []
    ensures var out, n := Stretch(segs, lo, hi), |segs| - 1;
            && |out| == |segs| && out[0].start == lo && out[n].end == hi
            && out[0].camera == segs[0].camera && out[0].pip == segs[0].pip
            && out[n].camera == segs[n].camera && out[n].pip == segs[n].pip
            && (n > 0 ==> out[0].end == segs[0].end && out[n].start == segs[n].start)
  {
  }

  /** A switch is added exactly inside the selection and 200 ms from both ends of the segment it cuts;
      otherwise nothing changes. */
  lemma SwitchNeedsRoom(tl: Timeline, c: Cut, t: int, i: nat)
    requires Valid(tl, c) && i < |c.segments| && c.segments[i].start <= t < c.segments[i].end
    ensures Switched(tl, c, t) == c
            <==> !(c.inTs < t < c.outTs && t - c.segments[i].start >= 200 && c.segments[i].end - t >= 200)
    ensures SegAt(c, t) == i
  {
    hide NextEnabled, AllOnEnabled, Enabled;
    HolderIsFirst(c.segments, c.inTs, c.outTs, i, t);
    var out := Switched(tl, c, t);
    if c.inTs < t < c.outTs && t - c.segments[i].start >= 200 && c.segments[i].end - t >= 200 {
      assert |out.segments| == |c.segments| + 1;
    }
  }

  lemma HolderIsFirst(segs: seq<Segment>, lo: int, hi: int, i: nat, t: int)
    requires Tiles(segs, lo, hi) && i < |segs| && segs[i].start <= t < segs[i].end
    ensures SegFrom(segs, t, 0) == i
  {
    var k := SegFrom(segs, t, 0);
    TileShowsOnce(segs, lo, hi, i, k);
    TileShowsOnce(segs, lo, hi, k, i);
  }

  /** A camera change keeps the times of its segment, takes the next channel, and drops an inset that would
      show the same one; it needs two enabled channels. */
  lemma CameraLaw(tl: Timeline, c: Cut, i: int)
    requires tl.channels != []
    ensures var s := Apply(tl, c, CycleCamera(i));
            if !(0 <= i < |c.segments|) || |Enabled(tl.channels, c.disabled)| < 2 then s == c
            else
              var was := c.segments[i];
              var camera := NextEnabled(tl.channels, c.disabled, was.camera);
              s == c.(segments := c.segments[i := Segment(was.start, was.end, camera,
                                                          if was.pip == Some(camera) then None else was.pip)])
  {
    hide Enabled, NextEnabled;
  }

  /** An inset change keeps times and camera and takes the next option among the other enabled channels. */
  lemma InsetLaw(tl: Timeline, c: Cut, i: int)
    requires tl.channels != []
    ensures var s := Apply(tl, c, CyclePip(i));
            if !(0 <= i < |c.segments|) || Insets(tl.channels, c.disabled, c.segments[i].camera) == [] then s == c
            else
              var was := c.segments[i];
              s == c.(segments := c.segments[i := Segment(was.start, was.end, was.camera,
                        NextInset(Insets(tl.channels, c.disabled, was.camera), was.pip))])
  {
    hide Insets, NextInset;
  }

  /** Turning a channel on only enables it. Turning one off, unless it is the last, moves its segments to the
      first channel still enabled, drops its insets, and changes nothing else. */
  lemma ToggleLaw(tl: Timeline, c: Cut, key: string)
    requires tl.channels != []
    ensures var s := Apply(tl, c, Toggle(key));
            && s.inTs == c.inTs && s.outTs == c.outTs
            && (key in c.disabled ==> s.disabled == c.disabled - {key} && s.segments == c.segments)
            && (key !in c.disabled && |Enabled(tl.channels, c.disabled)| <= 1 ==> s == c)
            && (key !in c.disabled && |Enabled(tl.channels, c.disabled)| > 1 ==>
                  && s.disabled == c.disabled + {key} && |s.segments| == |c.segments|
                  && forall i :: 0 <= i < |s.segments| ==>
                       && s.segments[i].start == c.segments[i].start && s.segments[i].end == c.segments[i].end
                       && s.segments[i].camera == (if c.segments[i].camera != key then c.segments[i].camera
                                                   else FirstEnabled(tl.channels, c.disabled + {key}))
                       && s.segments[i].pip == if c.segments[i].pip == Some(key) then None else c.segments[i].pip)
  {
    hide Enabled, FirstEnabled;
  }

  /** Removing a switch merges two segments into one on the earlier one's picture; the first and the last
      boundary are not switches. */
  lemma RemoveLaw(tl: Timeline, c: Cut, i: int)
    requires tl.channels != []
    ensures var s := Apply(tl, c, RemoveSwitch(i));
            if i < 1 || i >= |c.segments| then s == c
            else
              && s == c.(segments := s.segments) && |s.segments| == |c.segments| - 1
              && (forall k :: 0 <= k < i - 1 ==> s.segments[k] == c.segments[k])
              && s.segments[i - 1] == Segment(c.segments[i - 1].start, c.segments[i].end,
                                              c.segments[i - 1].camera, c.segments[i - 1].pip)
              && forall k :: i <= k < |s.segments| ==> s.segments[k] == c.segments[k + 1]
  {
  }

  /** A cleared editor shows the whole footage on the first channel, everything enabled. */
  lemma ClearLaw(tl: Timeline, c: Cut)
    requires tl.channels != []
    ensures Apply(tl, c, Clear) == Cut(tl.start, tl.end, [Segment(tl.start, tl.end, tl.channels[0], None)], {})
  {
    NothingDisabled(tl.channels);
  }

  // ---- Export ----

  /** The export of a valid cut: piece by piece the segments, with every inset that shows another enabled
      channel and no other. */
  lemma ExportLaw(tl: Timeline, c: Cut, i: nat)
    requires Valid(tl, c) && i < |c.segments|
    ensures |Exported(c.segments, c.disabled)| == |c.segments|
    ensures var p, s := Exported(c.segments, c.disabled)[i], c.segments[i];
            && p.channel == s.camera && p.start == s.start && p.end == s.end
            && (if s.pip.None? || s.pip.value == s.camera || s.pip.value in c.disabled then p.pip.None?
                else p.pip == s.pip)
  {
    hide Exported, Enabled, Tiles;
    assert forall k :: 0 <= k < |c.segments| ==> OnEnabled(tl, c.disabled, c.segments[k]);
    NothingFiltered(c.segments, c.disabled);
  }

  /** Segments of channels turned off are left out, the others stay in order. */
  lemma {:induction false} ExportJoins(a: seq<Segment>, b: seq<Segment>, s: Segment, disabled: set<string>)
    ensures Exported(a + b, disabled) == Exported(a, disabled) + Exported(b, disabled)
    ensures s.camera in disabled ==> Exported([s], disabled) == []
    ensures s.camera !in disabled ==> |Exported([s], disabled)| == 1 && Exported([s], disabled)[0].channel == s.camera
  {
    hide PieceOf;
    assert [s][..0] == [];
    OnePiece(s, disabled);
    if b == [] {
      assert a + b == a;
    } else {
      assert (a + b)[..|a + b| - 1] == a + b[..|b| - 1];
      ExportJoins(a, b[..|b| - 1], s, disabled);
    }
  }

  lemma OnePiece(s: Segment, disabled: set<string>)
    ensures PieceOf(s, disabled).channel == s.camera
  {
  }
}
