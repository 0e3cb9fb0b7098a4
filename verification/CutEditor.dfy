/** The cut editor of web/static/timeline.js: a selection tiled by camera segments. Times are whole
    milliseconds. */
module CutEditor {
  import opened Basics

  datatype Segment = Segment(start: int, end: int, camera: string, pip: Option<string>)

  /** What is being cut: the channels in registry order and the bounds of the footage. */
  datatype Timeline = Timeline(channels: seq<string>, start: int, end: int)
  {
    ghost predicate Usable() { channels != [] && start < end }
  }

  datatype Cut = Cut(inTs: int, outTs: int, segments: seq<Segment>, disabled: set<string>)

  const MIN_SELECTION := 1000
  const MIN_HALF := 200

  function Max(a: int, b: int): (m: int)
    ensures m >= a && m >= b && (m == a || m == b)
  {
    if a >= b then a else b
  }

  function Min(a: int, b: int): (m: int)
    ensures m <= a && m <= b && (m == a || m == b)
  {
    if a <= b then a else b
  }

  /** The nearest value of the range, or its lower end when it is empty. */
  function Clamp(v: int, lo: int, hi: int): (r: int)
    ensures lo <= v <= hi ==> r == v
    ensures v < lo || hi < lo ==> r == lo
    ensures lo <= hi < v ==> r == hi
  {
    Max(lo, Min(hi, v))
  }

  // ---- Channels ----

  function Enabled(channels: seq<string>, disabled: set<string>): seq<string> {
    if channels == [] then []
    else (if channels[0] in disabled then [] else [channels[0]]) + Enabled(channels[1..], disabled)
  }

  function IndexOf(keys: seq<string>, key: string): (i: int)
    ensures -1 <= i < |keys| && (i >= 0 ==> keys[i] == key) && (i < 0 <==> key !in keys)
  {
    if keys == [] then -1
    else if keys[0] == key then 0
    else
      var i := IndexOf(keys[1..], key);
      if i < 0 then -1 else i + 1
  }

  function FirstEnabled(channels: seq<string>, disabled: set<string>): string
    requires channels != []
  {
    var e := Enabled(channels, disabled);
    if e != [] then e[0] else channels[0]
  }

  function NextEnabled(channels: seq<string>, disabled: set<string>, key: string): string {
    var e := Enabled(channels, disabled);
    if e == [] then key else e[(IndexOf(e, key) + 1) % |e|]
  }

  lemma {:induction false} EnabledMembers(channels: seq<string>, disabled: set<string>, key: string)
    ensures key in Enabled(channels, disabled) <==> key in channels && key !in disabled
  {
    if channels != [] {
      EnabledMembers(channels[1..], disabled, key);
      assert key in channels <==> key == channels[0] || key in channels[1..];
    }
  }

  lemma FirstIsEnabled(channels: seq<string>, disabled: set<string>)
    requires Enabled(channels, disabled) != []
    ensures channels != []
    ensures FirstEnabled(channels, disabled) in channels && FirstEnabled(channels, disabled) !in disabled
  {
    var e := Enabled(channels, disabled);
    EnabledMembers(channels, disabled, e[0]);
    assert e[0] in e;
  }

  lemma NextIsEnabled(channels: seq<string>, disabled: set<string>, key: string)
    requires Enabled(channels, disabled) != []
    ensures NextEnabled(channels, disabled, key) in channels && NextEnabled(channels, disabled, key) !in disabled
  {
    var e := Enabled(channels, disabled);
    EnabledMembers(channels, disabled, NextEnabled(channels, disabled, key));
    assert e[(IndexOf(e, key) + 1) % |e|] in e;
  }

  // ---- Tilings ----

  ghost predicate Tiles(segs: seq<Segment>, lo: int, hi: int) {
    && segs != [] && segs[0].start == lo && segs[|segs| - 1].end == hi
    && (forall i :: 0 <= i < |segs| ==> segs[i].start < segs[i].end)
    && forall i, k :: 0 <= i < k < |segs| && k == i + 1 ==> segs[i].end == segs[k].start
  }

  datatype View = View(camera: string, pip: Option<string>)

  /** What is shown at an instant. */
  function ViewAt(segs: seq<Segment>, t: int): Option<View> {
    if segs == [] then None
    else if segs[0].start <= t < segs[0].end then Some(View(segs[0].camera, segs[0].pip))
    else ViewAt(segs[1..], t)
  }

  /** In a tiling the segment that holds an instant decides what is shown. */
  lemma {:induction false} TileShows(segs: seq<Segment>, lo: int, hi: int, i: nat, t: int)
    requires Tiles(segs, lo, hi) && i < |segs| && segs[i].start <= t < segs[i].end
    ensures ViewAt(segs, t) == Some(View(segs[i].camera, segs[i].pip))
  {
    if i > 0 {
      StartsAfter(segs, lo, hi, i);
      TileShows(segs[1..], segs[1].start, hi, i - 1, t);
    }
  }

  lemma {:induction false} StartsAfter(segs: seq<Segment>, lo: int, hi: int, i: nat)
    requires Tiles(segs, lo, hi) && 0 < i < |segs|
    ensures segs[0].end <= segs[i].start
  {
    if i > 1 { StartsAfter(segs, lo, hi, i - 1); }
  }

  // ---- Clamping to the selection ----

  function CutTo(s: Segment, lo: int, hi: int): Segment {
    s.(start := Max(s.start, lo), end := Min(s.end, hi))
  }

  predicate Overlaps(s: Segment, lo: int, hi: int) { s.end > lo && s.start < hi }

  function Inside(segs: seq<Segment>, lo: int, hi: int): seq<Segment> {
    if segs == [] then []
    else if Overlaps(segs[0], lo, hi) then [CutTo(segs[0], lo, hi)] + Inside(segs[1..], lo, hi)
    else Inside(segs[1..], lo, hi)
  }

  function Stretch(segs: seq<Segment>, lo: int, hi: int): seq<Segment>
    requires segs != []
  {
    var first := segs[0 := segs[0].(start := lo)];
    first[|segs| - 1 := first[|segs| - 1].(end := hi)]
  }

  function Clamped(segs: seq<Segment>, lo: int, hi: int, fallback: string): seq<Segment> {
    var kept := Inside(segs, lo, hi);
    Stretch(if kept == [] then [Segment(lo, hi, fallback, None)] else kept, lo, hi)
  }

  lemma RestTiles(segs: seq<Segment>, lo: int, hi: int)
    requires Tiles(segs, lo, hi) && |segs| > 1
    ensures Tiles(segs[1..], segs[0].end, hi) && segs[0].end < hi
  {
    var rest := segs[1..];
    assert forall i :: 0 <= i < |rest| ==> rest[i] == segs[i + 1];
    SpanIsPositive(rest, segs[0].end, hi);
  }

  lemma {:induction false} SpanIsPositive(segs: seq<Segment>, lo: int, hi: int)
    requires Tiles(segs, lo, hi)
    ensures lo < hi
  {
    if |segs| > 1 {
      StartsAfter(segs, lo, hi, |segs| - 1);
    }
  }

  lemma TilesMore(s: Segment, rest: seq<Segment>, hi: int)
    requires s.start < s.end && (rest != [] ==> Tiles(rest, s.end, hi)) && (rest == [] ==> s.end == hi)
    ensures Tiles([s] + rest, s.start, hi)
  {
    var segs := [s] + rest;
    assert forall i :: 0 < i < |segs| ==> segs[i] == rest[i - 1];
  }

  /** The segments inside a window tile the part of the window they reach. */
  lemma {:induction false} InsideTiles(segs: seq<Segment>, a: int, b: int, lo: int, hi: int)
    requires Tiles(segs, a, b) && lo < hi
    ensures if a < hi && lo < b then Tiles(Inside(segs, lo, hi), Max(a, lo), Min(b, hi)) else Inside(segs, lo, hi) == []
  {
    SpanIsPositive(segs, a, b);
    var s, rest := segs[0], segs[1..];
    if rest == [] {
      assert Inside(rest, lo, hi) == [];
      if Overlaps(s, lo, hi) { TilesMore(CutTo(s, lo, hi), [], Min(b, hi)); }
    } else {
      RestTiles(segs, a, b);
      InsideTiles(rest, s.end, b, lo, hi);
      if Overlaps(s, lo, hi) { TilesMore(CutTo(s, lo, hi), Inside(rest, lo, hi), Min(b, hi)); }
    }
  }

  lemma StretchTiles(segs: seq<Segment>, a: int, b: int, lo: int, hi: int)
    requires Tiles(segs, a, b) && lo <= a && b <= hi
    ensures Tiles(Stretch(segs, lo, hi), lo, hi)
  {
    var out := Stretch(segs, lo, hi);
    forall i, k | 0 <= i < k < |out| && k == i + 1 ensures out[i].end == out[k].start {
      assert segs[i].end == segs[k].start;
    }
  }

  /** Clamping leaves a tiling of the new selection, whatever was there. */
  lemma ClampedTiles(segs: seq<Segment>, a: int, b: int, lo: int, hi: int, fallback: string)
    requires Tiles(segs, a, b) && lo < hi
    ensures Tiles(Clamped(segs, lo, hi, fallback), lo, hi)
  {
    hide Inside, Stretch;
    InsideTiles(segs, a, b, lo, hi);
    if a < hi && lo < b {
      StretchTiles(Inside(segs, lo, hi), Max(a, lo), Min(b, hi), lo, hi);
    } else {
      TilesMore(Segment(lo, hi, fallback, None), [], hi);
      assert [Segment(lo, hi, fallback, None)] + [] == [Segment(lo, hi, fallback, None)];
      StretchTiles([Segment(lo, hi, fallback, None)], lo, hi, lo, hi);
    }
  }

  lemma {:induction false} InsideShows(segs: seq<Segment>, lo: int, hi: int, t: int)
    requires lo <= t < hi
    ensures ViewAt(Inside(segs, lo, hi), t) == ViewAt(segs, t)
  {
    if segs != [] {
      InsideShows(segs[1..], lo, hi, t);
      var s := segs[0];
      if Overlaps(s, lo, hi) {
        var rest := Inside(segs[1..], lo, hi);
        assert ([CutTo(s, lo, hi)] + rest)[1..] == rest;
      }
    }
  }

  lemma StretchShows(segs: seq<Segment>, a: int, b: int, lo: int, hi: int, t: int)
    requires Tiles(segs, a, b) && lo <= a && b <= hi && a <= t < b
    ensures ViewAt(Stretch(segs, lo, hi), t) == ViewAt(segs, t)
  {
    StretchTiles(segs, a, b, lo, hi);
    var i := Holder(segs, a, b, t);
    TileShows(segs, a, b, i, t);
    TileShows(Stretch(segs, lo, hi), lo, hi, i, t);
  }

  /** The segment that holds an instant of a tiling. */
  lemma {:induction false} Holder(segs: seq<Segment>, lo: int, hi: int, t: int) returns (i: nat)
    requires Tiles(segs, lo, hi) && lo <= t < hi
    ensures i < |segs| && segs[i].start <= t < segs[i].end
  {
    if t < segs[0].end {
      i := 0;
    } else {
      RestTiles(segs, lo, hi);
      var k := Holder(segs[1..], segs[0].end, hi, t);
      i := k + 1;
    }
  }

  /** Moving an edge of the selection changes nothing of what is shown inside both selections. */
  lemma ClampKeepsViews(segs: seq<Segment>, a: int, b: int, lo: int, hi: int, fallback: string, t: int)
    requires Tiles(segs, a, b) && lo <= t < hi && a <= t < b
    ensures ViewAt(Clamped(segs, lo, hi, fallback), t) == ViewAt(segs, t)
  {
    hide Inside, Stretch, ViewAt;
    InsideTiles(segs, a, b, lo, hi);
    InsideShows(segs, lo, hi, t);
    StretchShows(Inside(segs, lo, hi), Max(a, lo), Min(b, hi), lo, hi, t);
  }

  // ---- Operations ----

  datatype Op =
    | SetIn(playhead: int)
    | SetOut(playhead: int)
    | AddSwitch(playhead: int)
    | RemoveSwitch(i: int)
    | CycleCamera(i: int)
    | CyclePip(i: int)
    | Toggle(key: string)
    | Clear

  function Initial(tl: Timeline): Cut
    requires tl.channels != []
  {
    Cut(tl.start, tl.end, [Segment(tl.start, tl.end, FirstEnabled(tl.channels, {}), None)], {})
  }

  /** The segment under an instant, counted from `from` on. */
  function SegFrom(segs: seq<Segment>, t: int, from: nat): (i: nat)
    requires from <= |segs|
    ensures from <= i <= |segs| && (i < |segs| ==> segs[i].start <= t < segs[i].end)
    ensures forall k :: from <= k < i ==> !(segs[k].start <= t < segs[k].end)
    decreases |segs| - from
  {
    if from == |segs| || segs[from].start <= t < segs[from].end then from else SegFrom(segs, t, from + 1)
  }

  function SegAt(c: Cut, t: int): nat {
    var i := SegFrom(c.segments, t, 0);
    if i < |c.segments| then i
    else if t >= c.outTs && c.segments != [] then |c.segments| - 1 else 0
  }

  function Split(s: Segment, t: int, camera: string): seq<Segment> {
    [s.(end := t), Segment(t, s.end, camera, None)]
  }

  function Recoloured(s: Segment, camera: string): Segment {
    s.(camera := camera, pip := if s.pip == Some(camera) then None else s.pip)
  }

  /** The enabled channels an inset may show. */
  function Insets(channels: seq<string>, disabled: set<string>, camera: string): seq<string> {
    Enabled(channels, disabled + {camera})
  }

  function NextInset(opts: seq<string>, pip: Option<string>): Option<string>
    requires opts != []
  {
    if pip.None? then Some(opts[0])
    else
      var i := IndexOf(opts, pip.value);
      if i < 0 || i + 1 >= |opts| then None else Some(opts[i + 1])
  }

  function WithoutChannel(s: Segment, key: string, fallback: string): Segment {
    s.(camera := if s.camera == key then fallback else s.camera, pip := if s.pip == Some(key) then None else s.pip)
  }

  function WithoutChannelAll(segs: seq<Segment>, key: string, fallback: string): seq<Segment> {
    seq(|segs|, i requires 0 <= i < |segs| => WithoutChannel(segs[i], key, fallback))
  }

  function Apply(tl: Timeline, c: Cut, op: Op): Cut
    requires tl.channels != []
  {
    match op
    case SetIn(p) =>
      var lo := Clamp(p, tl.start, c.outTs - MIN_SELECTION);
      c.(inTs := lo, segments := Clamped(c.segments, lo, c.outTs, FirstEnabled(tl.channels, c.disabled)))
    case SetOut(p) =>
      var hi := Clamp(p, c.inTs + MIN_SELECTION, tl.end);
      c.(outTs := hi, segments := Clamped(c.segments, c.inTs, hi, FirstEnabled(tl.channels, c.disabled)))
    case AddSwitch(t) => Switched(tl, c, t)
    case RemoveSwitch(i) =>
      if i < 1 || i >= |c.segments| then c
      else c.(segments := c.segments[..i - 1] + [c.segments[i - 1].(end := c.segments[i].end)] + c.segments[i + 1..])
    case CycleCamera(i) =>
      if i < 0 || i >= |c.segments| || |Enabled(tl.channels, c.disabled)| < 2 then c
      else
        var s := c.segments[i];
        c.(segments := c.segments[i := Recoloured(s, NextEnabled(tl.channels, c.disabled, s.camera))])
    case CyclePip(i) =>
      if i < 0 || i >= |c.segments| then c
      else
        var s := c.segments[i];
        var opts := Insets(tl.channels, c.disabled, s.camera);
        if opts == [] then c else c.(segments := c.segments[i := s.(pip := NextInset(opts, s.pip))])
    case Toggle(key) =>
      if key in c.disabled then c.(disabled := c.disabled - {key})
      else if |Enabled(tl.channels, c.disabled)| <= 1 then c
      else
        var off := c.disabled + {key};
        c.(disabled := off, segments := WithoutChannelAll(c.segments, key, FirstEnabled(tl.channels, off)))
    case Clear => Initial(tl)
  }

  function Switched(tl: Timeline, c: Cut, t: int): Cut {
    if t <= c.inTs || t >= c.outTs || c.segments == [] then c
    else
      var i := SegAt(c, t);
      var s := c.segments[i];
      if t - s.start < MIN_HALF || s.end - t < MIN_HALF then c
      else
        var halves := Split(s, t, NextEnabled(tl.channels, c.disabled, s.camera));
        c.(segments := c.segments[..i] + halves + c.segments[i + 1..])
  }

  // ---- What every run keeps ----

  ghost predicate OnEnabled(tl: Timeline, disabled: set<string>, s: Segment) {
    && s.camera in tl.channels && s.camera !in disabled
    && (s.pip.Some? ==> s.pip.value in tl.channels && s.pip.value !in disabled)
  }

  ghost predicate AllOnEnabled(tl: Timeline, disabled: set<string>, segs: seq<Segment>) {
    forall i :: 0 <= i < |segs| ==> OnEnabled(tl, disabled, segs[i])
  }

  /** The segments tile a selection of positive length that starts inside the footage, show
      enabled channels only, and at least one channel is enabled. */
  ghost predicate Valid(tl: Timeline, c: Cut) {
    && Tiles(c.segments, c.inTs, c.outTs) && tl.start <= c.inTs < c.outTs
    && AllOnEnabled(tl, c.disabled, c.segments)
    && Enabled(tl.channels, c.disabled) != []
  }

  lemma {:induction false} NothingDisabled(channels: seq<string>)
    ensures Enabled(channels, {}) == channels
  {
    if channels != [] { NothingDisabled(channels[1..]); }
  }

  lemma InitialIsValid(tl: Timeline)
    requires tl.Usable()
    ensures Valid(tl, Initial(tl))
  {
    NothingDisabled(tl.channels);
    FirstIsEnabled(tl.channels, {});
  }

  lemma {:induction false} InsideOnEnabled(tl: Timeline, disabled: set<string>, segs: seq<Segment>, lo: int, hi: int)
    requires AllOnEnabled(tl, disabled, segs)
    ensures AllOnEnabled(tl, disabled, Inside(segs, lo, hi))
  {
    if segs != [] {
      InsideOnEnabled(tl, disabled, segs[1..], lo, hi);
      assert OnEnabled(tl, disabled, segs[0]);
    }
  }

  lemma StretchOnEnabled(tl: Timeline, disabled: set<string>, segs: seq<Segment>, lo: int, hi: int)
    requires AllOnEnabled(tl, disabled, segs) && segs != []
    ensures AllOnEnabled(tl, disabled, Stretch(segs, lo, hi))
  {
    var out := Stretch(segs, lo, hi);
    forall i | 0 <= i < |out| ensures OnEnabled(tl, disabled, out[i]) {
      assert OnEnabled(tl, disabled, segs[i]);
    }
  }

  lemma ClampedOnEnabled(tl: Timeline, c: Cut, lo: int, hi: int)
    requires AllOnEnabled(tl, c.disabled, c.segments) && Enabled(tl.channels, c.disabled) != []
    ensures tl.channels != []
    ensures AllOnEnabled(tl, c.disabled, Clamped(c.segments, lo, hi, FirstEnabled(tl.channels, c.disabled)))
  {
    hide Inside, Stretch;
    FirstIsEnabled(tl.channels, c.disabled);
    InsideOnEnabled(tl, c.disabled, c.segments, lo, hi);
    var kept := Inside(c.segments, lo, hi);
    var whole := [Segment(lo, hi, FirstEnabled(tl.channels, c.disabled), None)];
    StretchOnEnabled(tl, c.disabled, if kept == [] then whole else kept, lo, hi);
  }

  lemma EdgeMoveIsValid(tl: Timeline, c: Cut, op: Op)
    requires Valid(tl, c) && (op.SetIn? || op.SetOut?)
    ensures tl.channels != [] && Valid(tl, Apply(tl, c, op))
  {
    hide Clamped, Enabled, FirstEnabled, Tiles, AllOnEnabled;
    var lo := if op.SetIn? then Clamp(op.playhead, tl.start, c.outTs - MIN_SELECTION) else c.inTs;
    var hi := if op.SetIn? then c.outTs else Clamp(op.playhead, c.inTs + MIN_SELECTION, tl.end);
    ClampedOnEnabled(tl, c, lo, hi);
    ClampedTiles(c.segments, c.inTs, c.outTs, lo, hi, FirstEnabled(tl.channels, c.disabled));
  }

  lemma SegAtHolds(c: Cut, t: int)
    requires Tiles(c.segments, c.inTs, c.outTs) && c.inTs <= t < c.outTs
    ensures SegAt(c, t) < |c.segments| && c.segments[SegAt(c, t)].start <= t < c.segments[SegAt(c, t)].end
  {
    var i := Holder(c.segments, c.inTs, c.outTs, t);
  }

  lemma SpliceTiles(segs: seq<Segment>, lo: int, hi: int, i: nat, t: int, camera: string)
    requires Tiles(segs, lo, hi) && i < |segs| && segs[i].start < t < segs[i].end
    ensures Tiles(segs[..i] + Split(segs[i], t, camera) + segs[i + 1..], lo, hi)
  {
    var out := segs[..i] + Split(segs[i], t, camera) + segs[i + 1..];
    forall k ensures (0 <= k < i ==> out[k] == segs[k]) && (i + 1 < k < |out| ==> out[k] == segs[k - 1]) {}
    forall k, m | 0 <= k < m < |out| && m == k + 1 ensures out[k].end == out[m].start {
      if m <= i { assert segs[k].end == segs[m].start; }
      if k > i { assert segs[k - 1].end == segs[m - 1].start; }
    }
  }

  lemma SwitchIsValid(tl: Timeline, c: Cut, t: int)
    requires Valid(tl, c)
    ensures Valid(tl, Switched(tl, c, t))
  {
    hide Enabled, NextEnabled, Tiles, SegAt;
    if c.inTs < t < c.outTs && c.segments != [] {
      SegAtHolds(c, t);
      var i := SegAt(c, t);
      var s := c.segments[i];
      assert OnEnabled(tl, c.disabled, s);
      var camera := NextEnabled(tl.channels, c.disabled, s.camera);
      NextIsEnabled(tl.channels, c.disabled, s.camera);
      if t - s.start >= MIN_HALF && s.end - t >= MIN_HALF {
        SpliceTiles(c.segments, c.inTs, c.outTs, i, t, camera);
      }
    }
  }

  lemma MergeTiles(segs: seq<Segment>, lo: int, hi: int, i: nat)
    requires Tiles(segs, lo, hi) && 1 <= i < |segs|
    ensures Tiles(segs[..i - 1] + [segs[i - 1].(end := segs[i].end)] + segs[i + 1..], lo, hi)
  {
    var out := segs[..i - 1] + [segs[i - 1].(end := segs[i].end)] + segs[i + 1..];
    assert segs[i - 1].end == segs[i].start;
    forall k ensures (0 <= k < i - 1 ==> out[k] == segs[k]) && (i - 1 < k < |out| ==> out[k] == segs[k + 1]) {}
    forall k, m | 0 <= k < m < |out| && m == k + 1 ensures out[k].end == out[m].start {
      if m <= i - 1 { assert segs[k].end == segs[m].start; }
      if k >= i - 1 { assert segs[k + 1].end == segs[m + 1].start; }
    }
  }

  lemma MergeIsValid(tl: Timeline, c: Cut, i: int)
    requires Valid(tl, c)
    ensures tl.channels != [] && Valid(tl, Apply(tl, c, RemoveSwitch(i)))
  {
    hide Enabled, Tiles;
    SomeChannel(tl, c.disabled);
    if 1 <= i < |c.segments| {
      MergeTiles(c.segments, c.inTs, c.outTs, i);
      assert OnEnabled(tl, c.disabled, c.segments[i - 1]);
    }
  }

  lemma SomeChannel(tl: Timeline, disabled: set<string>)
    requires Enabled(tl.channels, disabled) != []
    ensures tl.channels != []
  {
  }

  lemma {:induction false} InsetsMembers(channels: seq<string>, disabled: set<string>, camera: string, key: string)
    ensures key in Insets(channels, disabled, camera) <==> key in channels && key !in disabled && key != camera
  {
    EnabledMembers(channels, disabled + {camera}, key);
  }

  /** Same times, other pictures: still a tiling. */
  lemma SameTimesTile(segs: seq<Segment>, out: seq<Segment>, lo: int, hi: int)
    requires Tiles(segs, lo, hi) && |out| == |segs|
    requires forall i :: 0 <= i < |segs| ==> out[i].start == segs[i].start && out[i].end == segs[i].end
    ensures Tiles(out, lo, hi)
  {
  }

  lemma NextInsetIsEnabled(tl: Timeline, disabled: set<string>, s: Segment)
    requires Insets(tl.channels, disabled, s.camera) != []
    ensures var p := NextInset(Insets(tl.channels, disabled, s.camera), s.pip);
            p.Some? ==> p.value in tl.channels && p.value !in disabled && p.value != s.camera
  {
    var opts := Insets(tl.channels, disabled, s.camera);
    var p := NextInset(opts, s.pip);
    if p.Some? {
      assert p.value in opts;
      InsetsMembers(tl.channels, disabled, s.camera, p.value);
    }
  }

  lemma CycleIsValid(tl: Timeline, c: Cut, op: Op)
    requires Valid(tl, c) && (op.CycleCamera? || op.CyclePip?)
    ensures tl.channels != [] && Valid(tl, Apply(tl, c, op))
  {
    hide Enabled, NextEnabled, Insets, NextInset, Tiles;
    SomeChannel(tl, c.disabled);
    var after := Apply(tl, c, op);
    if 0 <= op.i < |c.segments| {
      var s := c.segments[op.i];
      assert OnEnabled(tl, c.disabled, s);
      NextIsEnabled(tl.channels, c.disabled, s.camera);
      if Insets(tl.channels, c.disabled, s.camera) != [] { NextInsetIsEnabled(tl, c.disabled, s); }
      SameTimesTile(c.segments, after.segments, c.inTs, c.outTs);
    }
  }

  lemma {:induction false} OneFewer(channels: seq<string>, disabled: set<string>, key: string)
    requires forall i, k :: 0 <= i < k < |channels| ==> channels[i] != channels[k]
    ensures |Enabled(channels, disabled + {key})| + 1 >= |Enabled(channels, disabled)|
  {
    if channels != [] {
      if channels[0] == key {
        Untouched(channels[1..], disabled, key);
      } else {
        OneFewer(channels[1..], disabled, key);
      }
    }
  }

  lemma {:induction false} Untouched(channels: seq<string>, disabled: set<string>, key: string)
    requires key !in channels
    ensures Enabled(channels, disabled + {key}) == Enabled(channels, disabled)
  {
    if channels != [] { Untouched(channels[1..], disabled, key); }
  }

  lemma {:induction false} EnabledGrows(channels: seq<string>, disabled: set<string>, key: string)
    requires Enabled(channels, disabled) != []
    ensures Enabled(channels, disabled - {key}) != []
  {
    var k := Enabled(channels, disabled)[0];
    assert k in Enabled(channels, disabled);
    EnabledMembers(channels, disabled, k);
    EnabledMembers(channels, disabled - {key}, k);
  }

  ghost predicate DistinctChannels(tl: Timeline) {
    forall i, k :: 0 <= i < k < |tl.channels| ==> tl.channels[i] != tl.channels[k]
  }

  lemma ToggleIsValid(tl: Timeline, c: Cut, key: string)
    requires Valid(tl, c) && DistinctChannels(tl)
    ensures tl.channels != [] && Valid(tl, Apply(tl, c, Toggle(key)))
  {
    hide Enabled, FirstEnabled, Tiles;
    SomeChannel(tl, c.disabled);
    EnabledGrows(tl.channels, c.disabled, key);
    if key !in c.disabled && |Enabled(tl.channels, c.disabled)| > 1 {
      var off := c.disabled + {key};
      OneFewer(tl.channels, c.disabled, key);
      FirstIsEnabled(tl.channels, off);
      var out := WithoutChannelAll(c.segments, key, FirstEnabled(tl.channels, off));
      SameTimesTile(c.segments, out, c.inTs, c.outTs);
      forall i | 0 <= i < |out| ensures OnEnabled(tl, off, out[i]) {
        assert OnEnabled(tl, c.disabled, c.segments[i]);
      }
    }
  }

  lemma StepIsValid(tl: Timeline, c: Cut, op: Op)
    requires tl.Usable() && DistinctChannels(tl) && Valid(tl, c)
    ensures Valid(tl, Apply(tl, c, op))
  {
    hide Apply, Valid, Initial;
    match op
    case SetIn(_) => EdgeMoveIsValid(tl, c, op);
    case SetOut(_) => EdgeMoveIsValid(tl, c, op);
    case AddSwitch(t) => SwitchIsValid(tl, c, t); AddIsSwitched(tl, c, t);
    case RemoveSwitch(i) => MergeIsValid(tl, c, i);
    case CycleCamera(_) => CycleIsValid(tl, c, op);
    case CyclePip(_) => CycleIsValid(tl, c, op);
    case Toggle(key) => ToggleIsValid(tl, c, key);
    case Clear => InitialIsValid(tl); ClearIsInitial(tl, c);
  }

  lemma AddIsSwitched(tl: Timeline, c: Cut, t: int)
    requires tl.channels != []
    ensures Apply(tl, c, AddSwitch(t)) == Switched(tl, c, t)
  {
  }

  lemma ClearIsInitial(tl: Timeline, c: Cut)
    requires tl.channels != []
    ensures Apply(tl, c, Clear) == Initial(tl)
  {
  }

  function Edited(tl: Timeline, ops: seq<Op>): Cut
    requires tl.channels != []
  {
    if ops == [] then Initial(tl) else Apply(tl, Edited(tl, ops[..|ops| - 1]), ops[|ops| - 1])
  }

  /** Main result: whatever the user does, the segments tile the selection, have positive length
      and show enabled channels, and at least one channel stays enabled. */
  lemma {:induction false} EveryEditIsValid(tl: Timeline, ops: seq<Op>)
    requires tl.Usable() && DistinctChannels(tl)
    ensures Valid(tl, Edited(tl, ops))
  {
    hide Valid, Apply, Initial;
    if ops == [] {
      InitialIsValid(tl);
    } else {
      EveryEditIsValid(tl, ops[..|ops| - 1]);
      StepIsValid(tl, Edited(tl, ops[..|ops| - 1]), ops[|ops| - 1]);
    }
  }

  /** The selection lies in the footage and lasts a second. */
  ghost predicate InFootage(tl: Timeline, c: Cut) {
    tl.start <= c.inTs && c.inTs + MIN_SELECTION <= c.outTs <= tl.end
  }

  lemma StepStaysInFootage(tl: Timeline, c: Cut, op: Op)
    requires tl.channels != [] && tl.start + MIN_SELECTION <= tl.end && InFootage(tl, c)
    ensures InFootage(tl, Apply(tl, c, op))
  {
    hide Clamped, Enabled, FirstEnabled, NextEnabled, SegAt, Insets, NextInset;
  }

  /** Footage of a second or more always holds the selection; in shorter footage "set end" puts
      the end of a fresh selection past it, wherever the playhead is. */
  lemma {:induction false} SelectionStaysInFootage(tl: Timeline, ops: seq<Op>)
    requires tl.Usable()
    ensures tl.start + MIN_SELECTION <= tl.end ==> InFootage(tl, Edited(tl, ops))
    ensures tl.start + MIN_SELECTION > tl.end ==> forall p :: Apply(tl, Initial(tl), SetOut(p)).outTs > tl.end
  {
    if ops != [] && tl.start + MIN_SELECTION <= tl.end {
      SelectionStaysInFootage(tl, ops[..|ops| - 1]);
      StepStaysInFootage(tl, Edited(tl, ops[..|ops| - 1]), ops[|ops| - 1]);
    }
  }
}
