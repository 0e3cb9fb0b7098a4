/** The editor as an object, what its operations do to the picture, and what it exports. */
module EditorSession {
  import opened Basics
  import opened CutEditor

  // ---- What an operation changes of the picture ----

  /** A switch at t changes the picture from t to the end of its segment, to the next enabled
      channel without inset, and nothing else. */
  lemma SwitchChangesTheRest(tl: Timeline, c: Cut, t: int, u: int)
    requires Valid(tl, c) && c.inTs < t < c.outTs && c.inTs <= u < c.outTs
    requires var s := c.segments[SegAt(c, t)]; t - s.start >= MIN_HALF && s.end - t >= MIN_HALF
    ensures var s := c.segments[SegAt(c, t)];
            ViewAt(Switched(tl, c, t).segments, u)
            == if t <= u < s.end then Some(View(NextEnabled(tl.channels, c.disabled, s.camera), None))
               else ViewAt(c.segments, u)
  {
    hide NextEnabled, SegAt, ViewAt, AllOnEnabled;
    SegAtHolds(c, t);
    var i := SegAt(c, t);
    var k := Holder(c.segments, c.inTs, c.outTs, u);
    var camera := NextEnabled(tl.channels, c.disabled, c.segments[i].camera);
    SpliceTiles(c.segments, c.inTs, c.outTs, i, t, camera);
    TileShows(c.segments, c.inTs, c.outTs, k, u);
    InOrder(c.segments, c.inTs, c.outTs, i, k, u);
    var at := if k < i || (k == i && u < t) then k else k + 1;
    Spliced(c.segments, i, t, camera, k, at);
    TileShows(Switched(tl, c, t).segments, c.inTs, c.outTs, at, u);
  }

  lemma InOrder(segs: seq<Segment>, lo: int, hi: int, i: nat, k: nat, u: int)
    requires Tiles(segs, lo, hi) && i < |segs| && k < |segs| && segs[k].start <= u < segs[k].end
    ensures segs[i].start <= u < segs[i].end ==> k == i
  {
    TileShowsOnce(segs, lo, hi, i, k);
    TileShowsOnce(segs, lo, hi, k, i);
  }

  lemma {:induction false} TileShowsOnce(segs: seq<Segment>, lo: int, hi: int, i: nat, k: nat)
    requires Tiles(segs, lo, hi) && i < |segs| && k < |segs|
    ensures i < k ==> segs[i].end <= segs[k].start
    decreases k
  {
    if i < k - 1 { TileShowsOnce(segs, lo, hi, i, k - 1); }
  }

  lemma Spliced(segs: seq<Segment>, i: nat, t: int, camera: string, k: nat, at: nat)
    requires i < |segs| && k < |segs| && (at == k <= i || (at == k + 1 && k >= i))
    ensures var out := segs[..i] + Split(segs[i], t, camera) + segs[i + 1..];
            && at < |out|
            && (k != i ==> out[at] == segs[k])
            && (k == i && at == k ==> out[at] == segs[i].(end := t))
            && (k == i && at == k + 1 ==> out[at] == Segment(t, segs[i].end, camera, None))
  {
  }

  /** Removing a switch lets the picture before it run on to the next one. */
  lemma RemovalExtendsThePicture(tl: Timeline, c: Cut, i: nat, u: int)
    requires Valid(tl, c) && tl.channels != [] && 1 <= i < |c.segments| && c.inTs <= u < c.outTs
    ensures ViewAt(Apply(tl, c, RemoveSwitch(i)).segments, u)
            == if c.segments[i].start <= u < c.segments[i].end
               then Some(View(c.segments[i - 1].camera, c.segments[i - 1].pip)) else ViewAt(c.segments, u)
  {
    hide ViewAt, AllOnEnabled, Enabled, Apply;
    var k := Holder(c.segments, c.inTs, c.outTs, u);
    var out := Apply(tl, c, RemoveSwitch(i)).segments;
    Merged(tl, c, i);
    MergeTiles(c.segments, c.inTs, c.outTs, i);
    TileShows(c.segments, c.inTs, c.outTs, k, u);
    InOrder(c.segments, c.inTs, c.outTs, i, k, u);
    assert c.segments[i - 1].end == c.segments[i].start;
    var at := if k < i then k else k - 1;
    MergedAt(c.segments, i, k);
    TileShows(out, c.inTs, c.outTs, at, u);
  }

  lemma Merged(tl: Timeline, c: Cut, i: nat)
    requires tl.channels != [] && 1 <= i < |c.segments|
    ensures Apply(tl, c, RemoveSwitch(i)).segments
            == c.segments[..i - 1] + [c.segments[i - 1].(end := c.segments[i].end)] + c.segments[i + 1..]
  {
  }

  lemma MergedAt(segs: seq<Segment>, i: nat, k: nat)
    requires 1 <= i < |segs| && k < |segs|
    ensures var out := segs[..i - 1] + [segs[i - 1].(end := segs[i].end)] + segs[i + 1..];
            && |out| == |segs| - 1
            && (k < i - 1 ==> out[k] == segs[k]) && (k > i ==> out[k - 1] == segs[k])
            && out[i - 1] == segs[i - 1].(end := segs[i].end)
  {
  }

  // ---- Export ----

  datatype Piece = Piece(channel: string, start: int, end: int, pip: Option<string>)

  function PieceOf(s: Segment, disabled: set<string>): Piece {
    Piece(s.camera, s.start, s.end,
          if s.pip.Some? && s.pip.value != s.camera && s.pip.value !in disabled then s.pip else None)
  }

  function Exported(segs: seq<Segment>, disabled: set<string>): seq<Piece> {
    if segs == [] then []
    else
      var n := |segs| - 1;
      var init := Exported(segs[..n], disabled);
      if segs[n].camera in disabled then init else init + [PieceOf(segs[n], disabled)]
  }

  ghost predicate PiecesTile(ps: seq<Piece>, lo: int, hi: int) {
    && ps != [] && ps[0].start == lo && ps[|ps| - 1].end == hi
    && (forall i :: 0 <= i < |ps| ==> ps[i].start < ps[i].end)
    && forall i, k :: 0 <= i < k < |ps| && k == i + 1 ==> ps[i].end == ps[k].start
  }

  lemma {:induction false} NothingFiltered(segs: seq<Segment>, disabled: set<string>)
    requires forall i :: 0 <= i < |segs| ==> segs[i].camera !in disabled
    ensures |Exported(segs, disabled)| == |segs|
    ensures forall i :: 0 <= i < |segs| ==> Exported(segs, disabled)[i] == PieceOf(segs[i], disabled)
  {
    if segs != [] { NothingFiltered(segs[..|segs| - 1], disabled); }
  }

  /** Main result: after any edits the export is the whole tiling, on enabled channels, and no
      inset repeats its main channel or shows a disabled one. */
  lemma ExportIsTheWholeTiling(tl: Timeline, ops: seq<Op>)
    requires tl.Usable() && DistinctChannels(tl)
    ensures var c := Edited(tl, ops); var ps := Exported(c.segments, c.disabled);
            && |ps| == |c.segments| && PiecesTile(ps, c.inTs, c.outTs)
            && forall i :: 0 <= i < |ps| ==>
                 && ps[i].channel in tl.channels && ps[i].channel !in c.disabled
                 && (ps[i].pip.Some? ==> ps[i].pip.value in tl.channels && ps[i].pip.value !in c.disabled
                                         && ps[i].pip.value != ps[i].channel)
  {
    hide Edited, Exported, Enabled;
    EveryEditIsValid(tl, ops);
    var c := Edited(tl, ops);
    assert forall i :: 0 <= i < |c.segments| ==> OnEnabled(tl, c.disabled, c.segments[i]);
    NothingFiltered(c.segments, c.disabled);
  }

  // ---- Insets in the editor itself ----

  ghost predicate InsetsApart(segs: seq<Segment>) {
    forall i :: 0 <= i < |segs| ==> segs[i].pip != Some(segs[i].camera)
  }

  /** Turning a channel off moves one of its segments onto the channel its inset shows. */
  ghost predicate Collides(tl: Timeline, c: Cut, op: Op) {
    && tl.channels != [] && op.Toggle? && op.key !in c.disabled && |Enabled(tl.channels, c.disabled)| > 1
    && exists i :: 0 <= i < |c.segments| && c.segments[i].camera == op.key
         && c.segments[i].pip == Some(FirstEnabled(tl.channels, c.disabled + {op.key}))
  }

  lemma {:induction false} InsideApart(segs: seq<Segment>, lo: int, hi: int)
    requires InsetsApart(segs)
    ensures InsetsApart(Inside(segs, lo, hi))
  {
    if segs != [] { InsideApart(segs[1..], lo, hi); }
  }

  lemma ClampedApart(segs: seq<Segment>, lo: int, hi: int, fallback: string)
    requires InsetsApart(segs)
    ensures InsetsApart(Clamped(segs, lo, hi, fallback))
  {
    hide Inside;
    InsideApart(segs, lo, hi);
  }

  lemma ToggleApart(tl: Timeline, c: Cut, key: string)
    requires tl.channels != [] && InsetsApart(c.segments)
    requires key !in c.disabled && |Enabled(tl.channels, c.disabled)| > 1
    ensures InsetsApart(Apply(tl, c, Toggle(key)).segments) <==> !Collides(tl, c, Toggle(key))
  {
    hide Enabled, FirstEnabled;
    var fallback := FirstEnabled(tl.channels, c.disabled + {key});
    var out := WithoutChannelAll(c.segments, key, fallback);
    FallbackIsNotKey(tl, c, key);
    if i :| 0 <= i < |c.segments| && c.segments[i].camera == key && c.segments[i].pip == Some(fallback) {
      assert out[i].pip == Some(out[i].camera);
    }
  }

  lemma {:induction false} FallbackIsNotKey(tl: Timeline, c: Cut, key: string)
    requires tl.channels != [] && key !in c.disabled && |Enabled(tl.channels, c.disabled)| > 1
    ensures Enabled(tl.channels, c.disabled + {key}) != [] ==> FirstEnabled(tl.channels, c.disabled + {key}) != key
  {
    if Enabled(tl.channels, c.disabled + {key}) != [] { FirstIsEnabled(tl.channels, c.disabled + {key}); }
  }

  lemma SwitchApart(tl: Timeline, c: Cut, t: int)
    requires InsetsApart(c.segments)
    ensures InsetsApart(Switched(tl, c, t).segments)
  {
    hide NextEnabled, SegAt;
    if c.inTs < t < c.outTs && c.segments != [] { SegAtInRange(c, t); }
  }

  lemma SegAtInRange(c: Cut, t: int)
    requires c.segments != []
    ensures SegAt(c, t) < |c.segments|
  {
  }

  lemma CycleApart(tl: Timeline, c: Cut, op: Op)
    requires tl.channels != [] && InsetsApart(c.segments) && (op.CycleCamera? || op.CyclePip?)
    ensures InsetsApart(Apply(tl, c, op).segments)
  {
    hide Enabled, NextEnabled, Insets, NextInset;
    if op.CyclePip? && 0 <= op.i < |c.segments| {
      var s := c.segments[op.i];
      if Insets(tl.channels, c.disabled, s.camera) != [] { NextInsetIsEnabled(tl, c.disabled, s); }
    }
  }

  /** Inside the editor an inset can come to repeat its main channel, in one way only: its channel
      is turned off and the fallback is the channel of the inset. */
  lemma InsetsStayApartUnlessTurnedOff(tl: Timeline, c: Cut, op: Op)
    requires tl.channels != [] && InsetsApart(c.segments)
    ensures InsetsApart(Apply(tl, c, op).segments) <==> !Collides(tl, c, op)
  {
    hide Clamped, Enabled, FirstEnabled, Switched, Insets, NextEnabled, NextInset;
    match op
    case SetIn(p) =>
      var lo := Clamp(p, tl.start, c.outTs - MIN_SELECTION);
      ClampedApart(c.segments, lo, c.outTs, FirstEnabled(tl.channels, c.disabled));
    case SetOut(p) =>
      ClampedApart(c.segments, c.inTs, Clamp(p, c.inTs + MIN_SELECTION, tl.end), FirstEnabled(tl.channels, c.disabled));
    case AddSwitch(t) => SwitchApart(tl, c, t);
    case RemoveSwitch(_) =>
    case CycleCamera(_) => CycleApart(tl, c, op);
    case CyclePip(_) => CycleApart(tl, c, op);
    case Toggle(key) =>
      if key !in c.disabled && |Enabled(tl.channels, c.disabled)| > 1 { ToggleApart(tl, c, key); }
    case Clear =>
  }

  /** Two channels, an inset, and the main channel turned off: the editor then holds an inset
      equal to its main channel, which only the export drops. */
  lemma InsetCanRepeat()
    ensures var tl := Timeline(["front", "rear"], 0, 60000);
            var c := Edited(tl, [CyclePip(0), Toggle("front")]);
            c.segments == [Segment(0, 60000, "rear", Some("rear"))]
            && Exported(c.segments, c.disabled) == [Piece("rear", 0, 60000, None)]
  {
    var tl := Timeline(["front", "rear"], 0, 60000);
    var one := Cut(0, 60000, [Segment(0, 60000, "front", Some("rear"))], {});
    assert Edited(tl, []) == Initial(tl);
    assert [CyclePip(0)][..0] == [] && [CyclePip(0), Toggle("front")][..1] == [CyclePip(0)];
    InsetIsAdded(tl, one);
    ChannelIsTurnedOff(tl, one);
  }

  lemma InsetIsAdded(tl: Timeline, one: Cut)
    requires tl == Timeline(["front", "rear"], 0, 60000)
    requires one == Cut(0, 60000, [Segment(0, 60000, "front", Some("rear"))], {})
    ensures Apply(tl, Initial(tl), CyclePip(0)) == one
  {
    assert Enabled(["rear"], {}) == ["rear"] && Enabled(["rear"], {"front"}) == ["rear"];
    assert Enabled(tl.channels, {}) == ["front", "rear"];
    assert Insets(tl.channels, {}, "front") == ["rear"] by { assert {} + {"front"} == {"front"}; }
  }

  lemma ChannelIsTurnedOff(tl: Timeline, one: Cut)
    requires tl == Timeline(["front", "rear"], 0, 60000)
    requires one == Cut(0, 60000, [Segment(0, 60000, "front", Some("rear"))], {})
    ensures var c := Apply(tl, one, Toggle("front"));
            c.segments == [Segment(0, 60000, "rear", Some("rear"))]
            && Exported(c.segments, c.disabled) == [Piece("rear", 0, 60000, None)]
  {
    assert Enabled(["rear"], {"front"}) == ["rear"];
    assert Enabled(tl.channels, {}) == ["front", "rear"] && Enabled(tl.channels, {"front"}) == ["rear"];
    assert {} + {"front"} == {"front"};
    assert Apply(tl, one, Toggle("front")).segments[..0] == [];
  }

  // ---- The editor as it runs ----

  class Editor {
    const tl: Timeline
    var inTs: int
    var outTs: int
    var segments: seq<Segment>
    var disabled: set<string>

    function State(): Cut
      reads this
    {
      Cut(inTs, outTs, segments, disabled)
    }

    constructor (tl: Timeline)
      requires tl.channels != []
      ensures this.tl == tl && State() == Initial(tl)
    {
      this.tl := tl;
      inTs, outTs, disabled := tl.start, tl.end, {};
      segments := [Segment(tl.start, tl.end, FirstEnabled(tl.channels, {}), None)];
    }

    method ClampSegments()
      requires tl.channels != []
      modifies this`segments
      ensures segments == Clamped(old(segments), inTs, outTs, FirstEnabled(tl.channels, disabled))
    {
      hide FirstEnabled;
      var segs := [];
      for i := 0 to |segments|
        invariant segments == old(segments)
        invariant segs + Inside(segments[i..], inTs, outTs) == Inside(segments, inTs, outTs)
      {
        var s := segments[i];
        assert segments[i..][1..] == segments[i + 1..];
        if s.end > inTs && s.start < outTs {
          segs := segs + [Segment(Max(s.start, inTs), Min(s.end, outTs), s.camera, s.pip)];
        }
      }
      if segs == [] {
        segs := [Segment(inTs, outTs, FirstEnabled(tl.channels, disabled), None)];
      }
      segs := segs[0 := segs[0].(start := inTs)];
      segs := segs[|segs| - 1 := segs[|segs| - 1].(end := outTs)];
      segments := segs;
    }

    method SetIn(playhead: int)
      requires tl.channels != []
      modifies this
      ensures State() == Apply(tl, old(State()), Op.SetIn(playhead))
    {
      inTs := Clamp(playhead, tl.start, outTs - MIN_SELECTION);
      ClampSegments();
    }

    method SetOut(playhead: int)
      requires tl.channels != []
      modifies this
      ensures State() == Apply(tl, old(State()), Op.SetOut(playhead))
    {
      outTs := Clamp(playhead, inTs + MIN_SELECTION, tl.end);
      ClampSegments();
    }

    method ClearEditor()
      requires tl.channels != []
      modifies this
      ensures State() == Apply(tl, old(State()), Clear)
    {
      inTs, outTs, disabled := tl.start, tl.end, {};
      segments := [Segment(tl.start, tl.end, FirstEnabled(tl.channels, {}), None)];
    }

    method FindSegment(t: int) returns (i: nat)
      ensures i == SegAt(State(), t)
    {
      i := 0;
      while i < |segments|
        invariant i <= |segments| && SegFrom(segments, t, 0) == SegFrom(segments, t, i)
      {
        if t >= segments[i].start && t < segments[i].end {
          return;
        }
        i := i + 1;
      }
      i := if t >= outTs && segments != [] then |segments| - 1 else 0;
    }

    method AddSwitchAtPlayhead(playhead: int)
      requires tl.channels != []
      modifies this`segments
      ensures State() == Apply(tl, old(State()), AddSwitch(playhead))
    {
      hide NextEnabled, SegAt;
      var t := playhead;
      if t <= inTs || t >= outTs || segments == [] {
        return;
      }
      var i := FindSegment(t);
      SegAtInRange(State(), t);
      var seg := segments[i];
      if t - seg.start < MIN_HALF || seg.end - t < MIN_HALF {
        return;
      }
      segments := segments[..i]
        + [Segment(seg.start, t, seg.camera, seg.pip),
           Segment(t, seg.end, NextEnabled(tl.channels, disabled, seg.camera), None)]
        + segments[i + 1..];
    }

    method DeleteSwitch(i: int)
      requires tl.channels != []
      modifies this`segments
      ensures State() == Apply(tl, old(State()), RemoveSwitch(i))
    {
      if i < 1 || i >= |segments| {
        return;
      }
      segments := segments[i - 1 := segments[i - 1].(end := segments[i].end)];
      segments := segments[..i] + segments[i + 1..];
    }

    method CycleSegmentCamera(i: int)
      requires tl.channels != []
      modifies this`segments
      ensures State() == Apply(tl, old(State()), CycleCamera(i))
    {
      hide NextEnabled, Enabled;
      if i < 0 || i >= |segments| || |Enabled(tl.channels, disabled)| < 2 {
        return;
      }
      var camera := NextEnabled(tl.channels, disabled, segments[i].camera);
      segments := segments[i := segments[i].(camera := camera)];
      if segments[i].pip == Some(camera) {
        segments := segments[i := segments[i].(pip := None)];
      }
    }

    method CycleSegmentPip(i: int)
      requires tl.channels != []
      modifies this`segments
      ensures State() == Apply(tl, old(State()), CyclePip(i))
    {
      hide Insets;
      if i < 0 || i >= |segments| {
        return;
      }
      var seg := segments[i];
      var opts := Insets(tl.channels, disabled, seg.camera);
      if opts == [] {
        return;
      }
      if seg.pip.None? {
        segments := segments[i := seg.(pip := Some(opts[0]))];
      } else {
        var idx := IndexOf(opts, seg.pip.value);
        segments := segments[i := seg.(pip := if idx < 0 || idx + 1 >= |opts| then None else Some(opts[idx + 1]))];
      }
    }

    method ToggleChannel(key: string)
      requires tl.channels != []
      modifies this
      ensures State() == Apply(tl, old(State()), Toggle(key))
    {
      hide Enabled, FirstEnabled;
      if key in disabled {
        disabled := disabled - {key};
        return;
      }
      if |Enabled(tl.channels, disabled)| <= 1 {
        return;
      }
      disabled := disabled + {key};
      var fallback := FirstEnabled(tl.channels, disabled);
      for i := 0 to |segments|
        invariant |segments| == |old(segments)| && inTs == old(inTs) && outTs == old(outTs)
        invariant disabled == old(disabled) + {key}
        invariant forall k :: 0 <= k < i ==> segments[k] == WithoutChannel(old(segments)[k], key, fallback)
        invariant forall k :: i <= k < |segments| ==> segments[k] == old(segments)[k]
      {
        var s := segments[i];
        if s.camera == key {
          segments := segments[i := segments[i].(camera := fallback)];
        }
        if s.pip == Some(key) {
          segments := segments[i := segments[i].(pip := None)];
        }
      }
    }

    method ExportTimeline() returns (pieces: seq<Piece>)
      ensures pieces == Exported(segments, disabled)
    {
      pieces := [];
      for i := 0 to |segments|
        invariant pieces == Exported(segments[..i], disabled)
      {
        assert segments[..i + 1][..i] == segments[..i];
        var s := segments[i];
        if s.camera in disabled {
          continue;
        }
        var pip := None;
        if s.pip.Some? && s.pip.value != s.camera && s.pip.value !in disabled {
          pip := s.pip;
        }
        pieces := pieces + [Piece(s.camera, s.start, s.end, pip)];
      }
      assert segments[..|segments|] == segments;
    }
  }
}
