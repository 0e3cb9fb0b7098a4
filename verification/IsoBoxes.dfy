/** The ISO base media box scanner of web/services/durations.py. */
module IsoBoxes {
  import opened Basics
  import opened Bytes

  const MVHD: seq<byte> := [109, 118, 104, 100]

  /** A box header: the size of the whole box (none for "to the end"), its kind, the header's length. */
  datatype Header = Header(size: Option<nat>, kind: seq<byte>, len: nat)

  /** A box found: where its payload starts and where the box ends. */
  datatype Range = Range(start: nat, end: nat)

  function HeaderAt(data: seq<byte>, pos: nat): (h: Option<Header>)
    ensures h.Some? ==> (h.value.len == 8 || h.value.len == 16) && pos + h.value.len <= |data|
  {
    var hdr := Slice(data, pos, 8);
    if |hdr| < 8 then None
    else
      var size := BigEndian(hdr[..4]);
      if size == 1 then
        var ext := Slice(data, pos + 8, 8);
        if |ext| < 8 then None else Some(Header(Some(BigEndian(ext)), hdr[4..], 16))
      else if size == 0 then Some(Header(None, hdr[4..], 8))
      else Some(Header(Some(size), hdr[4..], 8))
  }

  function FindFrom(data: seq<byte>, pos: nat, target: seq<byte>, end: nat): (r: Option<Range>)
    ensures r.Some? ==> pos + 8 <= r.value.start <= r.value.end <= end
    decreases end - pos
  {
    if pos + 8 > end then None
    else
      var h := HeaderAt(data, pos);
      if h.None? then None
      else
        var boxEnd := if h.value.size.None? then end else pos + h.value.size.value;
        if boxEnd < pos + h.value.len || boxEnd > end then None
        else if h.value.kind == target then Some(Range(pos + h.value.len, boxEnd))
        else FindFrom(data, boxEnd, target, end)
  }

  lemma FindOnce(data: seq<byte>, pos: nat, target: seq<byte>, end: nat)
    ensures pos + 8 > end || HeaderAt(data, pos).None? ==> FindFrom(data, pos, target, end) == None
    ensures pos + 8 <= end && HeaderAt(data, pos).Some? ==>
              var h := HeaderAt(data, pos).value;
              var boxEnd := if h.size.None? then end else pos + h.size.value;
              FindFrom(data, pos, target, end)
              == if boxEnd < pos + h.len || boxEnd > end then None
                 else if h.kind == target then Some(Range(pos + h.len, boxEnd))
                 else FindFrom(data, boxEnd, target, end)
  {
    hide HeaderAt;
  }

  // The same told by the bytes.

  /** The box at a position, in a region: its kind, where its payload starts, and where it ends by its 32-bit
      size, by its 64-bit size, or with the region. */
  ghost predicate BoxIs(data: seq<byte>, pos: nat, end: nat, kind: seq<byte>, start: nat, boxEnd: nat) {
    && pos + 8 <= end && pos + 8 <= |data| && kind == data[pos + 4..pos + 8]
    && (var n := BigEndian(data[pos..pos + 4]);
        if n == 1 then
          pos + 16 <= |data| && start == pos + 16 && boxEnd == pos + BigEndian(data[pos + 8..pos + 16])
        else
          start == pos + 8 && boxEnd == if n == 0 then end else pos + n)
    && start <= boxEnd <= end
  }

  lemma HeaderIsRead(data: seq<byte>, pos: nat, end: nat, kind: seq<byte>, start: nat, boxEnd: nat)
    ensures BoxIs(data, pos, end, kind, start, boxEnd)
            <==> && pos + 8 <= end && HeaderAt(data, pos).Some?
                 && var h := HeaderAt(data, pos).value;
                    && h.kind == kind && start == pos + h.len <= boxEnd <= end
                    && boxEnd == if h.size.None? then end else pos + h.size.value
  {
    hide BigEndian;
    if pos + 8 <= |data| {
      var hdr := Slice(data, pos, 8);
      assert hdr[..4] == data[pos..pos + 4] && hdr[4..] == data[pos + 4..pos + 8];
      if pos + 16 <= |data| { assert Slice(data, pos + 8, 8) == data[pos + 8..pos + 16]; }
    }
  }

  /** A box of another kind ends where the next one begins. */
  ghost predicate PassesTo(data: seq<byte>, pos: nat, end: nat, target: seq<byte>, next: nat) {
    exists kind, start :: BoxIs(data, pos, end, kind, start, next) && kind != target
  }

  ghost predicate IsChain(data: seq<byte>, chain: seq<nat>, end: nat, target: seq<byte>) {
    forall i, k :: 0 <= i < |chain| && k == i + 1 && k < |chain| ==> PassesTo(data, chain[i], end, target, chain[k])
  }

  /** A chain of boxes of other kinds leads from a position to a box of the kind. */
  ghost predicate ChainTo(data: seq<byte>, chain: seq<nat>, pos: nat, end: nat, target: seq<byte>, r: Range) {
    && chain != [] && chain[0] == pos && IsChain(data, chain, end, target)
    && BoxIs(data, chain[|chain| - 1], end, target, r.start, r.end)
  }

  lemma BoxStep(data: seq<byte>, pos: nat, end: nat, target: seq<byte>, r: Range, next: nat)
    ensures BoxIs(data, pos, end, target, r.start, r.end) ==> FindFrom(data, pos, target, end) == Some(r)
    ensures PassesTo(data, pos, end, target, next) ==>
              next > pos && FindFrom(data, pos, target, end) == FindFrom(data, next, target, end)
  {
    hide HeaderAt, FindFrom, BoxIs;
    FindOnce(data, pos, target, end);
    HeaderIsRead(data, pos, end, target, r.start, r.end);
    HeaderHasLength(data, pos);
    if kind, start :| BoxIs(data, pos, end, kind, start, next) && kind != target {
      HeaderIsRead(data, pos, end, kind, start, next);
    }
  }

  lemma HeaderHasLength(data: seq<byte>, pos: nat)
    ensures HeaderAt(data, pos).Some? ==> HeaderAt(data, pos).value.len >= 8
  {
  }

  lemma {:induction false} FoundHasChain(data: seq<byte>, pos: nat, target: seq<byte>, end: nat)
    returns (chain: seq<nat>)
    requires FindFrom(data, pos, target, end).Some?
    ensures ChainTo(data, chain, pos, end, target, FindFrom(data, pos, target, end).value)
    decreases end - pos
  {
    hide HeaderAt, FindFrom, BoxIs, PassesTo;
    FindOnce(data, pos, target, end);
    HeaderHasLength(data, pos);
    var h := HeaderAt(data, pos).value;
    var next := if h.size.None? then end else pos + h.size.value;
    HeaderIsRead(data, pos, end, h.kind, pos + h.len, next);
    if h.kind == target {
      chain := [pos];
    } else {
      assert PassesTo(data, pos, end, target, next) by { PassedBy(data, pos, end, target, h.kind, pos + h.len, next); }
      var rest := FoundHasChain(data, next, target, end);
      chain := [pos] + rest;
    }
  }

  lemma PassedBy(data: seq<byte>, pos: nat, end: nat, target: seq<byte>, kind: seq<byte>, start: nat, next: nat)
    requires BoxIs(data, pos, end, kind, start, next) && kind != target
    ensures PassesTo(data, pos, end, target, next)
  {
  }

  lemma {:induction false} ChainIsFound(data: seq<byte>, pos: nat, chain: seq<nat>, target: seq<byte>, end: nat,
                                        r: Range)
    requires ChainTo(data, chain, pos, end, target, r)
    ensures FindFrom(data, pos, target, end) == Some(r)
    decreases |chain|
  {
    hide HeaderAt, FindFrom, BoxIs, PassesTo;
    if |chain| == 1 {
      BoxStep(data, pos, end, target, r, pos);
    } else {
      assert PassesTo(data, chain[0], end, target, chain[1]);
      BoxStep(data, pos, end, target, r, chain[1]);
      ChainIsFound(data, chain[1], chain[1..], target, end, r);
    }
  }

  /** On arbitrary bytes: a range is found exactly when a chain of boxes of other kinds leads to it. */
  lemma FindIff(data: seq<byte>, pos: nat, target: seq<byte>, end: nat, r: Range)
    ensures FindFrom(data, pos, target, end) == Some(r)
            <==> exists chain :: ChainTo(data, chain, pos, end, target, r)
  {
    hide FindFrom, ChainTo;
    if FindFrom(data, pos, target, end) == Some(r) {
      var chain := FoundHasChain(data, pos, target, end);
    }
    if chain :| ChainTo(data, chain, pos, end, target, r) { ChainIsFound(data, pos, chain, target, end, r); }
  }

  method ReadBoxHeader(f: File) returns (h: Option<Header>)
    modifies f
    ensures h == HeaderAt(f.data, old(f.pos))
    ensures h.Some? ==> f.pos == old(f.pos) + h.value.len
  {
    var hdr := f.Read(8);
    if |hdr| < 8 {
      return None;
    }
    var size, kind, len := BigEndian(hdr[..4]), hdr[4..], 8;
    if size == 1 {
      var ext := f.Read(8);
      if |ext| < 8 {
        return None;
      }
      return Some(Header(Some(BigEndian(ext)), kind, 16));
    } else if size == 0 {
      return Some(Header(None, kind, len));
    }
    return Some(Header(Some(size), kind, len));
  }

  /** Scan sibling boxes up to a region's end. On arbitrary bytes the scan ends, and what it
      finds lies inside the region. */
  method FindBox(f: File, target: seq<byte>, regionEnd: nat) returns (r: Option<Range>)
    modifies f
    ensures r == FindFrom(f.data, old(f.pos), target, regionEnd)
    ensures r.Some? ==> f.pos == r.value.start
  {
    hide FindFrom, HeaderAt;
    while f.pos + 8 <= regionEnd
      invariant FindFrom(f.data, f.pos, target, regionEnd) == FindFrom(f.data, old(f.pos), target, regionEnd)
      decreases regionEnd - f.pos
    {
      var start := f.pos;
      FindOnce(f.data, start, target, regionEnd);
      var h := ReadBoxHeader(f);
      if h.None? {
        return None;
      }
      var boxEnd := if h.value.size.None? then regionEnd else start + h.value.size.value;
      if boxEnd < start + h.value.len || boxEnd > regionEnd {
        return None;
      }
      if h.value.kind == target {
        return Some(Range(start + h.value.len, boxEnd));
      }
      f.Seek(boxEnd);
    }
    FindOnce(f.data, f.pos, target, regionEnd);
    return None;
  }

  // ---- The round trip ----

  /** An encoded box: its 32-bit size field, its kind, its 64-bit size field if any, its payload. */
  datatype Box = Box(size: seq<byte>, kind: seq<byte>, large: seq<byte>, payload: seq<byte>)
  {
    /** The size fields tell the box's length in one of the three ways of ISO/IEC 14496-12,
        section 4.2: in 32 bits, in 64 bits, or as "to the end". */
    ghost predicate WellFormed() {
      && |size| == 4 && |kind| == 4
      && (|| (large == [] && BigEndian(size) == 8 + |payload|)
          || (|large| == 8 && BigEndian(size) == 1 && BigEndian(large) == 16 + |payload|)
          || (large == [] && ToEnd()))
    }

    predicate ToEnd() { BigEndian(size) == 0 }

    function HeaderBytes(): seq<byte> { size + kind + large }

    function Encode(): seq<byte> { HeaderBytes() + payload }
  }

  ghost predicate WellFormedList(boxes: seq<Box>) {
    && (forall i :: 0 <= i < |boxes| ==> boxes[i].WellFormed())
    && (forall i :: 0 <= i < |boxes| - 1 ==> !boxes[i].ToEnd())
  }

  /** Every payload that fits has an encoding with a 32-bit and with a 64-bit size. */
  lemma BoxesEncode(kind: seq<byte>, payload: seq<byte>) returns (short: Box, long: Box)
    requires |kind| == 4 && |payload| + 16 < 0x1_0000_0000
    ensures short.WellFormed() && short.large == [] && !short.ToEnd()
    ensures long.WellFormed() && long.large != [] && !long.ToEnd()
    ensures short.kind == long.kind == kind && short.payload == long.payload == payload
  {
    Widths();
    BigEndianRoundTrip(8 + |payload|, 4);
    BigEndianRoundTrip(1, 4);
    BigEndianRoundTrip(16 + |payload|, 8);
    short := Box(ToBytes(8 + |payload|, 4), kind, [], payload);
    long := Box(ToBytes(1, 4), kind, ToBytes(16 + |payload|, 8), payload);
  }

  function Serialise(boxes: seq<Box>): seq<byte> {
    if boxes == [] then [] else boxes[0].Encode() + Serialise(boxes[1..])
  }

  /** The first box of a kind. */
  function First(boxes: seq<Box>, target: seq<byte>): Option<nat> {
    if boxes == [] then None
    else if boxes[0].kind == target then Some(0)
    else
      match First(boxes[1..], target)
      case None => None
      case Some(i) => Some(i + 1)
  }

  /** Where box i's payload starts in the serialised list. */
  function PayloadStart(boxes: seq<Box>, i: nat): nat
    requires i < |boxes|
  {
    |Serialise(boxes[..i])| + |boxes[i].HeaderBytes()|
  }

  /** The header of an encoded box reads back, wherever the box stands. */
  lemma HeaderRoundTrip(data: seq<byte>, pos: nat, b: Box)
    requires b.WellFormed() && Holds(data, pos, b.Encode())
    ensures HeaderAt(data, pos)
         == Some(Header(if b.ToEnd() then None else Some(|b.Encode()|), b.kind, |b.HeaderBytes()|))
  {
    var box := b.Encode();
    SliceOfPart(data, pos, box, 0, 8);
    assert box == b.size + b.kind + (b.large + b.payload);
    assert box[0..8] == b.size + b.kind;
    assert (b.size + b.kind)[..4] == b.size && (b.size + b.kind)[4..] == b.kind;
    if b.large != [] {
      SliceOfPart(data, pos, box, 8, 8);
      assert box[8..16] == b.large;
    }
  }

  /** One step of the scan over an encoded box: it is found, or passed over as a whole. */
  lemma FindStep(data: seq<byte>, pos: nat, b: Box, target: seq<byte>, end: nat)
    requires b.WellFormed() && Holds(data, pos, b.Encode())
    requires if b.ToEnd() then end == pos + |b.Encode()| else pos + |b.Encode()| <= end
    ensures var next := pos + |b.Encode()|;
            FindFrom(data, pos, target, end)
            == if b.kind == target then Some(Range(pos + |b.HeaderBytes()|, next))
               else FindFrom(data, next, target, end)
  {
    HeaderRoundTrip(data, pos, b);
    FindOnce(data, pos, target, end);
  }

  /** Where the first box of a kind has its payload, in a list that starts at `at`. */
  function Expected(boxes: seq<Box>, target: seq<byte>, at: nat): Option<Range> {
    if boxes == [] then None
    else
      var next := at + |boxes[0].Encode()|;
      if boxes[0].kind == target then Some(Range(at + |boxes[0].HeaderBytes()|, next))
      else Expected(boxes[1..], target, next)
  }

  lemma {:induction false} ExpectedIsFirst(boxes: seq<Box>, target: seq<byte>, at: nat)
    ensures match First(boxes, target)
            case None =>
              (Expected(boxes, target, at) == None && forall j :: 0 <= j < |boxes| ==> boxes[j].kind != target)
            case Some(i) => (i < |boxes| && boxes[i].kind == target
                             && (forall j :: 0 <= j < i ==> boxes[j].kind != target)
                             && var start := at + PayloadStart(boxes, i);
                                Expected(boxes, target, at) == Some(Range(start, start + |boxes[i].payload|)))
  {
    if boxes == [] {
    } else if boxes[0].kind == target {
      assert boxes[..0] == [];
    } else {
      var rest := boxes[1..];
      ExpectedIsFirst(rest, target, at + |boxes[0].Encode()|);
      assert forall j :: 0 < j < |boxes| ==> boxes[j] == rest[j - 1];
      var i := First(rest, target);
      if i.Some? {
        assert boxes[..i.value + 1][1..] == rest[..i.value] && boxes[..i.value + 1][0] == boxes[0];
      }
    }
  }

  /** Main result: in a serialised list of well-formed boxes, wherever it stands in a file, the
      scan finds exactly the payload of the first box of the target kind, or nothing when there
      is none. */
  lemma {:induction false} FindRoundTrip(data: seq<byte>, pos: nat, boxes: seq<Box>, target: seq<byte>, end: nat)
    requires WellFormedList(boxes) && Holds(data, pos, Serialise(boxes)) && end == pos + |Serialise(boxes)|
    ensures FindFrom(data, pos, target, end) == Expected(boxes, target, pos)
    decreases |boxes|
  {
    hide FindFrom, Box.Encode, Box.HeaderBytes;
    if boxes == [] {
      FindOnce(data, pos, target, pos);
      return;
    }
    var b, rest := boxes[0], boxes[1..];
    HoldsParts(data, pos, b.Encode(), Serialise(rest));
    FindStep(data, pos, b, target, end);
    if b.kind != target {
      assert forall j :: 0 <= j < |rest| ==> rest[j] == boxes[j + 1];
      FindRoundTrip(data, pos + |b.Encode()|, rest, target, end);
    }
  }

  /** Any kinds and payloads can be written as such a list, each box in the size form one likes, and
      the scan of what was written finds the first box of a kind. */
  lemma {:induction false} AnyBoxesAreFound(kinds: seq<seq<byte>>, payloads: seq<seq<byte>>, long: seq<bool>,
                                            target: seq<byte>)
    returns (boxes: seq<Box>)
    requires |kinds| == |payloads| == |long|
    requires forall i :: 0 <= i < |kinds| ==> |kinds[i]| == 4 && |payloads[i]| + 16 < 0x1_0000_0000
    ensures WellFormedList(boxes) && |boxes| == |kinds|
    ensures forall i :: 0 <= i < |boxes| ==>
              boxes[i].kind == kinds[i] && boxes[i].payload == payloads[i] && (boxes[i].large != [] <==> long[i])
    ensures FindFrom(Serialise(boxes), 0, target, |Serialise(boxes)|) == Expected(boxes, target, 0)
  {
    boxes := AnyBoxesEncode(kinds, payloads, long);
    hide FindFrom, Box.WellFormed;
    var data := Serialise(boxes);
    assert data[0..0 + |data|] == data;
    FindRoundTrip(data, 0, boxes, target, |data|);
  }

  lemma {:induction false} AnyBoxesEncode(kinds: seq<seq<byte>>, payloads: seq<seq<byte>>, long: seq<bool>)
    returns (boxes: seq<Box>)
    requires |kinds| == |payloads| == |long|
    requires forall i :: 0 <= i < |kinds| ==> |kinds[i]| == 4 && |payloads[i]| + 16 < 0x1_0000_0000
    ensures |boxes| == |kinds|
    ensures forall i :: 0 <= i < |boxes| ==>
              && boxes[i].WellFormed() && !boxes[i].ToEnd()
              && boxes[i].kind == kinds[i] && boxes[i].payload == payloads[i] && (boxes[i].large != [] <==> long[i])
  {
    hide Box.WellFormed, Box.ToEnd;
    if kinds == [] {
      boxes := [];
    } else {
      var n := |kinds| - 1;
      var init := AnyBoxesEncode(kinds[..n], payloads[..n], long[..n]);
      var a, b := BoxesEncode(kinds[n], payloads[n]);
      boxes := init + [if long[n] then b else a];
    }
  }

  /** Where a list is held, the payload of each of its boxes is. */
  lemma {:induction false} PayloadHeld(data: seq<byte>, pos: nat, boxes: seq<Box>, i: nat)
    requires Holds(data, pos, Serialise(boxes)) && i < |boxes|
    ensures Holds(data, pos + PayloadStart(boxes, i), boxes[i].payload)
    decreases i
  {
    var b, rest := boxes[0], boxes[1..];
    HoldsParts(data, pos, b.Encode(), Serialise(rest));
    if i == 0 {
      HoldsParts(data, pos, b.HeaderBytes(), b.payload);
      assert boxes[..0] == [];
    } else {
      PayloadHeld(data, pos + |b.Encode()|, rest, i - 1);
      assert boxes[..i][1..] == rest[..i - 1] && boxes[..i][0] == b;
    }
  }

  // ---- The movie header ----

  /** An encoded movie header (ISO/IEC 14496-12, section 8.2.2): version 1 has 64-bit times. */
  datatype MovieHeader = MovieHeader(version: byte, flags: seq<byte>, times: seq<byte>,
                                     timescale: seq<byte>, duration: seq<byte>, rest: seq<byte>)
  {
    ghost predicate WellFormed() {
      && |flags| == 3 && |timescale| == 4
      && (if version == 1 then |times| == 16 && |duration| == 8 else |times| == 8 && |duration| == 4)
    }

    function Encode(): seq<byte> {
      [version] + flags + times + timescale + duration + rest
    }
  }

  /** The unknown-duration marks of both versions; either version's header is checked against both. */
  predicate Unknown(duration: nat) { duration == 0xFFFF_FFFF || duration == 0xFFFF_FFFF_FFFF_FFFF }

  function Seconds(timescale: nat, duration: nat): Option<real> {
    if timescale <= 0 || Unknown(duration) || duration == 0 then None
    else Some(duration as real / timescale as real)
  }

  function DurationAt(data: seq<byte>, at: nat): Option<real> {
    var versionFlags := Slice(data, at, 4);
    if |versionFlags| < 4 then None
    else if versionFlags[0] == 1 then
      var buf := Slice(data, at + 4, 28);
      if |buf| < 28 then None else Seconds(BigEndian(buf[16..20]), BigEndian(buf[20..28]))
    else
      var buf := Slice(data, at + 4, 16);
      if |buf| < 16 then None else Seconds(BigEndian(buf[8..12]), BigEndian(buf[12..16]))
  }

  function Duration(data: seq<byte>): Option<real> {
    var moov := FindFrom(data, 0, MOOV, |data|);
    if moov.None? then None
    else
      var mvhd := FindFrom(data, moov.value.start, MVHD, moov.value.end);
      if mvhd.None? then None else DurationAt(data, mvhd.value.start)
  }

  method ProbeDuration(data: seq<byte>) returns (secs: Option<real>)
    ensures secs == Duration(data)
  {
    hide FindFrom, BigEndian;
    var f := new File(data);
    var moov := FindBox(f, MOOV, |data|);
    if moov.None? {
      return None;
    }
    f.Seek(moov.value.start);
    var mvhd := FindBox(f, MVHD, moov.value.end);
    if mvhd.None? {
      return None;
    }
    f.Seek(mvhd.value.start);
    var versionFlags := f.Read(4);
    if |versionFlags| < 4 {
      return None;
    }
    var timescale, duration;
    if versionFlags[0] == 1 {
      var buf := f.Read(28);
      if |buf| < 28 {
        return None;
      }
      timescale, duration := BigEndian(buf[16..20]), BigEndian(buf[20..28]);
    } else {
      var buf := f.Read(16);
      if |buf| < 16 {
        return None;
      }
      timescale, duration := BigEndian(buf[8..12]), BigEndian(buf[12..16]);
    }
    if timescale <= 0 || Unknown(duration) || duration == 0 {
      return None;
    }
    return Some(duration as real / timescale as real);
  }

  /** The movie header at a position says so many seconds: its duration over its timescale, neither zero nor
      unknown; version 1 has wider fields. */
  ghost predicate SaysSeconds(data: seq<byte>, at: nat, secs: real) {
    && at + 20 <= |data|
    && var wide := data[at] == 1;
       && (wide ==> at + 32 <= |data|)
       && var timescale := BigEndian(if wide then data[at + 20..at + 24] else data[at + 12..at + 16]);
          var duration := BigEndian(if wide then data[at + 24..at + 32] else data[at + 16..at + 20]);
          Amounts(timescale, duration, secs)
  }

  ghost predicate Amounts(timescale: nat, duration: nat, secs: real) {
    && timescale > 0 && duration !in {0, 0xFFFF_FFFF, 0xFFFF_FFFF_FFFF_FFFF}
    && secs * timescale as real == duration as real
  }

  lemma OverIs(secs: real, duration: nat, timescale: nat)
    requires timescale > 0
    ensures secs == duration as real / timescale as real <==> secs * timescale as real == duration as real
  {
    var q := duration as real / timescale as real;
    assert q * timescale as real == duration as real;
    if secs * timescale as real == duration as real {
      assert (secs - q) * timescale as real == 0.0;
    }
  }

  lemma SecondsIff(timescale: nat, duration: nat, secs: real)
    ensures Seconds(timescale, duration) == Some(secs) <==> Amounts(timescale, duration, secs)
  {
    if timescale > 0 { OverIs(secs, duration, timescale); }
  }

  /** On arbitrary bytes: the duration is what the movie header in the first `moov` says, and there is none
      when that is missing, cut short, or says nothing. */
  lemma DurationIff(data: seq<byte>, secs: real)
    ensures Duration(data) == Some(secs)
            <==> exists moov, mvhd :: && FindFrom(data, 0, MOOV, |data|) == Some(moov)
                                      && FindFrom(data, moov.start, MVHD, moov.end) == Some(mvhd)
                                      && SaysSeconds(data, mvhd.start, secs)
  {
    hide FindFrom, SaysSeconds, DurationAt;
    var moov := FindFrom(data, 0, MOOV, |data|);
    if moov.Some? {
      var mvhd := FindFrom(data, moov.value.start, MVHD, moov.value.end);
      if mvhd.Some? { DurationAtIff(data, mvhd.value.start, secs); }
    }
  }

  lemma DurationAtIff(data: seq<byte>, at: nat, secs: real)
    ensures DurationAt(data, at) == Some(secs) <==> SaysSeconds(data, at, secs)
  {
    hide BigEndian, Seconds, Amounts, Slice;
    if at + 4 <= |data| {
      PartOfSlice(data, at, 4, 0, 1);
      assert Slice(data, at, 4)[0] == data[at..at + 1][0] == data[at];
      if at + 32 <= |data| && data[at] == 1 {
        var buf := Slice(data, at + 4, 28);
        PartOfSlice(data, at + 4, 28, 16, 4);
        PartOfSlice(data, at + 4, 28, 20, 8);
        SecondsIff(BigEndian(buf[16..20]), BigEndian(buf[20..28]), secs);
      } else if at + 20 <= |data| && data[at] != 1 {
        var buf := Slice(data, at + 4, 16);
        PartOfSlice(data, at + 4, 16, 8, 4);
        PartOfSlice(data, at + 4, 16, 12, 4);
        SecondsIff(BigEndian(buf[8..12]), BigEndian(buf[12..16]), secs);
      }
    }
  }

  /** A field that stands between others is the same stretch of any part that covers it. */
  lemma FieldIs(all: seq<byte>, from: nat, to: nat, before: seq<byte>, field: seq<byte>, after: seq<byte>)
    requires all == before + field + after && from <= |before| && |before| + |field| <= to <= |all|
    ensures all[from..to][|before| - from..|before| - from + |field|] == field
  {
    assert all[|before|..|before| + |field|] == field;
    assert all[from..to][|before| - from..|before| - from + |field|] == all[|before|..|before| + |field|];
  }

  lemma MovieHeaderRoundTrip(data: seq<byte>, at: nat, h: MovieHeader)
    requires h.WellFormed() && Holds(data, at, h.Encode())
    ensures DurationAt(data, at) == Seconds(BigEndian(h.timescale), BigEndian(h.duration))
  {
    hide Holds, BigEndian, Seconds, Slice;
    var e := h.Encode();
    var front := [h.version] + h.flags + h.times;
    var to := if h.version == 1 then 32 else 20;
    SliceOfPart(data, at, e, 0, 4);
    SliceOfPart(data, at, e, 4, to - 4);
    assert e == front + h.timescale + (h.duration + h.rest) && e == front + h.timescale + h.duration + h.rest;
    FieldIs(e, 4, to, front, h.timescale, h.duration + h.rest);
    FieldIs(e, 4, to, front + h.timescale, h.duration, h.rest);
    assert Slice(data, at, 4)[0] == e[0] == h.version;
    var buf, n := Slice(data, at + 4, to - 4), |front| - 4;
    assert buf[n..n + 4] == h.timescale && buf[n + 4..] == h.duration;
  }

  /** The first box of a kind in a list held anywhere in a file is found, payload and all. */
  lemma FirstIsFound(data: seq<byte>, pos: nat, boxes: seq<Box>, target: seq<byte>, end: nat) returns (r: Range)
    requires WellFormedList(boxes) && First(boxes, target).Some?
    requires Holds(data, pos, Serialise(boxes)) && end == pos + |Serialise(boxes)|
    ensures FindFrom(data, pos, target, end) == Some(r)
    ensures var i := First(boxes, target).value;
            i < |boxes| && r.end == r.start + |boxes[i].payload| && Holds(data, r.start, boxes[i].payload)
  {
    var i := First(boxes, target).value;
    ExpectedIsFirst(boxes, target, pos);
    PayloadHeld(data, pos, boxes, i);
    r := Expected(boxes, target, pos).value;
    FindRoundTrip(data, pos, boxes, target, end);
  }

  lemma DurationFrom(data: seq<byte>, moov: Range, mvhd: Range)
    requires FindFrom(data, 0, MOOV, |data|) == Some(moov)
    requires FindFrom(data, moov.start, MVHD, moov.end) == Some(mvhd)
    ensures Duration(data) == DurationAt(data, mvhd.start)
  {
  }

  lemma DurationIsRead(data: seq<byte>, boxes: seq<Box>, i: nat, inner: seq<Box>, k: nat, h: MovieHeader)
    requires WellFormedList(boxes) && First(boxes, MOOV) == Some(i)
    requires Holds(data, 0, Serialise(boxes)) && |data| == |Serialise(boxes)|
    requires i < |boxes| && boxes[i].payload == Serialise(inner)
    requires WellFormedList(inner) && First(inner, MVHD) == Some(k)
    requires k < |inner| && inner[k].payload == h.Encode() && h.WellFormed()
    ensures Duration(data) == Seconds(BigEndian(h.timescale), BigEndian(h.duration))
  {
    var moov := FirstIsFound(data, 0, boxes, MOOV, |data|);
    var mvhd := FirstIsFound(data, moov.start, inner, MVHD, moov.end);
    DurationFrom(data, moov, mvhd);
    MovieHeaderRoundTrip(data, mvhd.start, h);
  }

  lemma SecondsAre(timescale: nat, duration: nat, told: Option<real>)
    requires told == Seconds(timescale, duration)
    ensures if timescale == 0 || duration in {0, 0xFFFF_FFFF, 0xFFFF_FFFF_FFFF_FFFF} then told.None?
            else told.Some? && told.value * timescale as real == duration as real
  {
    if told.Some? { SecondsIff(timescale, duration, told.value); }
  }

  /** Main result: a file of well-formed boxes whose first `moov` is itself a list of well-formed
      boxes with an encoded movie header first of its kind yields that header's duration, in
      seconds, unless it is unknown, zero or without a timescale. */
  lemma DurationRoundTrip(data: seq<byte>, boxes: seq<Box>, i: nat, inner: seq<Box>, k: nat, h: MovieHeader)
    requires WellFormedList(boxes) && First(boxes, MOOV) == Some(i)
    requires Holds(data, 0, Serialise(boxes)) && |data| == |Serialise(boxes)|
    requires i < |boxes| && boxes[i].payload == Serialise(inner)
    requires WellFormedList(inner) && First(inner, MVHD) == Some(k)
    requires k < |inner| && inner[k].payload == h.Encode() && h.WellFormed()
    ensures var timescale, duration := BigEndian(h.timescale), BigEndian(h.duration);
            if timescale == 0 || duration in {0, 0xFFFF_FFFF, 0xFFFF_FFFF_FFFF_FFFF} then Duration(data).None?
            else Duration(data).Some? && Duration(data).value * timescale as real == duration as real
  {
    hide WellFormedList, First, Holds, Serialise, Duration, Seconds, BigEndian, MovieHeader.Encode;
    DurationIsRead(data, boxes, i, inner, k, h);
    SecondsAre(BigEndian(h.timescale), BigEndian(h.duration), Duration(data));
  }
}
