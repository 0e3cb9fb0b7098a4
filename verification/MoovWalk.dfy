/** The atom walkers of viofosync_lib/_gpx.py over arbitrary bytes. */
module MoovWalk {
  import opened Basics
  import opened Bytes
  import opened RangeReaders
  import opened Utf8

  const GPS_BOX: seq<byte> := [103, 112, 115, 32]
  const FREE: seq<byte> := [102, 114, 101, 101]
  const MAGIC: seq<byte> := [71, 80, 83, 32]

  // ---- Atom headers ----

  datatype Atom = Atom(size: nat, kind: seq<byte>)

  /** An atom's size and kind; no size and no kind when the header is short or its kind is not text. */
  function AtomInfo(header: seq<byte>): Atom {
    if |header| != 8 || !Decodes(header[4..], 0) then Atom(0, [])
    else Atom(BigEndian(header[..4]), header[4..])
  }

  function AtomAt(data: seq<byte>, pos: nat): (a: Atom)
    ensures a.size > 0 || a.kind != [] ==> pos + 8 <= |data|
  {
    AtomInfo(Slice(data, pos, 8))
  }

  // ---- Is there a moov? ----

  /** Where the walk along the top-level atoms meets a `moov`. */
  function FinalMoov(data: seq<byte>, pos: nat): Option<nat>
    decreases |data| - pos
  {
    if pos + 8 > |data| then None
    else
      var a := AtomAt(data, pos);
      if a.kind == MOOV then Some(pos)
      else if a.size < 8 then None
      else FinalMoov(data, pos + a.size)
  }

  // The same told by the bytes.

  /** The atom at a position: a 32-bit size, and a kind that is text. */
  ghost predicate AtomIs(data: seq<byte>, pos: nat, size: nat, kind: seq<byte>) {
    && pos + 8 <= |data| && size == BigEndian(data[pos..pos + 4]) && kind == data[pos + 4..pos + 8]
    && exists cps :: AreScalars(cps) && kind == EncodeAll(cps)
  }

  lemma AtomIsRead(data: seq<byte>, pos: nat, size: nat, kind: seq<byte>)
    ensures AtomIs(data, pos, size, kind) <==> AtomAt(data, pos) == Atom(size, kind) && kind != []
  {
    hide Decodes, BigEndian, AreScalars, EncodeAll;
    if pos + 8 <= |data| {
      var header := Slice(data, pos, 8);
      assert header[..4] == data[pos..pos + 4] && header[4..] == data[pos + 4..pos + 8];
      DecodesIffText(header[4..]);
    }
  }

  /** One atom leads to the next: it can be read, is no `moov`, and is at least eight bytes long. */
  ghost predicate LeadsTo(data: seq<byte>, pos: nat, next: nat) {
    exists size, kind :: AtomIs(data, pos, size, kind) && kind != MOOV && size >= 8 && next == pos + size
  }

  ghost predicate MoovAt(data: seq<byte>, pos: nat) { exists size :: AtomIs(data, pos, size, MOOV) }

  /** A chain of atoms, each leading to the next. */
  ghost predicate IsChain(data: seq<byte>, chain: seq<nat>) {
    forall i, k :: 0 <= i < |chain| && k == i + 1 && k < |chain| ==> LeadsTo(data, chain[i], chain[k])
  }

  ghost predicate ChainTo(data: seq<byte>, chain: seq<nat>, from: nat, to: nat) {
    chain != [] && chain[0] == from && chain[|chain| - 1] == to && IsChain(data, chain)
  }

  lemma StepIsLead(data: seq<byte>, pos: nat)
    ensures var a := AtomAt(data, pos);
            && (MoovAt(data, pos) <==> a.kind == MOOV)
            && (forall next :: LeadsTo(data, pos, next) <==>
                  a.kind != [] && a.kind != MOOV && a.size >= 8 && next == pos + a.size)
  {
    hide AtomAt, AtomIs;
    var a := AtomAt(data, pos);
    AtomIsRead(data, pos, a.size, a.kind);
    AtomIsRead(data, pos, a.size, MOOV);
    forall size ensures AtomIs(data, pos, size, MOOV) ==> a.kind == MOOV { AtomIsRead(data, pos, size, MOOV); }
    forall next ensures LeadsTo(data, pos, next) <==>
                        a.kind != [] && a.kind != MOOV && a.size >= 8 && next == pos + a.size
    {
      forall size, kind ensures AtomIs(data, pos, size, kind) ==> a == Atom(size, kind) && kind != [] {
        AtomIsRead(data, pos, size, kind);
      }
    }
  }

  lemma SizedHasKind(data: seq<byte>, pos: nat)
    ensures AtomAt(data, pos).size >= 8 ==> AtomAt(data, pos).kind != []
    ensures AtomAt(data, pos).kind != [] ==> pos + 8 <= |data|
  {
  }

  lemma {:induction false} FoundHasChain(data: seq<byte>, pos: nat) returns (chain: seq<nat>)
    requires FinalMoov(data, pos).Some?
    ensures var p := FinalMoov(data, pos).value; ChainTo(data, chain, pos, p) && MoovAt(data, p)
    decreases |data| - pos
  {
    hide AtomAt, LeadsTo, MoovAt;
    StepIsLead(data, pos);
    SizedHasKind(data, pos);
    var a := AtomAt(data, pos);
    if a.kind == MOOV {
      chain := [pos];
    } else {
      var rest := FoundHasChain(data, pos + a.size);
      chain := [pos] + rest;
    }
  }

  lemma {:induction false} ChainIsFound(data: seq<byte>, pos: nat, chain: seq<nat>, p: nat)
    requires ChainTo(data, chain, pos, p) && MoovAt(data, p)
    ensures FinalMoov(data, pos) == Some(p)
    decreases |chain|
  {
    hide AtomAt, LeadsTo, MoovAt;
    StepIsLead(data, pos);
    SizedHasKind(data, pos);
    if |chain| > 1 {
      assert LeadsTo(data, chain[0], chain[1]);
      ChainIsFound(data, chain[1], chain[1..], p);
    }
  }

  /** Main result on the first walker: it finds a `moov` exactly when a chain of atoms leads to it. */
  lemma FinalMoovIff(data: seq<byte>, pos: nat, p: nat)
    ensures FinalMoov(data, pos) == Some(p) <==> MoovAt(data, p) && exists chain :: ChainTo(data, chain, pos, p)
  {
    hide FinalMoov, MoovAt, ChainTo;
    if FinalMoov(data, pos) == Some(p) {
      var chain := FoundHasChain(data, pos);
    }
    if MoovAt(data, p) {
      if chain :| ChainTo(data, chain, pos, p) { ChainIsFound(data, pos, chain, p); }
    }
  }

  ghost predicate ReachesMoov(data: seq<byte>, pos: nat) {
    exists p, chain :: ChainTo(data, chain, pos, p) && MoovAt(data, p)
  }

  lemma FindsIfReached(data: seq<byte>, pos: nat)
    ensures FinalMoov(data, pos).Some? <==> ReachesMoov(data, pos)
  {
    hide FinalMoov, MoovAt, ChainTo;
    if FinalMoov(data, pos).Some? { FinalMoovIff(data, pos, FinalMoov(data, pos).value); }
    if p, chain :| ChainTo(data, chain, pos, p) && MoovAt(data, p) { FinalMoovIff(data, pos, p); }
  }

  datatype Answer = Yes | No | Raised

  /** The walk ends on every byte string. A read cut short counts as "no"; every other answer is what
      the atom chain says, and when the server answers in full the answer always is. */
  method HasFinalMoov(r: RangeReader) returns (answer: Answer, ghost cut: bool)
    requires r.Valid() && Honest(r.remote, r.net)
    modifies r`pos, r`requests
    ensures answer.Yes? ==> ReachesMoov(r.remote, old(r.pos))
    ensures answer.No? ==> cut || !ReachesMoov(r.remote, old(r.pos))
    ensures Complete(r.remote, r.net) ==> !cut && answer == if ReachesMoov(r.remote, old(r.pos)) then Yes else No
  {
    hide AtomInfo, Honest, Complete, ReachesMoov;
    FindsIfReached(r.remote, r.pos);
    cut := false;
    while true
      invariant FinalMoov(r.remote, r.pos) == FinalMoov(r.remote, old(r.pos)) && !cut
      decreases |r.remote| - r.pos
    {
      var res := ReadNext(r, 8);
      if res.Truncated? {
        cut := true;
        return No, cut;
      } else if res.Offline? {
        return Raised, cut;
      }
      var header := res.bytes;
      if |header| < 8 {
        return No, cut;
      }
      var a := AtomInfo(header);
      if a.kind == MOOV {
        return Yes, cut;
      }
      if a.size < 8 {
        return No, cut;
      }
      r.Seek(r.pos + a.size - 8);
    }
  }

  // ---- The GPS walk ----

  /** The payload of the GPS atom a table entry names, if it is one. */
  function GpsAtom(data: seq<byte>, pos: nat, size: nat): Option<seq<byte>> {
    var d := Slice(data, pos, size);
    if |d| < 12 then None
    else if BigEndian(d[..4]) != size || d[4..8] != FREE || d[8..12] != MAGIC then None
    else Some(d[12..])
  }

  /** Payloads gathered, and whether the walk died on a short table entry. */
  datatype Walked = Walked(payloads: seq<seq<byte>>, died: bool)

  function TableFrom(data: seq<byte>, g: nat, end: nat): Walked
    decreases end - g
  {
    if g >= end then Walked([], false)
    else
      var e := Slice(data, g, 8);
      if |e| < 8 then Walked([], true)
      else
        var p := GpsAtom(data, BigEndian(e[..4]), BigEndian(e[4..]));
        var rest := TableFrom(data, g + 8, end);
        Walked((if p.Some? then [p.value] else []) + rest.payloads, rest.died)
  }

  function SubFrom(data: seq<byte>, sub: nat, end: nat): Walked
    decreases end - sub
  {
    if sub >= end then Walked([], false)
    else
      var a := AtomAt(data, sub);
      if a.size < 8 then Walked([], false)
      else
        var table := if a.kind == GPS_BOX then TableFrom(data, sub + 16, sub + a.size) else Walked([], false);
        if table.died then table
        else
          var rest := SubFrom(data, sub + a.size, end);
          Walked(table.payloads + rest.payloads, rest.died)
  }

  /** The whole walk: what it gathers, and the `moov` atoms it enters, in order. */
  datatype Parsed = Parsed(payloads: seq<seq<byte>>, entered: seq<nat>, died: bool)

  function ParseFrom(data: seq<byte>, offset: nat): Parsed
    decreases |data| - offset
  {
    var a := AtomAt(data, offset);
    if a.size == 0 then Parsed([], [], false)
    else if a.kind == MOOV then
      var sub := SubFrom(data, offset + 8, offset + a.size);
      if sub.died then Parsed(sub.payloads, [offset], true)
      else
        var rest := ParseFrom(data, offset + a.size);
        Parsed(sub.payloads + rest.payloads, [offset] + rest.entered, rest.died)
    else ParseFrom(data, offset + a.size)
  }

  /** How a walk ended: to its end, on a short table entry, or on a reader's exception. */
  datatype End = Ended | Died | Interrupted

  method ReadAtomHeader(r: RangeReader) returns (a: Atom, ok: bool)
    requires r.Valid() && Honest(r.remote, r.net)
    modifies r`pos, r`requests
    ensures Complete(r.remote, r.net) ==> ok
    ensures ok ==> a == AtomAt(r.remote, old(r.pos)) && (a.size > 0 ==> r.pos == old(r.pos) + 8)
  {
    hide Honest, Complete;
    var res := ReadNext(r, 8);
    ok := res.Data?;
    a := if ok then AtomInfo(res.bytes) else Atom(0, []);
  }

  method ReadGpsAtom(r: RangeReader, pos: nat, size: nat) returns (p: Option<seq<byte>>, ok: bool)
    requires r.Valid() && Honest(r.remote, r.net)
    modifies r`pos, r`requests
    ensures Complete(r.remote, r.net) ==> ok
    ensures ok ==> p == GpsAtom(r.remote, pos, size)
  {
    hide Honest, Complete;
    r.Seek(pos);
    var res := ReadNext(r, size);
    if !res.Data? {
      return None, false;
    }
    var d := res.bytes;
    ok := true;
    if |d| < 12 || BigEndian(d[..4]) != size || d[4..8] != FREE || d[8..12] != MAGIC {
      p := None;
    } else {
      p := Some(d[12..]);
    }
  }

  lemma TableEnds(data: seq<byte>, g: nat, end: nat)
    requires g >= end
    ensures TableFrom(data, g, end) == Walked([], false)
  {
  }

  lemma TableNext(data: seq<byte>, g: nat, end: nat, before: seq<seq<byte>>)
    requires g < end
    ensures var e, now, rest := Slice(data, g, 8), TableFrom(data, g, end), TableFrom(data, g + 8, end);
            if |e| < 8 then now == Walked([], true)
            else
              var p := GpsAtom(data, BigEndian(e[..4]), BigEndian(e[4..]));
              var more := if p.Some? then before + [p.value] else before;
              before + now.payloads == more + rest.payloads && now.died == rest.died
  {
  }

  method WalkTable(r: RangeReader, from: nat, end: nat) returns (payloads: seq<seq<byte>>, how: End)
    requires r.Valid() && Honest(r.remote, r.net)
    modifies r`pos, r`requests
    ensures Complete(r.remote, r.net) ==> !how.Interrupted?
    ensures !how.Interrupted? ==> TableFrom(r.remote, from, end) == Walked(payloads, how.Died?)
  {
    hide GpsAtom, BigEndian, TableFrom, Slice, Honest, Complete;
    payloads := [];
    var g := from;
    r.Seek(g);
    while g < end
      invariant r.pos == g
      invariant var rest := TableFrom(r.remote, g, end);
                TableFrom(r.remote, from, end) == Walked(payloads + rest.payloads, rest.died)
      decreases end - g
    {
      var res := ReadNext(r, 8);
      if !res.Data? {
        return payloads, Interrupted;
      }
      var e := res.bytes;
      TableNext(r.remote, g, end, payloads);
      if |e| < 8 {
        return payloads, Died;
      }
      var p, ok := ReadGpsAtom(r, BigEndian(e[..4]), BigEndian(e[4..]));
      if !ok {
        return payloads, Interrupted;
      }
      if p.Some? {
        payloads := payloads + [p.value];
      }
      g := g + 8;
      r.Seek(g);
    }
    TableEnds(r.remote, g, end);
    how := Ended;
  }

  lemma SubEnds(data: seq<byte>, sub: nat, end: nat)
    requires sub >= end
    ensures SubFrom(data, sub, end) == Walked([], false)
  {
  }

  lemma SubNext(data: seq<byte>, sub: nat, end: nat, before: seq<seq<byte>>)
    requires sub < end
    ensures var a, now := AtomAt(data, sub), SubFrom(data, sub, end);
            if a.size < 8 then now == Walked([], false)
            else
              var table := if a.kind == GPS_BOX then TableFrom(data, sub + 16, sub + a.size) else Walked([], false);
              if table.died then now == table
              else
                var rest := SubFrom(data, sub + a.size, end);
                var sofar := if a.kind == GPS_BOX then before + table.payloads else before;
                && before + now.payloads == sofar + rest.payloads
                && now.died == rest.died
  {
    hide AtomAt, TableFrom;
  }

  method WalkMoov(r: RangeReader, from: nat, end: nat) returns (payloads: seq<seq<byte>>, how: End)
    requires r.Valid() && Honest(r.remote, r.net) && r.pos == from
    modifies r`pos, r`requests
    ensures Complete(r.remote, r.net) ==> !how.Interrupted?
    ensures !how.Interrupted? ==> SubFrom(r.remote, from, end) == Walked(payloads, how.Died?)
  {
    hide AtomAt, TableFrom, SubFrom, Honest, Complete;
    payloads := [];
    var sub := from;
    while sub < end
      invariant r.pos == sub
      invariant var rest := SubFrom(r.remote, sub, end);
                SubFrom(r.remote, from, end) == Walked(payloads + rest.payloads, rest.died)
      decreases end - sub
    {
      var a, ok := ReadAtomHeader(r);
      if !ok {
        return payloads, Interrupted;
      }
      SubNext(r.remote, sub, end, payloads);
      if a.size < 8 {
        return payloads, Ended;
      }
      if a.kind == GPS_BOX {
        var found, how' := WalkTable(r, sub + 16, sub + a.size);
        payloads := payloads + found;
        if !how'.Ended? {
          return payloads, how';
        }
      }
      sub := sub + a.size;
      r.Seek(sub);
    }
    SubEnds(r.remote, sub, end);
    how := Ended;
  }

  lemma ParseNext(data: seq<byte>, at: nat)
    ensures var a, now := AtomAt(data, at), ParseFrom(data, at);
            if a.size == 0 then now == Parsed([], [], false)
            else
              var next := ParseFrom(data, at + a.size);
              if a.kind != MOOV then now == next
              else
                var sub := SubFrom(data, at + 8, at + a.size);
                now == if sub.died then Parsed(sub.payloads, [at], true)
                       else Parsed(sub.payloads + next.payloads, [at] + next.entered, next.died)
  {
    hide AtomAt, SubFrom;
  }

  /** What was gathered before an atom stays in front. */
  lemma ParseMore(data: seq<byte>, at: nat, payloads: seq<seq<byte>>, entered: seq<nat>)
    requires AtomAt(data, at).size != 0
    ensures var a, now := AtomAt(data, at), ParseFrom(data, at);
            var next, sub := ParseFrom(data, at + a.size), SubFrom(data, at + 8, at + a.size);
            if a.kind != MOOV then now == next
            else if sub.died then
              && now.died && payloads + now.payloads == payloads + sub.payloads
              && entered + now.entered == entered + [at]
            else
              && now.died == next.died
              && payloads + now.payloads == payloads + sub.payloads + next.payloads
              && entered + now.entered == entered + [at] + next.entered
  {
    hide AtomAt, SubFrom, ParseFrom;
    ParseNext(data, at);
  }

  lemma ParseFirst(data: seq<byte>)
    ensures var now := ParseFrom(data, 0); now == Parsed([] + now.payloads, [] + now.entered, now.died)
  {
    hide ParseFrom;
  }

  /** The walk ends on every byte string; unless the reader raised, it gathers exactly what the
      atoms of the file say. */
  method ParseMoov(r: RangeReader) returns (payloads: seq<seq<byte>>, ghost entered: seq<nat>, how: End)
    requires r.Valid() && Honest(r.remote, r.net) && r.pos == 0
    modifies r`pos, r`requests
    ensures Complete(r.remote, r.net) ==> !how.Interrupted?
    ensures !how.Interrupted? ==> ParseFrom(r.remote, 0) == Parsed(payloads, entered, how.Died?)
  {
    hide AtomAt, SubFrom, ParseFrom, Honest, Complete;
    payloads, entered := [], [];
    ParseFirst(r.remote);
    var offset := 0;
    while true
      invariant r.pos == offset
      invariant var rest := ParseFrom(r.remote, offset);
                ParseFrom(r.remote, 0) == Parsed(payloads + rest.payloads, entered + rest.entered, rest.died)
      decreases |r.remote| - offset
    {
      var a, ok := ReadAtomHeader(r);
      if !ok {
        return payloads, entered, Interrupted;
      }
      if a.size == 0 {
        ParseNext(r.remote, offset);
        return payloads, entered, Ended;
      }
      ParseMore(r.remote, offset, payloads, entered);
      if a.kind == MOOV {
        entered := entered + [offset];
        var found, how' := WalkMoov(r, offset + 8, offset + a.size);
        payloads := payloads + found;
        if !how'.Ended? {
          return payloads, entered, how';
        }
      }
      offset := offset + a.size;
      r.Seek(offset);
    }
  }

  // ---- The two walkers agree ----

  /** When the first walker finds a `moov`, the second enters that same atom first, unless its
      size is 0, in which case it enters none. */
  lemma {:induction false} SameMoov(data: seq<byte>, pos: nat)
    requires FinalMoov(data, pos).Some?
    ensures var p, walk := FinalMoov(data, pos).value, ParseFrom(data, pos);
            && pos <= p && AtomAt(data, p).kind == MOOV
            && (if AtomAt(data, p).size != 0 then walk.entered != [] && walk.entered[0] == p
                else walk == Parsed([], [], false))
    decreases |data| - pos
  {
    hide AtomAt, SubFrom;
    var a := AtomAt(data, pos);
    if a.kind != MOOV {
      SameMoov(data, pos + a.size);
    }
  }

  // ---- Damaged files ----

  /** A damaged atom inside a `moov` ends that `moov`, and what was gathered counts; a table cut short by the
      end of the file kills the walk; and the walk of the file ends where no atom can be read or one claims
      no size. */
  lemma DamageStops(data: seq<byte>, pos: nat, end: nat)
    ensures pos < end && AtomAt(data, pos).size < 8 ==> SubFrom(data, pos, end) == Walked([], false)
    ensures pos < end && pos + 8 > |data| ==> TableFrom(data, pos, end) == Walked([], true)
    ensures pos + 8 > |data| || AtomAt(data, pos).size == 0 ==> ParseFrom(data, pos) == Parsed([], [], false)
    ensures pos + 8 > |data| ==> AtomAt(data, pos) == Atom(0, [])
  {
  }

  /** Without a GPS box an atom inside a `moov` is passed over, as is an atom that is no `moov` in the file. */
  lemma OthersArePassed(data: seq<byte>, pos: nat, end: nat)
    ensures var a := AtomAt(data, pos);
            && (pos < end && a.size >= 8 && a.kind != [103, 112, 115, 32] ==>
                  SubFrom(data, pos, end) == SubFrom(data, pos + a.size, end))
            && (a.size > 0 && a.kind != [109, 111, 111, 118] ==> ParseFrom(data, pos) == ParseFrom(data, pos + a.size))
  {
    hide AtomAt, TableFrom;
  }

  // ---- What a camera writes is what the walk gathers ----

  /** A GPS block as the camera writes it: size, kind, magic, payload. */
  function GpsBlock(payload: seq<byte>): seq<byte> {
    ToBytes(12 + |payload|, 4) + (FREE + (MAGIC + payload))
  }

  /** A table entry names a GPS block exactly when the size, the kind and the magic found there say so; its
      payload is what follows, as far as the file goes. */
  lemma GpsAtomIff(data: seq<byte>, pos: nat, size: nat, payload: seq<byte>)
    ensures GpsAtom(data, pos, size) == Some(payload)
            <==> && size >= 12 && pos + 12 <= |data| && BigEndian(data[pos..pos + 4]) == size
                 && data[pos + 4..pos + 8] == [102, 114, 101, 101] && data[pos + 8..pos + 12] == [71, 80, 83, 32]
                 && payload == Slice(data, pos + 12, size - 12)
  {
    hide BigEndian;
    var d := Slice(data, pos, size);
    if |d| >= 12 {
      PartOfSlice(data, pos, size, 0, 4);
      PartOfSlice(data, pos, size, 4, 4);
      PartOfSlice(data, pos, size, 8, 4);
      assert d[12..] == Slice(data, pos + 12, size - 12);
    }
  }

  /** An entry of the table: where a block is and how long. */
  datatype Entry = Entry(at: nat, payload: seq<byte>)

  function EntryBytes(e: Entry): (b: seq<byte>)
    ensures |b| == 8
  {
    ToBytes(e.at, 4) + ToBytes(12 + |e.payload|, 4)
  }

  function TableBytes(entries: seq<Entry>): (b: seq<byte>)
    ensures |b| == 8 * |entries|
  {
    if entries == [] then [] else EntryBytes(entries[0]) + TableBytes(entries[1..])
  }

  /** The block is in the file where the entry says, and its place and size fit 32 bits. */
  ghost predicate Stored(data: seq<byte>, e: Entry) {
    && e.at < Pow256(4) && 12 + |e.payload| < Pow256(4)
    && Holds(data, e.at, GpsBlock(e.payload))
  }

  function Payloads(entries: seq<Entry>): seq<seq<byte>> {
    if entries == [] then [] else [entries[0].payload] + Payloads(entries[1..])
  }

  lemma EntryIsRead(e: Entry)
    requires e.at < Pow256(4) && 12 + |e.payload| < Pow256(4)
    ensures BigEndian(EntryBytes(e)[..4]) == e.at
    ensures BigEndian(EntryBytes(e)[4..]) == 12 + |e.payload|
  {
    BigEndianRoundTrip(e.at, 4);
    BigEndianRoundTrip(12 + |e.payload|, 4);
    assert EntryBytes(e)[..4] == ToBytes(e.at, 4);
    assert EntryBytes(e)[4..] == ToBytes(12 + |e.payload|, 4);
  }

  lemma BlockIsRead(data: seq<byte>, e: Entry)
    requires Stored(data, e)
    ensures GpsAtom(data, e.at, 12 + |e.payload|) == Some(e.payload)
  {
    hide BigEndian, ToBytes, Slice;
    BigEndianRoundTrip(12 + |e.payload|, 4);
    var d := GpsBlock(e.payload);
    assert |d| == 12 + |e.payload|;
    SliceOfPart(data, e.at, d, 0, |d|);
    assert d[0..|d|] == d;
    assert d[..4] == ToBytes(12 + |e.payload|, 4);
    assert d[4..8] == FREE;
    assert d[8..12] == MAGIC;
    assert d[12..] == e.payload;
  }

  /** A table of stored blocks is walked to its end and gives every payload, in table order. */
  lemma {:induction false} TableRoundTrip(data: seq<byte>, g: nat, entries: seq<Entry>)
    requires Holds(data, g, TableBytes(entries))
    requires forall e :: e in entries ==> Stored(data, e)
    ensures TableFrom(data, g, g + 8 * |entries|) == Walked(Payloads(entries), false)
    decreases |entries|
  {
    if entries != [] {
      var e, rest := entries[0], entries[1..];
      HoldsParts(data, g, EntryBytes(e), TableBytes(rest));
      TableRoundTrip(data, g + 8, rest);
      OneEntry(data, g, e);
      assert g + 8 + 8 * |rest| == g + 8 * |entries|;
    }
  }

  lemma OneEntry(data: seq<byte>, g: nat, e: Entry)
    requires Stored(data, e) && Holds(data, g, EntryBytes(e))
    ensures var b := Slice(data, g, 8);
            && |b| == 8
            && GpsAtom(data, BigEndian(b[..4]), BigEndian(b[4..])) == Some(e.payload)
  {
    SliceOfPart(data, g, EntryBytes(e), 0, 8);
    assert EntryBytes(e)[0..8] == EntryBytes(e);
    EntryIsRead(e);
    BlockIsRead(data, e);
  }

  // ---- A whole recording ----

  /** An atom with a 32-bit size. */
  datatype Part = Part(kind: seq<byte>, body: seq<byte>)
  {
    ghost predicate WellFormed() {
      |kind| == 4 && Decodes(kind, 0) && 8 + |body| < Pow256(4)
    }

    function Encode(): (b: seq<byte>)
      ensures |b| == 4 + |kind| + |body|
    {
      ToBytes(8 + |body|, 4) + (kind + body)
    }
  }

  /** An atom inside `moov`; a GPS box holds eight bytes and then a table of stored blocks. */
  datatype Inner = Inner(part: Part, entries: seq<Entry>)
  {
    ghost predicate Fits(data: seq<byte>) {
      && part.WellFormed()
      && (if part.kind == GPS_BOX then
            && |part.body| >= 8 && part.body[8..] == TableBytes(entries)
            && forall e :: e in entries ==> Stored(data, e)
          else entries == [])
    }
  }

  /** A top-level atom; a `moov` holds atoms. */
  datatype Top = Top(part: Part, inners: seq<Inner>)
  {
    ghost predicate Fits(data: seq<byte>) {
      && part.WellFormed()
      && (if part.kind == MOOV then
            part.body == InnerBytes(inners) && forall a :: a in inners ==> a.Fits(data)
          else inners == [])
    }
  }

  function InnerBytes(inners: seq<Inner>): seq<byte> {
    if inners == [] then [] else inners[0].part.Encode() + InnerBytes(inners[1..])
  }

  function TopBytes(tops: seq<Top>): seq<byte> {
    if tops == [] then [] else tops[0].part.Encode() + TopBytes(tops[1..])
  }

  function InnerPayloads(inners: seq<Inner>): seq<seq<byte>> {
    if inners == [] then [] else Payloads(inners[0].entries) + InnerPayloads(inners[1..])
  }

  function TopPayloads(tops: seq<Top>): seq<seq<byte>> {
    if tops == [] then [] else InnerPayloads(tops[0].inners) + TopPayloads(tops[1..])
  }

  function Entered(tops: seq<Top>, at: nat): seq<nat> {
    if tops == [] then []
    else (if tops[0].part.kind == MOOV then [at] else []) + Entered(tops[1..], at + |tops[0].part.Encode()|)
  }

  lemma PartIsRead(data: seq<byte>, pos: nat, p: Part)
    requires p.WellFormed() && Holds(data, pos, p.Encode())
    ensures AtomAt(data, pos) == Atom(8 + |p.body|, p.kind)
  {
    hide Decodes, BigEndian, Pow256, ToBytes, Holds;
    HeaderParts(p);
    SliceOfPart(data, pos, p.Encode(), 0, 8);
    BigEndianRoundTrip(8 + |p.body|, 4);
  }

  lemma HeaderParts(p: Part)
    requires |p.kind| == 4
    ensures p.Encode()[0..8][..4] == ToBytes(8 + |p.body|, 4) && p.Encode()[0..8][4..] == p.kind
  {
    hide ToBytes;
  }

  lemma BodyHeld(data: seq<byte>, pos: nat, p: Part)
    requires p.WellFormed() && Holds(data, pos, p.Encode())
    ensures Holds(data, pos + 8, p.body)
  {
    hide Decodes, Pow256, ToBytes, Holds;
    HoldsParts(data, pos, ToBytes(8 + |p.body|, 4), p.kind + p.body);
    HoldsParts(data, pos + 4, p.kind, p.body);
  }

  lemma TableHeld(data: seq<byte>, pos: nat, body: seq<byte>, table: seq<byte>)
    requires Holds(data, pos, body) && |body| >= 8 && body[8..] == table
    ensures Holds(data, pos + 8, table)
  {
    assert body == body[..8] + body[8..];
    HoldsParts(data, pos, body[..8], body[8..]);
  }

  /** What a GPS box, or another atom, adds to the walk. */
  lemma InnerTable(data: seq<byte>, sub: nat, a: Inner)
    requires a.Fits(data) && Holds(data, sub, a.part.Encode())
    ensures var n := 8 + |a.part.body|;
            AtomAt(data, sub) == Atom(n, a.part.kind)
            && (if a.part.kind == GPS_BOX then TableFrom(data, sub + 16, sub + n) else Walked([], false))
               == Walked(Payloads(a.entries), false)
  {
    hide Decodes, BigEndian, Pow256, ToBytes, Holds, AtomAt, TableFrom, Stored;
    PartIsRead(data, sub, a.part);
    if a.part.kind == GPS_BOX {
      BodyHeld(data, sub, a.part);
      TableHeld(data, sub + 8, a.part.body, TableBytes(a.entries));
      TableRoundTrip(data, sub + 16, a.entries);
      assert |a.part.body| == 8 + |TableBytes(a.entries)|;
    }
  }

  lemma {:induction false} InnersRoundTrip(data: seq<byte>, sub: nat, inners: seq<Inner>, end: nat)
    requires forall a :: a in inners ==> a.Fits(data)
    requires Holds(data, sub, InnerBytes(inners)) && end == sub + |InnerBytes(inners)|
    ensures SubFrom(data, sub, end) == Walked(InnerPayloads(inners), false)
    decreases |inners|
  {
    hide Holds, AtomAt, TableFrom, SubFrom, Inner.Fits, ToBytes;
    if inners == [] {
      SubEnds(data, sub, end);
    } else {
      var a, rest := inners[0], inners[1..];
      assert a in inners;
      KindsAreFour(data, a);
      HoldsParts(data, sub, a.part.Encode(), InnerBytes(rest));
      InnerTable(data, sub, a);
      InnersRoundTrip(data, sub + |a.part.Encode()|, rest, end);
      SubNext(data, sub, end, []);
      var now, more := SubFrom(data, sub, end).payloads, InnerPayloads(rest);
      assert [] + now == now && [] + Payloads(a.entries) == Payloads(a.entries) && [] + more == more;
    }
  }

  lemma KindsAreFour(data: seq<byte>, a: Inner)
    requires a.Fits(data)
    ensures |a.part.kind| == 4
  {
  }

  lemma FileEnds(data: seq<byte>)
    ensures AtomAt(data, |data|) == Atom(0, [])
  {
  }

  lemma TopWalk(data: seq<byte>, at: nat, t: Top)
    requires t.Fits(data) && Holds(data, at, t.part.Encode())
    ensures |t.part.Encode()| == 8 + |t.part.body| && AtomAt(data, at) == Atom(8 + |t.part.body|, t.part.kind)
    ensures t.part.kind == MOOV ==>
              SubFrom(data, at + 8, at + 8 + |t.part.body|) == Walked(InnerPayloads(t.inners), false)
    ensures t.part.kind != MOOV ==> InnerPayloads(t.inners) == []
  {
    hide Decodes, Holds, AtomAt, SubFrom, Inner.Fits, ToBytes, Pow256;
    PartIsRead(data, at, t.part);
    if t.part.kind == MOOV {
      BodyHeld(data, at, t.part);
      InnersRoundTrip(data, at + 8, t.inners, at + 8 + |t.part.body|);
    }
  }

  lemma FinalStep(data: seq<byte>, pos: nat)
    ensures var a := AtomAt(data, pos);
            FinalMoov(data, pos) == if a.kind == MOOV then Some(pos)
                                    else if a.size < 8 then None
                                    else FinalMoov(data, pos + a.size)
  {
    SizedHasKind(data, pos);
  }

  /** Over a whole recording the first walker finds the first `moov`, wherever it stands, and nothing when
      there is none. */
  lemma {:induction false} MoovOfRecording(data: seq<byte>, at: nat, tops: seq<Top>) returns (i: nat)
    requires forall t :: t in tops ==> t.Fits(data)
    requires Holds(data, at, TopBytes(tops)) && at + |TopBytes(tops)| == |data|
    ensures i <= |tops| && (forall j :: 0 <= j < i ==> tops[j].part.kind != MOOV)
    ensures i < |tops| ==> tops[i].part.kind == MOOV && FinalMoov(data, at) == Some(at + |TopBytes(tops[..i])|)
    ensures i == |tops| ==> FinalMoov(data, at).None?
    decreases |tops|
  {
    hide Holds, AtomAt, FinalMoov, Top.Fits, ToBytes, Part.Encode;
    FinalStep(data, at);
    i := 0;
    if tops == [] {
      FileEnds(data);
    } else {
      var t, rest := tops[0], tops[1..];
      assert t in tops;
      HoldsParts(data, at, t.part.Encode(), TopBytes(rest));
      TopWalk(data, at, t);
      if t.part.kind == MOOV {
        assert tops[..0] == [];
      } else {
        i := MoovOfRecording(data, at + |t.part.Encode()|, rest);
        PrefixBytes(tops, i);
        i := i + 1;
      }
    }
  }

  lemma PrefixBytes(tops: seq<Top>, i: nat)
    requires i < |tops|
    ensures |TopBytes(tops[..i + 1])| == |tops[0].part.Encode()| + |TopBytes(tops[1..][..i])|
  {
    assert tops[..i + 1][1..] == tops[1..][..i] && tops[..i + 1][0] == tops[0];
  }

  /** Main result: over a whole recording of atoms with 32-bit sizes the walk enters every `moov`
      and gathers the payload of every block of every GPS table, in order. */
  lemma {:induction false} RecordingRoundTrip(data: seq<byte>, at: nat, tops: seq<Top>)
    requires forall t :: t in tops ==> t.Fits(data)
    requires Holds(data, at, TopBytes(tops)) && at + |TopBytes(tops)| == |data|
    ensures ParseFrom(data, at) == Parsed(TopPayloads(tops), Entered(tops, at), false)
    decreases |tops|
  {
    hide Holds, AtomAt, SubFrom, ParseFrom, Top.Fits, InnerPayloads, ToBytes;
    ParseNext(data, at);
    if tops == [] {
      FileEnds(data);
    } else {
      var t, rest := tops[0], tops[1..];
      assert t in tops;
      HoldsParts(data, at, t.part.Encode(), TopBytes(rest));
      TopWalk(data, at, t);
      RecordingRoundTrip(data, at + |t.part.Encode()|, rest);
    }
  }
}
