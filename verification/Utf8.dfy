/** Whether bytes are UTF-8 text, as decoding an atom's kind requires. */
module Utf8 {
  import opened Bytes

  predicate Continues(b: seq<byte>, i: nat) { i < |b| && 0x80 <= b[i] <= 0xBF }

  /** The length of the UTF-8 sequence at i, or 0 when there is none (RFC 3629, section 4). */
  function Utf8Length(b: seq<byte>, i: nat): (n: nat)
    requires i < |b|
    ensures i + n <= |b|
  {
    var x := b[i];
    if x < 0x80 then 1
    else if 0xC2 <= x <= 0xDF && Continues(b, i + 1) then 2
    else if x == 0xE0 && Continues(b, i + 1) && b[i + 1] >= 0xA0 && Continues(b, i + 2) then 3
    else if x == 0xED && Continues(b, i + 1) && b[i + 1] <= 0x9F && Continues(b, i + 2) then 3
    else if 0xE1 <= x <= 0xEF && x != 0xED && Continues(b, i + 1) && Continues(b, i + 2) then 3
    else if x == 0xF0 && Continues(b, i + 1) && b[i + 1] >= 0x90 && Continues(b, i + 2) && Continues(b, i + 3) then 4
    else if x == 0xF4 && Continues(b, i + 1) && b[i + 1] <= 0x8F && Continues(b, i + 2) && Continues(b, i + 3) then 4
    else if 0xF1 <= x <= 0xF3 && Continues(b, i + 1) && Continues(b, i + 2) && Continues(b, i + 3) then 4
    else 0
  }

  predicate Decodes(b: seq<byte>, i: nat)
    requires i <= |b|
    decreases |b| - i
  {
    i == |b| || (Utf8Length(b, i) > 0 && Decodes(b, i + Utf8Length(b, i)))
  }

  // ---- Decodable bytes are exactly the encoded texts ----

  /** A Unicode scalar value. */
  ghost predicate IsScalar(cp: nat) { cp < 0xD800 || 0xE000 <= cp < 0x11_0000 }

  /** Its encoding (RFC 3629, section 3). */
  ghost function Encode(cp: nat): (b: seq<byte>)
    requires IsScalar(cp)
    ensures 1 <= |b| <= 4
  {
    if cp < 0x80 then [cp]
    else if cp < 0x800 then [0xC0 + cp / 0x40, 0x80 + cp % 0x40]
    else if cp < 0x1_0000 then [0xE0 + cp / 0x1000, 0x80 + cp / 0x40 % 0x40, 0x80 + cp % 0x40]
    else [0xF0 + cp / 0x4_0000, 0x80 + cp / 0x1000 % 0x40, 0x80 + cp / 0x40 % 0x40, 0x80 + cp % 0x40]
  }

  ghost predicate AreScalars(cps: seq<nat>) {
    forall i :: 0 <= i < |cps| ==> IsScalar(cps[i])
  }

  ghost function EncodeAll(cps: seq<nat>): seq<byte>
    requires AreScalars(cps)
  {
    if cps == [] then [] else Encode(cps[0]) + EncodeAll(cps[1..])
  }

  /** One encoded character is recognised, with its length. */
  lemma CharacterIsRead(b: seq<byte>, i: nat, cp: nat)
    requires IsScalar(cp) && i + |Encode(cp)| <= |b| && b[i..i + |Encode(cp)|] == Encode(cp)
    ensures Utf8Length(b, i) == |Encode(cp)|
  {
    var e := Encode(cp);
    forall k | 0 <= k < |e| ensures b[i + k] == e[k] {
      assert b[i..i + |e|][k] == e[k];
    }
    assert b[i] == e[0];
  }

  lemma OfTwo(w: int, x: int) returns (cp: nat)
    requires 0xC2 <= w <= 0xDF && 0x80 <= x <= 0xBF
    ensures IsScalar(cp) && Encode(cp) == [w, x]
  {
    cp := (w - 0xC0) * 0x40 + (x - 0x80);
  }

  lemma OfThree(w: int, x: int, y: int) returns (cp: nat)
    requires 0xE0 <= w <= 0xEF && 0x80 <= x <= 0xBF && 0x80 <= y <= 0xBF
    requires (w == 0xE0 ==> x >= 0xA0) && (w == 0xED ==> x <= 0x9F)
    ensures IsScalar(cp) && Encode(cp) == [w, x, y]
  {
    cp := (w - 0xE0) * 0x1000 + (x - 0x80) * 0x40 + (y - 0x80);
    assert cp / 0x40 == (w - 0xE0) * 0x40 + (x - 0x80);
  }

  lemma OfFour(w: int, x: int, y: int, z: int) returns (cp: nat)
    requires 0xF0 <= w <= 0xF4 && 0x80 <= x <= 0xBF && 0x80 <= y <= 0xBF && 0x80 <= z <= 0xBF
    requires (w == 0xF0 ==> x >= 0x90) && (w == 0xF4 ==> x <= 0x8F)
    ensures IsScalar(cp) && Encode(cp) == [w, x, y, z]
  {
    cp := (w - 0xF0) * 0x4_0000 + (x - 0x80) * 0x1000 + (y - 0x80) * 0x40 + (z - 0x80);
    assert cp / 0x40 == (w - 0xF0) * 0x1000 + (x - 0x80) * 0x40 + (y - 0x80);
    assert cp / 0x1000 == (w - 0xF0) * 0x40 + (x - 0x80);
  }

  /** What is recognised as one character is the encoding of one. */
  lemma ReadIsCharacter(b: seq<byte>, i: nat) returns (cp: nat)
    requires i < |b| && Utf8Length(b, i) > 0
    ensures IsScalar(cp) && b[i..i + Utf8Length(b, i)] == Encode(cp)
  {
    hide Encode;
    var n := Utf8Length(b, i);
    if n == 1 {
      cp := b[i];
      OfOne(cp);
      assert b[i..i + 1] == [b[i]];
    } else if n == 2 {
      cp := OfTwo(b[i], b[i + 1]);
      assert b[i..i + 2] == [b[i], b[i + 1]];
    } else if n == 3 {
      cp := OfThree(b[i], b[i + 1], b[i + 2]);
      assert b[i..i + 3] == [b[i], b[i + 1], b[i + 2]];
    } else {
      cp := OfFour(b[i], b[i + 1], b[i + 2], b[i + 3]);
      assert b[i..i + 4] == [b[i], b[i + 1], b[i + 2], b[i + 3]];
    }
  }

  lemma OfOne(cp: nat)
    requires cp < 0x80
    ensures Encode(cp) == [cp]
  {
  }

  lemma {:induction false} EncodedDecodes(b: seq<byte>, i: nat, cps: seq<nat>)
    requires i <= |b| && AreScalars(cps) && b[i..] == EncodeAll(cps)
    ensures Decodes(b, i)
    decreases |cps|
  {
    hide Utf8Length, Encode;
    if cps != [] {
      var e, rest := Encode(cps[0]), EncodeAll(cps[1..]);
      assert b[i..i + |e|] == b[i..][..|e|] == e;
      assert b[i + |e|..] == b[i..][|e|..] == rest;
      CharacterIsRead(b, i, cps[0]);
      EncodedDecodes(b, i + |e|, cps[1..]);
    }
  }

  lemma {:induction false} DecodedIsEncoded(b: seq<byte>, i: nat) returns (cps: seq<nat>)
    requires i <= |b| && Decodes(b, i)
    ensures AreScalars(cps) && b[i..] == EncodeAll(cps)
    decreases |b| - i
  {
    hide Utf8Length, Encode;
    if i == |b| {
      cps := [];
    } else {
      var n := Utf8Length(b, i);
      var cp := ReadIsCharacter(b, i);
      var rest := DecodedIsEncoded(b, i + n);
      cps := [cp] + rest;
      assert b[i..] == b[i..i + n] + b[i + n..];
    }
  }

  /** Main result: bytes decode exactly when they are the encoding of some text. */
  lemma DecodesIffText(b: seq<byte>)
    ensures Decodes(b, 0) <==> exists cps :: AreScalars(cps) && b == EncodeAll(cps)
  {
    assert b[0..] == b;
    if Decodes(b, 0) {
      var cps := DecodedIsEncoded(b, 0);
    }
    if cps :| AreScalars(cps) && b == EncodeAll(cps) {
      EncodedDecodes(b, 0, cps);
    }
  }
}
