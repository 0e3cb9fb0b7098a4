/** Bytes, big-endian numbers and a plain read-only file with a cursor. */
module Bytes {
  type byte = x: int | 0 <= x < 256

  /** The box kind `moov`. */
  const MOOV: seq<byte> := [109, 111, 111, 118]

  /** What a read of up to n bytes at a position gets from a file. */
  function Slice(data: seq<byte>, from: nat, n: nat): (r: seq<byte>)
    ensures |r| <= n && (|r| < n <==> from + n > |data| && n > 0)
  {
    if from >= |data| then []
    else data[from..if from + n <= |data| then from + n else |data|]
  }

  lemma PartOfSlice(data: seq<byte>, from: nat, m: nat, at: nat, n: nat)
    requires n > 0 && at + n <= |Slice(data, from, m)|
    ensures from + at + n <= |data| && Slice(data, from, m)[at..at + n] == data[from + at..from + at + n]
  {
    var to := if from + m <= |data| then from + m else |data|;
    assert Slice(data, from, m) == data[from..to] && from + at + n <= to;
    assert data[from..to][at..at + n] == data[from + at..from + at + n];
  }

  /** The file holds these bytes at this position. */
  ghost predicate Holds(data: seq<byte>, pos: nat, part: seq<byte>) {
    pos + |part| <= |data| && data[pos..pos + |part|] == part
  }

  lemma SliceOfPart(data: seq<byte>, pos: nat, part: seq<byte>, at: nat, n: nat)
    requires Holds(data, pos, part) && at + n <= |part|
    ensures Slice(data, pos + at, n) == part[at..at + n]
  {
    var r := Slice(data, pos + at, n);
    assert |r| == n;
    forall i | 0 <= i < n ensures r[i] == part[at + i] {
      assert data[pos..pos + |part|][at + i] == data[pos + at + i];
    }
  }

  lemma HoldsParts(data: seq<byte>, pos: nat, a: seq<byte>, b: seq<byte>)
    requires Holds(data, pos, a + b)
    ensures Holds(data, pos, a) && Holds(data, pos + |a|, b)
  {
    assert data[pos..pos + |a|] == (a + b)[..|a|] == a;
    assert data[pos + |a|..pos + |a| + |b|] == (a + b)[|a|..] == b;
  }

  function Pow256(n: nat): nat { if n == 0 then 1 else 256 * Pow256(n - 1) }

  function BigEndian(b: seq<byte>): nat {
    if b == [] then 0 else 256 * BigEndian(b[..|b| - 1]) + b[|b| - 1]
  }

  function ToBytes(n: nat, width: nat): (b: seq<byte>)
    ensures |b| == width
  {
    if width == 0 then [] else ToBytes(n / 256, width - 1) + [n % 256]
  }

  /** A number survives its encoding when it fits the width. */
  lemma {:induction false} BigEndianRoundTrip(n: nat, width: nat)
    requires n < Pow256(width)
    ensures BigEndian(ToBytes(n, width)) == n
  {
    if width == 0 {
    } else {
      BigEndianRoundTrip(n / 256, width - 1);
      var b := ToBytes(n, width);
      assert b[..width - 1] == ToBytes(n / 256, width - 1);
    }
  }

  /** The first byte weighs most. */
  lemma BigEndianOfFour(b: seq<byte>)
    requires |b| == 4
    ensures var w: int, x: int, y: int, z: int := b[0], b[1], b[2], b[3];
            BigEndian(b) == 0x100_0000 * w + 0x1_0000 * x + 0x100 * y + z
  {
    assert b[..3][..2] == b[..2] && b[..2][..1] == b[..1] && b[..1][..0] == [];
    assert BigEndian(b[..1]) == b[0];
    var w: int, x: int := b[0], b[1];
    assert BigEndian(b[..2]) == 0x100 * w + x;
  }

  /** A number of eight bytes is made of two of four. */
  lemma {:induction false} BigEndianJoins(a: seq<byte>, b: seq<byte>)
    ensures BigEndian(a + b) == BigEndian(a) * Pow256(|b|) + BigEndian(b)
  {
    if b == [] {
      assert a + b == a;
    } else {
      var n := |b| - 1;
      assert (a + b)[..|a + b| - 1] == a + b[..n];
      BigEndianJoins(a, b[..n]);
      Shifted(BigEndian(a), Pow256(n), BigEndian(b[..n]));
    }
  }

  lemma Shifted(x: nat, p: nat, y: nat)
    ensures 256 * (x * p + y) == x * (256 * p) + 256 * y
  {
  }

  lemma Widths()
    ensures Pow256(4) == 0x1_0000_0000 && Pow256(8) == 0x1_0000_0000_0000_0000
  {
    assert Pow256(2) == 0x1_0000;
    assert Pow256(6) == 0x1_0000_0000_0000;
  }

  class File {
    const data: seq<byte>
    var pos: nat

    constructor (data: seq<byte>)
      ensures this.data == data && pos == 0
    {
      this.data, this.pos := data, 0;
    }

    method Read(n: nat) returns (b: seq<byte>)
      modifies this
      ensures b == Slice(data, old(pos), n) && pos == old(pos) + |b|
    {
      b := Slice(data, pos, n);
      pos := pos + |b|;
    }

    method Seek(to: nat)
      modifies this
      ensures pos == to
    {
      pos := to;
    }
  }
}
