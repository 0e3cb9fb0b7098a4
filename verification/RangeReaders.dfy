/** The byte-range-backed reader of viofosync_lib/_protocol.py: a head buffer over a source that
    may answer short, wrongly or not at all. */
module RangeReaders {
  import opened Basics
  import opened Bytes

  // ---- Replies to a range request ----

  /** What comes of a request: an HTTP reply with a status and a body, or an error. */
  datatype Reply = Reply(status: int, body: seq<byte>) | NoReply

  /** The bytes the closure of `open_remote_reader` takes from a reply to a request for a..b: a
      whole-file reply longer than the range is sliced. */
  function RangeBody(r: Reply, a: nat, b: nat): Option<seq<byte>>
    requires a <= b
  {
    match r
    case NoReply => None
    case Reply(status, body) =>
      if status == 200 && |body| > b + 1 - a
      then Some(body[if a <= |body| then a else |body|..if b + 1 <= |body| then b + 1 else |body|])
      else Some(body)
  }

  /** The server sends bytes of the file: those of the range, or with status 200 the whole file from
      its start; in both cases it may stop early. */
  ghost predicate FromFile(remote: seq<byte>, a: nat, b: nat, r: Reply)
    requires a <= b < |remote|
  {
    r.NoReply?
    || (r.status == 200 && r.body <= remote)
    || (r.status != 200 && r.body <= remote[a..b + 1])
  }

  /** A server that ignores the range and stops after exactly as many bytes as were asked for, of a
      range that does not begin the file. */
  ghost predicate PassesForTheRange(a: nat, b: nat, r: Reply)
    requires a <= b
  {
    r.Reply? && r.status == 200 && a > 0 && |r.body| == b + 1 - a
  }

  /** The server sends all that was asked for, or all of the file. */
  ghost predicate InFull(remote: seq<byte>, a: nat, b: nat, r: Reply)
    requires a <= b < |remote|
  {
    r.Reply? && r.body == if r.status == 200 then remote else remote[a..b + 1]
  }

  /** What the server answers to the c-th request, by the range asked for. */
  type Net = (nat, nat, nat) -> Reply

  /** No reply passes wrong bytes for the range. */
  ghost predicate Honest(remote: seq<byte>, net: Net) {
    forall c: nat, a: nat, b: nat :: a <= b < |remote| ==>
      FromFile(remote, a, b, net(c, a, b)) && !PassesForTheRange(a, b, net(c, a, b))
  }

  ghost predicate Complete(remote: seq<byte>, net: Net) {
    forall c: nat, a: nat, b: nat :: a <= b < |remote| ==> InFull(remote, a, b, net(c, a, b))
  }

  // ---- What a read returns ----

  datatype ReadResult = Data(bytes: seq<byte>) | Truncated | Offline

  /** Where a read of n at pos ends, clamped to the file; a negative n means all that is left. */
  function EndOf(size: nat, pos: nat, n: int): int {
    var want := if n < 0 then size - pos else n;
    if pos + want <= size then pos + want else size
  }

  /** The range a read asks the source for, if any. */
  function Request(size: nat, headLen: nat, pos: nat, n: int): (r: Option<(nat, nat)>)
    ensures r.Some? ==> r.value.0 <= r.value.1 < size && r.value.1 == EndOf(size, pos, n) - 1
    ensures r.Some? ==> r.value.0 == (if pos >= headLen then pos else headLen) && pos < EndOf(size, pos, n)
  {
    var end := EndOf(size, pos, n);
    if end <= pos || end <= headLen then None
    else Some((if pos >= headLen then pos else headLen, end - 1))
  }

  /** The result of a read, told by the reply to its request. */
  function ReadWith(size: nat, head: seq<byte>, pos: nat, n: int, reply: Reply): ReadResult {
    var end := EndOf(size, pos, n);
    match Request(size, |head|, pos, n)
    case None => if end <= pos then Data([]) else Data(head[pos..end])
    case Some(range) =>
      match RangeBody(reply, range.0, range.1)
      case None => Offline
      case Some(body) =>
        var data := if pos < |head| then head[pos..] + body else body;
        if |data| < end - pos then Truncated else Data(data)
  }

  /** The bytes a plain file gives. */
  function Plain(remote: seq<byte>, pos: nat, n: int): seq<byte> {
    Slice(remote, pos, if n >= 0 then n else if pos <= |remote| then |remote| - pos else 0)
  }

  class RangeReader {
    /** The file on the camera; only its size is known to the reader. */
    const remote: seq<byte>
    const head: seq<byte>
    const net: Net
    var pos: nat
    var requests: nat

    ghost predicate Valid() { head <= remote }

    constructor (remote: seq<byte>, head: seq<byte>, net: Net)
      requires head <= remote
      ensures Valid() && pos == 0 && this.remote == remote && this.net == net && this.head == head
    {
      this.remote, this.head, this.net, this.pos, this.requests := remote, head, net, 0, 1;
    }

    /** Prefetch up to headLen bytes. The head may be short, but it is the beginning of the file. */
    static method Open(remote: seq<byte>, headLen: nat, net: Net) returns (r: RangeReader?)
      requires forall a: nat, b: nat :: a <= b < |remote| ==> FromFile(remote, a, b, net(0, a, b))
      ensures r != null ==> fresh(r) && r.Valid() && r.remote == remote && r.net == net && r.pos == 0
      ensures Complete(remote, net) ==> r != null && r.head == Slice(remote, 0, headLen)
    {
      var n := if headLen <= |remote| then headLen else |remote|;
      var head: Option<seq<byte>> := Some([]);
      if n > 0 {
        head := RangeBody(net(0, 0, n - 1), 0, n - 1);
        assert remote[0..n] == remote[..n];
      }
      r := null;
      if head.Some? {
        r := new RangeReader(remote, head.value, net);
      }
    }

    method Seek(to: nat)
      modifies this`pos
      ensures pos == to
    {
      pos := to;
    }

    /** A read asks for at most one range and returns what the reply makes of it; it moves the cursor
        by what it returns and leaves it when it raises. */
    method Read(n: int) returns (r: ReadResult)
      requires Valid()
      modifies this`pos, this`requests
      ensures var range := Request(|remote|, |head|, old(pos), n);
              && r == ReadWith(|remote|, head, old(pos), n,
                               if range.Some? then net(old(requests), range.value.0, range.value.1) else NoReply)
              && requests == old(requests) + (if range.Some? then 1 else 0)
              && pos == old(pos) + if r.Data? then |r.bytes| else 0
    {
      hide RangeBody;
      var want := if n < 0 then |remote| - pos else n;
      var start := pos;
      var end := if start + want <= |remote| then start + want else |remote|;
      if end <= start {
        return Data([]);
      }
      var headN := |head|;
      var data;
      if end <= headN {
        data := head[start..end];
      } else if start >= headN {
        var body := RangeBody(net(requests, start, end - 1), start, end - 1);
        requests := requests + 1;
        if body.None? {
          return Offline;
        }
        data := body.value;
      } else {
        var body := RangeBody(net(requests, headN, end - 1), headN, end - 1);
        requests := requests + 1;
        if body.None? {
          return Offline;
        }
        data := head[start..] + body.value;
      }
      if |data| < end - start {
        return Truncated;
      }
      pos := start + |data|;
      r := Data(data);
    }
  }

  // ---- When what a read returns is right ----

  /** A body that is long enough is the range itself, unless it passes for it. */
  lemma BodyIsRange(remote: seq<byte>, a: nat, b: nat, r: Reply)
    requires a <= b < |remote| && FromFile(remote, a, b, r) && RangeBody(r, a, b).Some?
    ensures var body := RangeBody(r, a, b).value;
            |body| >= b + 1 - a ==>
              && |body| == b + 1 - a
              && body == if PassesForTheRange(a, b, r) then remote[..b + 1 - a] else remote[a..b + 1]
  {
    var body := RangeBody(r, a, b).value;
    if r.status == 200 {
      if |r.body| > b + 1 - a {
        if |body| >= b + 1 - a { assert body == r.body[a..b + 1] == remote[a..b + 1]; }
      } else if |body| == b + 1 - a {
        assert body == remote[..b + 1 - a];
        assert a == 0 ==> remote[..b + 1 - a] == remote[a..b + 1];
      }
    } else if |body| >= b + 1 - a {
      assert body == remote[a..b + 1];
    }
  }

  lemma HeadAndBody(remote: seq<byte>, head: seq<byte>, pos: nat, end: nat, body: seq<byte>)
    requires head <= remote && pos < |head| < end <= |remote|
    ensures body == remote[|head|..end] ==> head[pos..] + body == remote[pos..end]
    ensures head[pos..] + body == remote[pos..end] ==> body == remote[|head|..end]
  {
    var data := head[pos..] + body;
    assert data[|head| - pos..] == body;
    assert remote[pos..end][|head| - pos..] == remote[|head|..end];
    assert remote[pos..end] == remote[pos..|head|] + remote[|head|..end];
  }

  /** Main result: a read over bytes of the file returns what the plain file gives or raises, with one
      exception, and that exactly when the server ignored the range, stopped after as many bytes as
      were asked for, and those are not the bytes of the range. */
  lemma ReadIsWrongIff(remote: seq<byte>, head: seq<byte>, pos: nat, n: int, reply: Reply)
    requires head <= remote
    requires var range := Request(|remote|, |head|, pos, n);
             range.Some? ==> FromFile(remote, range.value.0, range.value.1, reply)
    ensures var range, r := Request(|remote|, |head|, pos, n), ReadWith(|remote|, head, pos, n, reply);
            (r.Data? && r.bytes != Plain(remote, pos, n))
            <==> range.Some? && PassesForTheRange(range.value.0, range.value.1, reply)
                 && reply.body != remote[range.value.0..range.value.1 + 1]
  {
    hide RangeBody, FromFile, PassesForTheRange;
    var range := Request(|remote|, |head|, pos, n);
    var end := EndOf(|remote|, pos, n);
    PlainSlice(remote, pos, n);
    if range.None? {
      if pos < end { assert head[pos..end] == remote[pos..end]; }
    } else {
      var a, b := range.value.0, range.value.1;
      var body := RangeBody(reply, a, b);
      if body.Some? {
        BodyIsRange(remote, a, b, reply);
        BodyThatPasses(a, b, reply);
        if pos < |head| {
          HeadAndBody(remote, head, pos, end, body.value);
        }
      } else {
        NoBody(a, b, reply);
      }
    }
  }

  lemma PlainSlice(remote: seq<byte>, pos: nat, n: int)
    ensures var end := EndOf(|remote|, pos, n);
            if end <= pos then Plain(remote, pos, n) == [] else Plain(remote, pos, n) == remote[pos..end]
  {
  }

  lemma BodyThatPasses(a: nat, b: nat, r: Reply)
    requires a <= b
    ensures PassesForTheRange(a, b, r) ==> RangeBody(r, a, b) == Some(r.body) && |r.body| == b + 1 - a
  {
  }

  lemma NoBody(a: nat, b: nat, r: Reply)
    requires a <= b && RangeBody(r, a, b).None?
    ensures !PassesForTheRange(a, b, r)
  {
  }

  /** That can happen: of every size, for every such range, there is a file whose first bytes are
      taken for those of the range. */
  lemma WrongBytesCanBeRead(size: nat, a: nat, b: nat) returns (remote: seq<byte>, reply: Reply)
    requires 0 < a <= b < size
    ensures |remote| == size && FromFile(remote, a, b, reply)
    ensures var r := ReadWith(size, [], a, b + 1 - a, reply);
            r.Data? && |r.bytes| == b + 1 - a && r.bytes != Plain(remote, a, b + 1 - a)
  {
    remote := seq(size, i => if i == 0 then 1 else 0);
    reply := Reply(200, remote[..b + 1 - a]);
    assert remote[a..b + 1][0] == 0 && reply.body[0] == 1;
    ReadIsWrongIff(remote, [], a, b + 1 - a, reply);
  }

  /** An honest server: a read is right or raises. */
  lemma HonestReadIsRight(remote: seq<byte>, head: seq<byte>, pos: nat, n: int, c: nat, net: Net)
    requires head <= remote && Honest(remote, net)
    ensures var range := Request(|remote|, |head|, pos, n);
            var reply := if range.Some? then net(c, range.value.0, range.value.1) else NoReply;
            var r := ReadWith(|remote|, head, pos, n, reply);
            r.Data? ==> r.bytes == Plain(remote, pos, n)
  {
    hide ReadWith, FromFile, PassesForTheRange, Plain;
    var range := Request(|remote|, |head|, pos, n);
    var reply := if range.Some? then net(c, range.value.0, range.value.1) else NoReply;
    ReadIsWrongIff(remote, head, pos, n, reply);
  }

  /** A server that answers in full is honest, and no read of it raises; nor does any read inside the
      head. */
  lemma CompleteReadIsRight(remote: seq<byte>, head: seq<byte>, pos: nat, n: int, c: nat, net: Net)
    requires head <= remote
    ensures Complete(remote, net) ==> Honest(remote, net)
    ensures var range := Request(|remote|, |head|, pos, n);
            var reply := if range.Some? then net(c, range.value.0, range.value.1) else NoReply;
            (Complete(remote, net) || EndOf(|remote|, pos, n) <= |head|) ==>
              ReadWith(|remote|, head, pos, n, reply) == Data(Plain(remote, pos, n))
  {
    hide ReadWith, RangeBody, Plain;
    if Complete(remote, net) {
      forall k: nat, a: nat, b: nat | a <= b < |remote|
        ensures FromFile(remote, a, b, net(k, a, b)) && !PassesForTheRange(a, b, net(k, a, b))
      {
        assert InFull(remote, a, b, net(k, a, b));
      }
    }
    var range := Request(|remote|, |head|, pos, n);
    if range.None? {
      InsideHead(remote, head, pos, n, NoReply);
    } else if Complete(remote, net) {
      var a, b := range.value.0, range.value.1;
      assert InFull(remote, a, b, net(c, a, b));
      FullBody(remote, a, b, net(c, a, b));
      FullRead(remote, head, pos, n, net(c, a, b));
    }
  }

  lemma InsideHead(remote: seq<byte>, head: seq<byte>, pos: nat, n: int, reply: Reply)
    requires head <= remote && Request(|remote|, |head|, pos, n).None?
    ensures ReadWith(|remote|, head, pos, n, reply) == Data(Plain(remote, pos, n))
  {
    PlainSlice(remote, pos, n);
    var end := EndOf(|remote|, pos, n);
    if pos < end { assert head[pos..end] == remote[pos..end]; }
  }

  lemma FullBody(remote: seq<byte>, a: nat, b: nat, r: Reply)
    requires a <= b < |remote| && InFull(remote, a, b, r)
    ensures RangeBody(r, a, b) == Some(remote[a..b + 1])
  {
    if r.status == 200 && |remote| == b + 1 - a { assert remote[a..b + 1] == remote; }
  }

  lemma FullRead(remote: seq<byte>, head: seq<byte>, pos: nat, n: int, reply: Reply)
    requires head <= remote && Request(|remote|, |head|, pos, n).Some?
    requires var range := Request(|remote|, |head|, pos, n).value;
             RangeBody(reply, range.0, range.1) == Some(remote[range.0..range.1 + 1])
    ensures ReadWith(|remote|, head, pos, n, reply) == Data(Plain(remote, pos, n))
  {
    hide RangeBody, Plain, Request, EndOf;
    PlainSlice(remote, pos, n);
    var range := Request(|remote|, |head|, pos, n).value;
    if pos < |head| { HeadAndBody(remote, head, pos, range.1 + 1, remote[range.0..range.1 + 1]); }
  }

  // ---- Whole runs ----

  datatype Op = SeekTo(to: nat) | SkipBy(step: nat) | SeekFromEnd(back: nat) | ReadSome(n: int)

  ghost predicate Legal(size: nat, ops: seq<Op>) {
    forall i :: 0 <= i < |ops| && ops[i].SeekFromEnd? ==> ops[i].back <= size
  }

  /** The outcomes are those of a plain file in memory on which the reads that raised were never made. */
  ghost predicate LikePlainFile(data: seq<byte>, pos: nat, ops: seq<Op>, outs: seq<Option<seq<byte>>>)
    requires |ops| == |outs| && Legal(|data|, ops)
    decreases |ops|
  {
    ops == [] ||
    match ops[0]
    case SeekTo(to) => LikePlainFile(data, to, ops[1..], outs[1..])
    case SkipBy(step) => LikePlainFile(data, pos + step, ops[1..], outs[1..])
    case SeekFromEnd(back) => LikePlainFile(data, |data| - back, ops[1..], outs[1..])
    case ReadSome(n) =>
      if outs[0].None? then LikePlainFile(data, pos, ops[1..], outs[1..])
      else outs[0].value == Plain(data, pos, n) && LikePlainFile(data, pos + |outs[0].value|, ops[1..], outs[1..])
  }

  /** Main result: over every run of seeks and reads the reader of an honest server returns what the
      plain file would, never fewer or other bytes, or raises and stays put; when the server answers
      in full no read raises. */
  method Replay(r: RangeReader, ops: seq<Op>) returns (outs: seq<Option<seq<byte>>>)
    requires r.Valid() && Honest(r.remote, r.net) && Legal(|r.remote|, ops)
    modifies r`pos, r`requests
    ensures |outs| == |ops| && LikePlainFile(r.remote, old(r.pos), ops, outs)
    ensures Complete(r.remote, r.net) ==> forall i :: 0 <= i < |ops| && ops[i].ReadSome? ==> outs[i].Some?
    decreases |ops|
  {
    hide ReadWith, Plain, Honest, Complete;
    if ops == [] {
      return [];
    }
    var out: Option<seq<byte>> := None;
    match ops[0] {
      case SeekTo(to) => r.Seek(to);
      case SkipBy(step) => r.Seek(r.pos + step);
      case SeekFromEnd(back) => r.Seek(|r.remote| - back);
      case ReadSome(n) =>
        HonestReadIsRight(r.remote, r.head, r.pos, n, r.requests, r.net);
        CompleteReadIsRight(r.remote, r.head, r.pos, n, r.requests, r.net);
        var res := r.Read(n);
        if res.Data? {
          out := Some(res.bytes);
        }
    }
    var rest := Replay(r, ops[1..]);
    outs := [out] + rest;
    assert outs[1..] == rest;
  }

  /** The same from the opening on: the head that was fetched makes no difference to what is read. */
  method OpenAndReplay(remote: seq<byte>, headLen: nat, net: Net, ops: seq<Op>)
    returns (r: RangeReader?, outs: seq<Option<seq<byte>>>)
    requires Honest(remote, net) && Legal(|remote|, ops)
    ensures r != null ==> |outs| == |ops| && LikePlainFile(remote, 0, ops, outs)
    ensures Complete(remote, net) ==>
              r != null && |outs| == |ops| && forall i :: 0 <= i < |ops| && ops[i].ReadSome? ==> outs[i].Some?
  {
    hide Complete, FromFile, PassesForTheRange;
    r := RangeReader.Open(remote, headLen, net);
    outs := [];
    if r != null {
      outs := Replay(r, ops);
    }
  }

  /** What a walker may rely on: a read of n bytes gives the next n of the file, or fewer at its end,
      or raises; and it does not raise when the server answers in full. */
  method ReadNext(r: RangeReader, n: nat) returns (res: ReadResult)
    requires r.Valid() && Honest(r.remote, r.net)
    modifies r`pos, r`requests
    ensures res.Data? ==> res.bytes == Slice(r.remote, old(r.pos), n) && r.pos == old(r.pos) + |res.bytes|
    ensures Complete(r.remote, r.net) ==> res.Data?
  {
    hide ReadWith, Honest, Complete;
    HonestReadIsRight(r.remote, r.head, r.pos, n, r.requests, r.net);
    CompleteReadIsRight(r.remote, r.head, r.pos, n, r.requests, r.net);
    res := r.Read(n);
  }
}
