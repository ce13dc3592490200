/** ux_demo/util.c: packets with a length prefix over partial transfers. Both ends run on
    one machine with 64-bit, little-endian sizes and a 32-bit `int`. */
module Framing {
  import opened Arith
  import opened Lists
  import opened Machine
  import opened Transfers

  datatype Received = Packet(data: seq<Byte>) | Failure | Exit

  // ------------------------------------------------------------------ sizes

  /** The conversions from `size_t` to `int` and back. */
  function ToInt(x: nat): int {
    var r := x % 0x1_0000_0000;
    if r > INT_MAX then r - 0x1_0000_0000 else r
  }

  function ToSize(i: int): int {
    if i < 0 then i + SIZE_MAX + 1 else i
  }

  /** `write_all(fd, buf, len) != len` compares a total that went through an `int`: with
      len a size that an object can have, it holds for a full transfer too once len
      exceeds INT_MAX. */
  lemma TotalIsLength(total: nat, len: nat)
    requires total <= len <= SIZE_MAX / 2
    ensures ToSize(ToInt(total)) == len <==> total == len <= INT_MAX
  {
  }

  /** Examples: the sign bit, and the way back. */
  lemma SignBit()
    ensures ToInt(0x7fff_ffff) == 0x7fff_ffff && ToInt(0x8000_0000) == -0x8000_0000 && ToInt(0x1_0000_0005) == 5
    ensures ToSize(-1) == 0xffff_ffff_ffff_ffff && ToSize(8) == 8
  {
  }

  // ------------------------------------------------------------------ frames

  /** The bytes of a number in memory, lowest first. */
  function Encode(x: nat, n: nat): (b: seq<Byte>)
    ensures |b| == n
  {
    if n == 0 then [] else [x % 0x100] + Encode(x / 0x100, n - 1)
  }

  function Decode(b: seq<Byte>): (x: nat) {
    if b == [] then 0 else b[0] + 0x100 * Decode(b[1..])
  }

  function Range(n: nat): (r: nat)
    ensures r > 0
  {
    if n == 0 then 1 else 0x100 * Range(n - 1)
  }

  /** The lowest byte comes first, and the header before the data. */
  lemma HeaderBytes(p: seq<Byte>)
    ensures Encode(0x0102, 2) == [2, 1]
    ensures |p| < 0x100 ==> Frame(p) == [|p|, 0, 0, 0, 0, 0, 0, 0] + p
    ensures Frames([p]) == Frame(p)
  {
    assert Encode(0x0102, 2) == [2] + Encode(1, 1) && Encode(1, 1) == [1] + Encode(0, 0);
    if |p| < 0x100 {
      ZeroBytes(7);
      assert Encode(|p|, 8) == [|p|] + Encode(0, 7);
    }
  }

  lemma {:induction false} ZeroBytes(n: nat)
    ensures Encode(0, n) == seq(n, _ => 0)
  {
    if n > 0 { ZeroBytes(n - 1); }
  }

  lemma {:induction false} DecodeEncode(x: nat, n: nat)
    requires x < Range(n)
    ensures Decode(Encode(x, n)) == x
  {
    if n > 0 {
      DivisionOf(x, 0x100);
      QuotientBelow(x, 0x100, Range(n - 1));
      DecodeEncode(x / 0x100, n - 1);
      assert Encode(x, n)[1..] == Encode(x / 0x100, n - 1);
    }
  }

  lemma {:induction false} EncodeDecode(b: seq<Byte>)
    ensures Decode(b) < Range(|b|) && Encode(Decode(b), |b|) == b
  {
    if b != [] {
      var y := Decode(b[1..]);
      EncodeDecode(b[1..]);
      RemainderIs(Decode(b), 0x100, y, b[0]);
      assert b == [b[0]] + b[1..];
    }
  }

  lemma HeaderRange()
    ensures Range(8) == SIZE_MAX + 1
  {
    assert Range(4) == 0x1_0000_0000;
  }

  function Frame(p: seq<Byte>): (f: seq<Byte>)
    ensures |f| == 8 + |p|
  {
    Encode(|p|, 8) + p
  }

  function Frames(ps: seq<seq<Byte>>): seq<Byte> {
    if ps == [] then [] else Frame(ps[0]) + Frames(ps[1..])
  }

  /** The first packet in a stream, if it is there in full and an `int` can hold its length. */
  function Next(s: seq<Byte>): Option<seq<Byte>> {
    if |s| < 8 then None
    else
      var len := Decode(s[..8]);
      if len <= |s| - 8 && len <= INT_MAX then Some(s[8..8 + len]) else None
  }

  /** All packets a receiver takes before the first failure. */
  function Parse(s: seq<Byte>): seq<seq<Byte>>
    decreases |s|
  {
    match Next(s)
    case None => []
    case Some(p) => [p] + Parse(s[8 + |p|..])
  }

  /** A packet is received if and only if the stream starts with its frame. */
  lemma NextIsFirstFrame(s: seq<Byte>, p: seq<Byte>)
    requires |p| <= INT_MAX
    ensures Next(s) == Some(p) <==> Frame(p) <= s
  {
    hide Encode, Decode;
    HeaderRange();
    if Next(s) == Some(p) {
      EncodeDecode(s[..8]);
      assert s[..8 + |p|] == s[..8] + p;
    }
    if Frame(p) <= s {
      DecodeEncode(|p|, 8);
      assert s[..8] == Encode(|p|, 8) && s[8..8 + |p|] == p;
    }
  }

  /** No frame is received before all of it has arrived, and one too long never is. */
  lemma NoPartialFrame(p: seq<Byte>, t: nat)
    requires |p| <= SIZE_MAX && t <= |Frame(p)| && (t == |Frame(p)| ==> |p| > INT_MAX)
    ensures Next(Frame(p)[..t]) == None
  {
    if t >= 8 {
      HeaderRange();
      DecodeEncode(|p|, 8);
      assert Frame(p)[..t][..8] == Encode(|p|, 8);
    }
  }

  /** Whatever was sent with success is received, in order and unchanged, and nothing else,
      whatever part of a last frame the sender left behind when it failed. */
  lemma {:induction false} RoundTrip(ps: seq<seq<Byte>>, last: seq<Byte>, t: nat)
    requires forall i :: 0 <= i < |ps| ==> |ps[i]| <= INT_MAX
    requires |last| <= SIZE_MAX && t <= |Frame(last)| && (t == |Frame(last)| ==> |last| > INT_MAX)
    ensures Parse(Frames(ps) + Frame(last)[..t]) == ps
  {
    hide Encode, Decode, Next;
    var s := Frames(ps) + Frame(last)[..t];
    if ps == [] {
      assert s == Frame(last)[..t];
      NoPartialFrame(last, t);
    } else {
      var p, rest := ps[0], Frames(ps[1..]) + Frame(last)[..t];
      Associative(Frame(p), Frames(ps[1..]), Frame(last)[..t]);
      assert s == Frame(p) + rest && s[8 + |p|..] == rest;
      NextIsFirstFrame(s, p);
      RoundTrip(ps[1..], last, t);
    }
  }

  // ------------------------------------------------------------------ transfers

  /** write_all: a prefix is sent, all of it unless a call is refused. */
  method WriteAll(fd: Channel, buf: seq<Byte>) returns (result: int, ghost total: nat)
    modifies fd
    ensures total <= |buf| && result == ToInt(total)
    ensures fd.bytes == old(fd.bytes) + buf[..total]
    ensures old(fd.calls) <= fd.calls && (total == |buf| <==> fd.Smooth(old(fd.calls)))
  {
    var pos, len, sum := 0, |buf|, 0;
    while len > 0
      invariant 0 <= pos <= |buf| && len == |buf| - pos && sum == pos
      invariant fd.bytes == old(fd.bytes) + buf[..pos]
      invariant old(fd.calls) <= fd.calls && fd.Smooth(old(fd.calls))
    {
      ghost var before := fd.bytes;
      var n := fd.Write(buf[pos..]);
      if n <= 0 {
        assert fd.answers(fd.calls - 1) <= 0;
        return ToInt(sum), sum;
      }
      assert buf[..pos] + buf[pos..][..n] == buf[..pos + n];
      pos := pos + n;
      len := len - n;
      sum := sum + n;
    }
    return ToInt(sum), sum;
  }

  lemma TakeMore(s: seq<Byte>, pos: nat, n: nat)
    requires pos + n <= |s|
    ensures s[..pos] + s[pos..][..n] == s[..pos + n] && s[pos..][n..] == s[pos + n..]
  {
  }

  lemma SliceInTwo(buf: array<Byte>, i: nat, j: nat)
    requires i <= j <= buf.Length
    ensures buf[..j] == buf[..i] + buf[i..j]
  {
  }

  /** read_all: the front of the stream moves into the buffer. */
  method ReadAll(fd: Channel, buf: array<Byte>, length: nat) returns (result: int, ghost total: nat)
    requires length == buf.Length
    modifies fd, buf
    ensures total <= length && total <= |old(fd.bytes)| && result == ToInt(total)
    ensures fd.bytes == old(fd.bytes)[total..] && buf[..total] == old(fd.bytes)[..total]
    ensures old(fd.calls) <= fd.calls
    ensures total == length <==> fd.Smooth(old(fd.calls)) && length <= |old(fd.bytes)|
    ensures fd.Smooth(old(fd.calls)) ==> total == Min(length, |old(fd.bytes)|)
  {
    var pos, len, sum := 0, length, 0;
    while len > 0
      invariant 0 <= pos <= length && len == length - pos && sum == pos
      invariant pos <= |old(fd.bytes)| && fd.bytes == old(fd.bytes)[pos..] && buf[..pos] == old(fd.bytes)[..pos]
      invariant old(fd.calls) <= fd.calls && fd.Smooth(old(fd.calls))
    {
      var n := fd.Read(buf, pos, len);
      if n <= 0 {
        assert fd.answers(fd.calls - 1) <= 0 || |old(fd.bytes)| == pos;
        return ToInt(sum), sum;
      }
      TakeMore(old(fd.bytes), pos, n);
      SliceInTwo(buf, pos, pos + n);
      pos := pos + n;
      len := len - n;
      sum := sum + n;
    }
    return ToInt(sum), sum;
  }

  /** send_packet: a prefix of the frame is sent. Success means all of it, and failure
      that a call was refused or that an `int` cannot hold the length. */
  method SendPacket(fd: Channel, buf: seq<Byte>) returns (code: int)
    requires |buf| <= SIZE_MAX / 2
    modifies fd
    ensures code == 0 || code == -1
    ensures code == 0 <==> fd.Smooth(old(fd.calls)) && |buf| <= INT_MAX
    ensures fd.Smooth(old(fd.calls)) ==> fd.bytes == old(fd.bytes) + Frame(buf)
    ensures !fd.Smooth(old(fd.calls)) ==>
              exists t :: 0 <= t < |Frame(buf)| && fd.bytes == old(fd.bytes) + Frame(buf)[..t]
    ensures old(fd.calls) <= fd.calls
  {
    var header := Encode(|buf|, 8);
    ghost var h, t;
    var n;
    n, h := WriteAll(fd, header);
    if ToSize(n) != 8 {
      assert fd.bytes == old(fd.bytes) + Frame(buf)[..h];
      return -1;
    }
    ghost var middle := fd.calls;
    n, t := WriteAll(fd, buf);
    assert fd.Smooth(old(fd.calls)) <==> fd.Smooth(middle);
    assert fd.bytes == old(fd.bytes) + Frame(buf)[..8 + t];
    TotalIsLength(t, |buf|);
    code := if ToSize(n) != |buf| then -1 else 0;
  }

  /** How much of a stream a receiver takes that nothing stops: a header, then a body. */
  function Wanted(s: seq<Byte>): (n: nat)
    ensures n >= 8
  {
    if |s| < 8 then 8 else 8 + Decode(s[..8])
  }

  /** recv_packet; a packet too large for the memory that is left ends the program. After a
      failure what was taken of the packet is lost. */
  method RecvPacket(fd: Channel, memory: nat) returns (r: Received, ghost taken: nat)
    requires memory <= SIZE_MAX / 2
    modifies fd
    ensures old(fd.calls) <= fd.calls
    ensures taken <= |old(fd.bytes)| && fd.bytes == old(fd.bytes)[taken..]
    ensures r.Packet? ==> Next(old(fd.bytes)) == Some(r.data) && taken == 8 + |r.data| && |r.data| <= memory
    ensures r == Failure ==> Next(old(fd.bytes)) == None || !fd.Smooth(old(fd.calls))
    ensures r == Failure ==>
              if fd.Smooth(old(fd.calls)) then taken == Min(Wanted(old(fd.bytes)), |old(fd.bytes)|)
              else taken < Wanted(old(fd.bytes))
    ensures r == Exit <==> fd.Smooth(old(fd.calls)) && 8 <= |old(fd.bytes)| && Decode(old(fd.bytes)[..8]) > memory
    ensures r == Exit ==> taken == 8
  {
    ghost var stream := fd.bytes;
    var header := new Byte[8];
    ghost var h, t;
    var n;
    n, h := ReadAll(fd, header, 8);
    taken := h;
    if ToSize(n) != 8 {
      r := Failure;
      return;
    }
    assert header[..8] == header[..] == stream[..8];
    var len := Decode(header[..]);
    if len > memory {
      r := Exit;
      return;
    }
    var buf := new Byte[len];
    ghost var middle := fd.calls;
    n, t := ReadAll(fd, buf, len);
    taken := 8 + t;
    assert fd.Smooth(old(fd.calls)) <==> fd.Smooth(middle);
    TotalIsLength(t, len);
    if ToSize(n) != len {
      r := Failure;
      return;
    }
    assert buf[..len] == buf[..] == stream[8..8 + len];
    r := Packet(buf[..]);
  }

  // ------------------------------------------------------------------ end to end

  /** What is on the stream once sent packets of ps have been sent with success, and the next
      one, if there is one, has failed. */
  ghost predicate SentUpTo(stream: seq<Byte>, ps: seq<seq<Byte>>, sent: nat) {
    && sent <= |ps|
    && if sent == |ps| then stream == Frames(ps)
       else exists t: nat :: t <= |Frame(ps[sent])| && (t == |Frame(ps[sent])| ==> |ps[sent]| > INT_MAX) &&
              stream == Frames(ps[..sent]) + Frame(ps[sent])[..t]
  }

  lemma {:induction false} FramesSnoc(ps: seq<seq<Byte>>, p: seq<Byte>)
    ensures Frames(ps + [p]) == Frames(ps) + Frame(p)
  {
    if ps == [] {
      assert ps + [p] == [p] && Frames([p][1..]) == [];
    } else {
      assert (ps + [p])[1..] == ps[1..] + [p];
      FramesSnoc(ps[1..], p);
    }
  }

  /** A receiver of such a stream gets exactly the packets sent with success, if it has memory. */
  lemma ReceivesWhatWasSent(stream: seq<Byte>, ps: seq<seq<Byte>>, sent: nat, memory: nat)
    requires forall i :: 0 <= i < |ps| ==> |ps[i]| <= SIZE_MAX / 2
    requires SentUpTo(stream, ps, sent) && forall i :: 0 <= i < sent ==> |ps[i]| <= INT_MAX
    ensures Parse(stream) == ps[..sent]
    ensures (forall i :: 0 <= i < |ps| ==> |ps[i]| <= memory) ==> AllFit(stream, memory)
  {
    var last, t := [], 0;
    if sent < |ps| {
      last := ps[sent];
      t :| 0 <= t <= |Frame(last)| && (t == |Frame(last)| ==> |last| > INT_MAX) &&
        stream == Frames(ps[..sent]) + Frame(last)[..t];
    } else {
      assert ps[..sent] == ps && stream == Frames(ps) + Frame(last)[..t];
    }
    RoundTrip(ps[..sent], last, t);
    if forall i :: 0 <= i < |ps| ==> |ps[i]| <= memory { SentFits(ps[..sent], last, t, memory); }
  }

  /** No header on the way through a stream announces more than there is memory for. */
  ghost predicate AllFit(s: seq<Byte>, memory: nat)
    decreases |s|
  {
    |s| >= 8 ==>
      && Decode(s[..8]) <= memory
      && match Next(s) case None => true case Some(p) => AllFit(s[8 + |p|..], memory)
  }

  lemma HeaderOfFrame(p: seq<Byte>, t: nat, rest: seq<Byte>)
    requires |p| <= SIZE_MAX && 8 <= t <= |Frame(p)|
    ensures Decode((Frame(p)[..t] + rest)[..8]) == |p|
  {
    HeaderRange();
    DecodeEncode(|p|, 8);
    assert (Frame(p)[..t] + rest)[..8] == Encode(|p|, 8);
  }

  /** What a sender leaves behind fits if its packets do. */
  lemma {:induction false} SentFits(ps: seq<seq<Byte>>, last: seq<Byte>, t: nat, memory: nat)
    requires forall i :: 0 <= i < |ps| ==> |ps[i]| <= INT_MAX && |ps[i]| <= memory
    requires |last| <= SIZE_MAX && |last| <= memory
    requires t <= |Frame(last)| && (t == |Frame(last)| ==> |last| > INT_MAX)
    ensures AllFit(Frames(ps) + Frame(last)[..t], memory)
  {
    hide Encode, Decode;
    var s := Frames(ps) + Frame(last)[..t];
    if ps == [] {
      assert s == Frame(last)[..t] + [];
      if t >= 8 { HeaderOfFrame(last, t, []); }
      assert s == Frame(last)[..t];
      NoPartialFrame(last, t);
    } else {
      var rest := Frames(ps[1..]) + Frame(last)[..t];
      assert s == Frame(ps[0])[..|Frame(ps[0])|] + rest;
      HeaderOfFrame(ps[0], |Frame(ps[0])|, rest);
      NextIsFirstFrame(s, ps[0]);
      assert s[8 + |ps[0]|..] == rest;
      SentFits(ps[1..], last, t, memory);
    }
  }

  /** A sender that stops at the first failure. */
  method SendAll(fd: Channel, ps: seq<seq<Byte>>) returns (sent: nat)
    requires fd.bytes == [] && forall i :: 0 <= i < |ps| ==> |ps[i]| <= SIZE_MAX / 2
    modifies fd
    ensures SentUpTo(fd.bytes, ps, sent) && forall i :: 0 <= i < sent ==> |ps[i]| <= INT_MAX
    ensures old(fd.calls) <= fd.calls
    ensures sent == |ps| <==> fd.Smooth(old(fd.calls)) && forall i :: 0 <= i < |ps| ==> |ps[i]| <= INT_MAX
  {
    sent := 0;
    while sent < |ps|
      invariant sent <= |ps| && fd.bytes == Frames(ps[..sent])
      invariant old(fd.calls) <= fd.calls && fd.Smooth(old(fd.calls))
      invariant forall i :: 0 <= i < sent ==> |ps[i]| <= INT_MAX
    {
      ghost var stream, since := fd.bytes, fd.calls;
      var code := SendPacket(fd, ps[sent]);
      if code != 0 {
        var p := ps[sent];
        if fd.Smooth(since) {
          assert fd.bytes == stream + Frame(p)[..|Frame(p)|];
        }
        return;
      }
      FramesSnoc(ps[..sent], ps[sent]);
      assert ps[..sent + 1] == ps[..sent] + [ps[sent]];
      sent := sent + 1;
    }
    assert ps[..sent] == ps;
  }

  /** A receiver that stops at the first failure. */
  method ReceiveAll(fd: Channel, memory: nat) returns (got: seq<seq<Byte>>, last: Received)
    requires memory <= SIZE_MAX / 2
    modifies fd
    ensures got <= Parse(old(fd.bytes)) && !last.Packet? && old(fd.calls) <= fd.calls
    ensures fd.Smooth(old(fd.calls)) ==> (last == Failure <==> AllFit(old(fd.bytes), memory))
    ensures last == Failure && fd.Smooth(old(fd.calls)) ==> got == Parse(old(fd.bytes))
  {
    got := [];
    ghost var all, fit := Parse(fd.bytes), AllFit(fd.bytes, memory);
    while true
      invariant all == got + Parse(fd.bytes) && (fit <==> AllFit(fd.bytes, memory))
      invariant old(fd.calls) <= fd.calls
      decreases |fd.bytes|
    {
      ghost var rest, since := Parse(fd.bytes), fd.calls;
      ghost var taken;
      last, taken := RecvPacket(fd, memory);
      if !last.Packet? { return; }
      assert rest == [last.data] + Parse(fd.bytes);
      Associative(got, [last.data], Parse(fd.bytes));
      got := got + [last.data];
    }
  }

  /** End to end: whatever the schedule of short and refused transfers, what is received is
      what was sent with success, from the first packet on; all of it, if no read is refused
      and there is memory for every packet. mid: the number of calls when receiving starts. */
  method Session(fd: Channel, ps: seq<seq<Byte>>, memory: nat)
    returns (sent: nat, got: seq<seq<Byte>>, last: Received, ghost mid: nat)
    requires fd.bytes == [] && memory <= SIZE_MAX / 2 && forall i :: 0 <= i < |ps| ==> |ps[i]| <= SIZE_MAX / 2
    modifies fd
    ensures sent <= |ps| && got <= ps[..sent] && old(fd.calls) <= mid <= fd.calls
    ensures fd.Smooth(mid) && (forall i :: 0 <= i < |ps| ==> |ps[i]| <= memory) ==> last == Failure && got == ps[..sent]
    ensures sent == |ps| <==>
              (forall i :: old(fd.calls) <= i < mid ==> fd.answers(i) > 0) &&
              (forall i :: 0 <= i < |ps| ==> |ps[i]| <= INT_MAX)
  {
    sent := SendAll(fd, ps);
    mid := fd.calls;
    ReceivesWhatWasSent(fd.bytes, ps, sent, memory);
    got, last := ReceiveAll(fd, memory);
  }

  /** A packet of 2^31 bytes, and nothing in its way: it is sent in full and reported as a
      failure, and its receiver takes all of it and fails too. */
  method TooLong() returns (code: int, r: Received, left: nat)
    ensures code == -1 && r == Failure && left == 0
  {
    var fd := new Channel([], _ => INT_MAX);
    var p: seq<Byte> := seq(INT_MAX + 1, _ => 0);
    code := SendPacket(fd, p);
    assert fd.bytes == Frame(p)[..|Frame(p)|];
    NoPartialFrame(p, |Frame(p)|);
    HeaderRange();
    DecodeEncode(|p|, 8);
    assert fd.bytes[..8] == Encode(|p|, 8);
    ghost var taken;
    r, taken := RecvPacket(fd, INT_MAX + 1);
    left := |fd.bytes|;
  }
}
