/** tdd.c: copying with input and output blocks of different sizes, optionally swapping
    bytes in pairs and leaving holes for blocks of zeros. */
module Tdd {
  import opened Arith
  import opened Machine
  import opened Transfers
  import opened Lists

  // ------------------------------------------------------------------ the output file

  function Zeros(n: nat): (z: seq<Byte>)
    ensures |z| == n
  {
    seq(n, i => 0)
  }

  predicate IsZero(d: seq<Byte>) { forall i :: 0 <= i < |d| ==> d[i] == 0 }

  /** A file after a write of d at an offset: a gap before it reads as zeros. */
  function Overwritten(f: seq<Byte>, at: nat, d: seq<Byte>): (r: seq<Byte>)
    ensures |r| == if d == [] then |f| else if at + |d| < |f| then |f| else at + |d|
  {
    if d == [] then f else Resized(f, at) + d + Behind(f, at + |d|)
  }

  /** The part of a file from an offset on. */
  function Behind(f: seq<Byte>, at: nat): (r: seq<Byte>)
    ensures |r| == if at < |f| then |f| - at else 0
  {
    if at < |f| then f[at..] else []
  }

  /** A file after ftruncate. */
  function Resized(f: seq<Byte>, size: nat): (r: seq<Byte>)
    ensures |r| == size
  {
    if size <= |f| then f[..size] else f + Zeros(size - |f|)
  }

  /** What a write leaves in a file, byte by byte: the bytes written, and the old ones around
      them, with zeros before them if the file did not reach that far. */
  lemma BytesWritten(f: seq<Byte>, at: nat, d: seq<Byte>)
    requires d != []
    ensures Overwritten(f, at, d)[at..at + |d|] == d
    ensures forall i :: 0 <= i < at ==> Overwritten(f, at, d)[i] == if i < |f| then f[i] else 0
    ensures forall i :: at + |d| <= i < |f| ==> Overwritten(f, at, d)[i] == f[i]
  {
  }

  /** What ftruncate leaves. */
  lemma BytesLeft(f: seq<Byte>, size: nat)
    ensures forall i :: 0 <= i < size ==> Resized(f, size)[i] == if i < |f| then f[i] else 0
  {
  }

  /** Writing twice in a row is writing once. */
  lemma WriteTwice(f: seq<Byte>, at: nat, d: seq<Byte>, e: seq<Byte>)
    ensures Overwritten(Overwritten(f, at, d), at + |d|, e) == Overwritten(f, at, d + e)
  {
    if d == [] {
      assert d + e == e;
    } else if e == [] {
      assert d + e == d;
    } else {
      var front, behind := Resized(f, at), Behind(f, at + |d|);
      var w := front + d + behind;
      assert Resized(w, at + |d|) == front + d;
      assert Behind(w, at + |d| + |e|) == Behind(f, at + |d| + |e|);
      Associative(front, d, e);
    }
  }

  /** A hole is as good as a block of zeros exactly when the file has nothing but zeros
      from there on, and no more of them than the block. */
  lemma HoleIsWrite(f: seq<Byte>, at: nat, d: seq<Byte>)
    requires IsZero(d) && d != []
    ensures Resized(f, at + |d|) == Overwritten(f, at, d) <==>
            |f| <= at + |d| && (at < |f| ==> IsZero(f[at..]))
  {
    var r, w := Resized(f, at + |d|), Overwritten(f, at, d);
    if |f| <= at + |d| {
      if at < |f| && r == w {
        forall i | 0 <= i < |f| - at ensures f[at..][i] == 0 {
          assert r[at + i] == w[at + i];
        }
      }
      if at < |f| && IsZero(f[at..]) {
        forall i | at <= i < |f| ensures f[i] == 0 {
          assert f[at..][i - at] == 0;
        }
      }
      if at < |f| ==> IsZero(f[at..]) {
        assert r == w;
      }
    } else {
      assert |r| != |w|;
    }
  }

  lemma NothingWritten(f: seq<Byte>, at: nat)
    ensures Overwritten(f, at, []) == f
  {
  }

  class OutFile {
    var content: seq<Byte>
    var pos: nat
    var calls: nat
    const answers: nat -> int

    constructor (content: seq<Byte>, pos: nat, answers: nat -> int)
      ensures this.content == content && this.pos == pos && calls == 0 && this.answers == answers
    {
      this.content, this.pos, calls, this.answers := content, pos, 0, answers;
    }

    method Write(data: seq<Byte>) returns (n: int)
      requires data != []
      modifies this
      ensures calls == old(calls) + 1
      ensures n == -1 || 0 < n <= |data|
      ensures n == |data| <==> answers(old(calls)) >= |data|
      ensures n == -1 ==> content == old(content) && pos == old(pos)
      ensures n > 0 ==> content == Overwritten(old(content), old(pos), data[..n]) && pos == old(pos) + n
    {
      n := if answers(calls) <= 0 then -1 else Min(answers(calls), |data|);
      calls := calls + 1;
      if n > 0 {
        content, pos := Overwritten(content, pos, data[..n]), pos + n;
      }
    }

    /** ftruncate makes room for so many bytes more, or fails. */
    method Truncate(size: nat, more: nat) returns (code: int)
      modifies this`content, this`calls
      ensures calls == old(calls) + 1
      ensures code == if answers(old(calls)) >= more then 0 else -1
      ensures content == if code == 0 then Resized(old(content), size) else old(content)
    {
      code := if answers(calls) >= more then 0 else -1;
      calls := calls + 1;
      if code == 0 {
        content := Resized(content, size);
      }
    }
  }

  method AllZero(buf: array<Byte>, size: nat) returns (zero: bool)
    requires size <= buf.Length
    ensures zero <==> IsZero(buf[..size])
  {
    var at, count := 0, size;
    while count > 0
      invariant 0 <= count <= size && at == size - count
      invariant IsZero(buf[..at])
    {
      count := count - 1;
      if buf[at] != 0 {
        assert buf[..size][at] != 0;
        return false;
      }
      at := at + 1;
    }
    return true;
  }

  method WriteSparse(fd: OutFile, buf: array<Byte>, count: nat, sparse: bool) returns (n: int)
    requires 0 < count <= buf.Length
    modifies fd
    ensures fd.calls == old(fd.calls) + 1
    ensures n == -1 || 0 < n <= count
    ensures n == count <==> fd.answers(old(fd.calls)) >= count
    ensures n == -1 ==> fd.content == old(fd.content) && fd.pos == old(fd.pos)
    ensures n > 0 ==> fd.pos == old(fd.pos) + n && (sparse && IsZero(buf[..count]) ==> n == count)
    ensures n > 0 ==>
              fd.content == (if sparse && IsZero(buf[..count]) then Resized(old(fd.content), fd.pos)
                             else Overwritten(old(fd.content), old(fd.pos), buf[..count][..n]))
  {
    var zero := false;
    if sparse {
      zero := AllZero(buf, count);
    }
    if !sparse || !zero {
      n := fd.Write(buf[..count]);
      return;
    }
    var ofs := fd.pos + count;
    var code := fd.Truncate(ofs, count);
    if code != 0 {
      return -1;
    }
    fd.pos := ofs;
    return count;
  }

  // ------------------------------------------------------------------ swapping bytes

  function Swapped(s: seq<Byte>): (r: seq<Byte>)
    ensures |r| == |s|
  {
    if |s| < 2 then s else [s[1], s[0]] + Swapped(s[2..])
  }

  /** Each pair changes places; a last odd byte stays. */
  lemma {:induction false} SwappedAt(s: seq<Byte>, i: nat)
    requires 2 * i + 1 < |s|
    ensures Swapped(s)[2 * i] == s[2 * i + 1] && Swapped(s)[2 * i + 1] == s[2 * i]
    ensures |s| % 2 == 1 ==> Swapped(s)[|s| - 1] == s[|s| - 1]
    decreases |s|
  {
    if |s| > 3 { SwappedAt(s[2..], if i > 0 then i - 1 else 0); }
  }

  /** Swapping read by read is swapping the whole, if all reads but the last are even. */
  lemma {:induction false} SwapConcat(a: seq<Byte>, b: seq<Byte>)
    requires |a| % 2 == 0
    ensures Swapped(a + b) == Swapped(a) + Swapped(b)
  {
    if a == [] {
      assert a + b == b;
    } else {
      assert (a + b)[2..] == a[2..] + b;
      SwapConcat(a[2..], b);
    }
  }

  lemma {:induction false} SwapIsInvolution(s: seq<Byte>)
    ensures Swapped(Swapped(s)) == s
  {
    if |s| >= 2 {
      assert Swapped(s)[2..] == Swapped(s[2..]);
      SwapIsInvolution(s[2..]);
    }
  }

  lemma SwapStep(b: seq<Byte>, before: seq<Byte>, done: seq<Byte>, rest: seq<Byte>, after: seq<Byte>, p: nat)
    requires b == before + done + rest + after && |rest| >= 2 && p == |before| + |done|
    ensures b[p := b[p + 1]][p + 1 := b[p]] == before + (done + [rest[1], rest[0]]) + rest[2..] + after
  {
    assert b[p] == rest[0] && b[p + 1] == rest[1];
    var c, d := b[p := b[p + 1]][p + 1 := b[p]], before + (done + [rest[1], rest[0]]) + rest[2..] + after;
    forall i | 0 <= i < |b| ensures c[i] == d[i] {
      if p + 2 <= i { assert c[i] == b[i] == (rest + after)[i - p]; }
    }
  }

  /** swap_bytes: an odd number of bytes never comes down to zero, and the loop runs out of
      the buffer. */
  method SwapBytes(buf: array<Byte>, at: nat, size: nat) returns (inBounds: bool)
    requires at + size <= buf.Length
    modifies buf
    ensures inBounds <==> size % 2 == 0
    ensures inBounds ==> buf[at..at + size] == Swapped(old(buf[at..at + size]))
    ensures inBounds ==> buf[..at] == old(buf[..at]) && buf[at + size..] == old(buf[at + size..])
  {
    hide Swapped;
    var p, n: int := at, size;
    ghost var before, after, chunk := buf[..at], buf[at + size..], buf[at..at + size];
    ghost var done, rest: seq<Byte> := [], chunk;
    ghost var pairs: int, odd := size / 2, size % 2;
    while n != 0
      invariant n == 2 * pairs + odd && p == at + size - n && at <= p <= buf.Length
      invariant odd == 0 ==> n == |rest| && p == at + |done| && buf[..] == before + done + rest + after
      invariant odd == 0 ==> done + Swapped(rest) == Swapped(chunk)
      decreases buf.Length - p
    {
      if p + 2 > buf.Length { return false; }
      ghost var b := buf[..];
      SwapPair(buf, p);
      if odd == 0 {
        SwapStep(b, before, done, rest, after, p);
        SwapNext(done, rest);
        done, rest := done + [rest[1], rest[0]], rest[2..];
      }
      pairs := pairs - 1;
      n := n - 2;
      p := p + 2;
    }
    SwapNone(done, rest);
    inBounds := true;
  }

  method SwapPair(buf: array<Byte>, p: nat)
    requires p + 2 <= buf.Length
    modifies buf
    ensures buf[..] == old(buf[..])[p := old(buf[p + 1])][p + 1 := old(buf[p])]
  {
    buf[p], buf[p + 1] := buf[p + 1], buf[p];
  }

  lemma SwapNext(done: seq<Byte>, rest: seq<Byte>)
    requires |rest| >= 2
    ensures (done + [rest[1], rest[0]]) + Swapped(rest[2..]) == done + Swapped(rest)
  {
    Associative(done, [rest[1], rest[0]], Swapped(rest[2..]));
  }

  lemma SwapNone(done: seq<Byte>, rest: seq<Byte>)
    requires rest == []
    ensures done + Swapped(rest) == done
  {
  }

  // ------------------------------------------------------------------ the copy loop

  /** The bytes that should come out for the bytes that have come in. */
  function Converted(s: seq<Byte>, swap: bool): (r: seq<Byte>)
    ensures |r| == |s|
  {
    if swap then Swapped(s) else s
  }

  /** Why the copy stops. Overrun: the code goes on to write behind its buffer, and what it
      does from then on is undefined. Refused: swapping with an odd ibs. */
  datatype Stop = CountReached | InputEnded | WriteFailed | Overrun | Refused

  /** What a copy depends on: the answers to the reads of an input of left bytes, the answers
      to the writes, and the options. */
  datatype Job = Job(answers: nat -> int, firstRead: nat, left: nat, writes: nat -> int, firstWrite: nat,
                     ibs: nat, obs: nat, swap: bool) {

    /** The bytes that the first k reads take. */
    function Taken(k: nat): (n: nat)
      ensures n <= left
    {
      if k == 0 then 0 else Taken(k - 1) + Transferred(answers(firstRead + k - 1), ibs, left - Taken(k - 1))
    }

    /** The bytes that read k takes. */
    function Chunk(k: nat): nat { Transferred(answers(firstRead + k), ibs, left - Taken(k)) }

    /** Read k does not fit into what the buffer has left, or cannot be swapped. */
    predicate Faulty(k: nat)
      requires obs > 0
    {
      (ibs == obs && Taken(k) % obs + Chunk(k) > ibs) || (swap && Chunk(k) % 2 == 1)
    }

    /** The main loop gets through its first k rounds. */
    ghost predicate Reaches(k: nat)
      requires obs > 0
    {
      (forall j :: 0 <= j < k ==> Chunk(j) > 0 && !Faulty(j)) && WritesAll(k)
    }

    /** All whole blocks of the first k reads are written. */
    ghost predicate WritesAll(k: nat)
      requires obs > 0
    {
      forall i :: 0 <= i < Taken(k) / obs ==> Accepts(i)
    }

    /** What becomes of round k: CountReached means that the loop goes on. */
    ghost function Fate(k: nat): Stop
      requires obs > 0
    {
      if Chunk(k) == 0 then InputEnded
      else if Faulty(k) then Overrun
      else if !WritesAll(k + 1) then WriteFailed
      else CountReached
    }

    /** The loop gets as far as a round, of those that count admits, which stops it. */
    ghost predicate Stops(count: int, why: Stop)
      requires obs > 0
    {
      exists k: nat :: (count < 0 || k < count) && Reaches(k) && Fate(k) == why
    }

    /** Write i takes a whole block. */
    predicate Accepts(i: nat) { writes(firstWrite + i) >= obs }

    /** The write that follows k reads takes the part of a block that is left then. */
    predicate AcceptsRest(k: nat)
      requires obs > 0
    {
      Taken(k) % obs == 0 || writes(firstWrite + Taken(k) / obs) >= Taken(k) % obs
    }
  }

  ghost function JobOf(input: Channel, fd: OutFile, ibs: nat, obs: nat, swap: bool): Job
    reads input, fd
  {
    Job(input.answers, input.calls, |input.bytes|, fd.answers, fd.calls, ibs, obs, swap)
  }

  lemma NothingTaken(x: Job)
    requires x.obs > 0
    ensures x.Taken(0) == 0 && x.Reaches(0)
  {
    RemainderIs(0, x.obs, 0, 0);
  }

  lemma NextChunk(x: Job, k: nat, input: Channel, n: nat)
    requires x.obs > 0 && n == x.Taken(k) % x.obs
    requires input.answers == x.answers && input.calls == x.firstRead + k && |input.bytes| == x.left - x.Taken(k)
    ensures x.Chunk(k) == input.Amount(x.ibs) && x.Taken(k + 1) == x.Taken(k) + x.Chunk(k)
    ensures x.Faulty(k) <==> (x.ibs == x.obs && n + x.Chunk(k) > x.ibs) || (x.swap && x.Chunk(k) % 2 == 1)
  {
  }

  lemma {:induction false} TakenGrows(x: Job, j: nat, k: nat)
    requires j <= k
    ensures x.Taken(j) <= x.Taken(k)
    decreases k
  {
    if j < k { TakenGrows(x, j, k - 1); }
  }

  lemma QuotientGrows(a: nat, b: nat, n: nat)
    requires n > 0 && a <= b
    ensures a / n <= b / n
  {
    DivisionOf(a, n);
    DivisionOf(b, n);
    var d := a / n - b / n;
    assert n * d == n * (a / n) - n * (b / n);
    Multiples(n, d);
  }

  /** Getting through k rounds is getting through every earlier one. */
  lemma ReachesEarlier(x: Job, j: nat, k: nat)
    requires x.obs > 0 && j <= k && x.Reaches(k)
    ensures x.Reaches(j)
  {
    TakenGrows(x, j, k);
    QuotientGrows(x.Taken(j), x.Taken(k), x.obs);
  }

  /** d has been written; with holes the file is as claimed if it did not reach beyond
      the place where writing began. */
  ghost predicate Written(fd: OutFile, sparse: bool, f0: seq<Byte>, p0: nat, d: seq<Byte>)
    reads fd
  {
    && fd.pos == p0 + |d|
    && ((sparse ==> |f0| <= p0) ==> fd.content == Overwritten(f0, p0, d))
  }

  /** Of the converted input t the first bytesOut bytes are in the file, the other n in
      the buffer. */
  ghost predicate Conserved(fd: OutFile, buf: array<Byte>, n: int, bytesOut: int, t: seq<Byte>,
                            sparse: bool, f0: seq<Byte>, p0: nat)
    reads fd, buf
  {
    && 0 <= n <= buf.Length && 0 <= bytesOut && n + bytesOut == |t|
    && buf[..n] == t[bytesOut..]
    && Written(fd, sparse, f0, p0, t[..bytesOut])
  }

  /** The bytes of b blocks. */
  function Whole(obs: nat, b: nat): nat {
    NonNegativeProduct(obs, b);
    obs * b
  }

  lemma OneMore(obs: nat, b: nat)
    ensures Whole(obs, b + 1) == Whole(obs, b) + obs && Whole(obs, 0) == 0
  {
    Distribute(obs, b);
  }

  /** How many whole blocks there are, and what is left. */
  lemma BlocksOf(bytes: nat, obs: nat, b: nat, n: nat)
    requires n < obs && bytes == Whole(obs, b) + n
    ensures bytes % obs == n && bytes / obs == b
  {
    RemainderIs(bytes, obs, b, n);
  }

  lemma BlocksWere(bytes: nat, obs: nat)
    requires obs > 0
    ensures bytes - bytes % obs == Whole(obs, bytes / obs)
  {
    DivisionOf(bytes, obs);
  }

  /** Another round is done. */
  lemma ReachesNext(x: Job, k: nat, b: nat)
    requires x.obs > 0 && x.Reaches(k) && x.Chunk(k) > 0 && !x.Faulty(k)
    requires b == x.Taken(k + 1) / x.obs && forall i :: 0 <= i < b ==> x.Accepts(i)
    ensures x.Reaches(k + 1)
  {
  }

  /** A write of a whole block that came short stops the loop. */
  lemma FailedWrite(x: Job, k: nat, b: nat)
    requires x.obs > 0 && Whole(x.obs, b) + x.obs <= x.Taken(k) && !x.Accepts(b)
    ensures !x.WritesAll(k) && !x.Reaches(k)
  {
    hide Job.Taken, Whole;
    OneMore(x.obs, b);
    BlocksOf(Whole(x.obs, b + 1), x.obs, b + 1, 0);
    QuotientGrows(Whole(x.obs, b + 1), x.Taken(k), x.obs);
  }

  lemma ReachedWrites(x: Job, k: nat)
    requires x.obs > 0 && x.Reaches(k)
    ensures forall i :: 0 <= i < x.Taken(k) / x.obs ==> x.Accepts(i)
  {
  }

  /** One block to the output. */
  method Emit(fd: OutFile, buf: array<Byte>, count: nat, sparse: bool, n: int, bytesOut0: int,
              ghost t: seq<Byte>, ghost f0: seq<Byte>, ghost p0: nat)
    returns (written: int, bytesOut: int)
    requires 0 < count <= n && Conserved(fd, buf, n, bytesOut0, t, sparse, f0, p0)
    modifies fd
    ensures fd.calls == old(fd.calls) + 1
    ensures written == -1 || 0 < written <= count
    ensures written == count <==> fd.answers(old(fd.calls)) >= count
    ensures bytesOut == bytesOut0 + (if written > 0 then written else 0) <= |t|
    ensures Written(fd, sparse, f0, p0, t[..bytesOut])
  {
    hide Overwritten, Resized;
    written := WriteSparse(fd, buf, count, sparse);
    bytesOut := bytesOut0;
    if written > 0 {
      bytesOut := bytesOut + written;
      assert buf[..count][..written] == t[bytesOut0..bytesOut];
      WriteTwice(f0, p0, t[..bytesOut0], t[bytesOut0..bytesOut]);
      assert t[..bytesOut0] + t[bytesOut0..bytesOut] == t[..bytesOut];
      if sparse && IsZero(buf[..count]) {
        assert buf[..count][..written] == buf[..count];
        HoleIsWrite(Overwritten(f0, p0, t[..bytesOut0]), p0 + bytesOut0, buf[..count]);
      }
    }
  }

  method MoveDown(buf: array<Byte>, off: nat, n: nat)
    requires off + n <= buf.Length
    modifies buf
    ensures buf[..n] == old(buf[off..off + n])
  {
    forall i | 0 <= i < n { buf[i] := buf[off + i]; }
  }

  /** One block goes out, and what is left moves to the front. */
  method WriteBlock(fd: OutFile, buf: array<Byte>, obs: nat, sparse: bool, n0: int, bytesOut0: int,
                    ghost t: seq<Byte>, ghost f0: seq<Byte>, ghost p0: nat)
    returns (n: int, bytesOut: int, ok: bool)
    requires 0 < obs <= n0 && Conserved(fd, buf, n0, bytesOut0, t, sparse, f0, p0)
    modifies fd, buf
    ensures fd.calls == old(fd.calls) + 1 && (ok <==> fd.answers(old(fd.calls)) >= obs)
    ensures bytesOut0 <= bytesOut <= |t| && Written(fd, sparse, f0, p0, t[..bytesOut])
    ensures ok ==> n == n0 - obs && bytesOut == bytesOut0 + obs && Conserved(fd, buf, n, bytesOut, t, sparse, f0, p0)
  {
    hide Overwritten;
    n := n0;
    var nwritten;
    nwritten, bytesOut := Emit(fd, buf, obs, sparse, n, bytesOut0, t, f0, p0);
    ok := nwritten == obs;
    if ok {
      n := n - nwritten;
      assert buf[obs..obs + n] == buf[..n0][obs..] == t[bytesOut..];
      if n > 0 {
        MoveDown(buf, obs, n);
      }
    }
  }

  /** The inner loop: whole blocks go out, the rest moves to the front. b counts the blocks. */
  method WriteBlocks(fd: OutFile, buf: array<Byte>, obs: nat, sparse: bool, n0: int, bytesOut0: int,
                     ghost t: seq<Byte>, ghost f0: seq<Byte>, ghost p0: nat, ghost b0: nat)
    returns (n: int, bytesOut: int, ok: bool, ghost b: nat)
    requires 0 < obs <= buf.Length && Conserved(fd, buf, n0, bytesOut0, t, sparse, f0, p0)
    requires bytesOut0 == Whole(obs, b0)
    modifies fd, buf
    ensures bytesOut0 <= bytesOut <= |t| && Written(fd, sparse, f0, p0, t[..bytesOut])
    ensures b0 <= b && forall i :: old(fd.calls) <= i < old(fd.calls) + b - b0 ==> fd.answers(i) >= obs
    ensures ok ==> fd.calls == old(fd.calls) + b - b0 && bytesOut == Whole(obs, b)
    ensures ok ==> n < obs && Conserved(fd, buf, n, bytesOut, t, sparse, f0, p0)
    ensures !ok ==> fd.answers(old(fd.calls) + b - b0) < obs && Whole(obs, b) + obs <= |t|
  {
    hide Overwritten, Whole;
    n, bytesOut, b := n0, bytesOut0, b0;
    while n >= obs
      invariant 0 <= n <= n0 && bytesOut0 <= bytesOut <= |t|
      invariant b0 <= b && bytesOut == Whole(obs, b) && fd.calls == old(fd.calls) + b - b0
      invariant forall i :: old(fd.calls) <= i < fd.calls ==> fd.answers(i) >= obs
      invariant Conserved(fd, buf, n, bytesOut, t, sparse, f0, p0)
    {
      n, bytesOut, ok := WriteBlock(fd, buf, obs, sparse, n, bytesOut, t, f0, p0);
      if !ok { return; }
      OneMore(obs, b);
      b := b + 1;
    }
    ok := true;
  }

  /** One read, with its bytes swapped if asked. */
  method ReadChunk(input: Channel, buf: array<Byte>, ibs: nat, swap: bool, n: nat) returns (nread: int, inBounds: bool)
    requires n + input.Amount(ibs) <= buf.Length
    modifies input, buf
    ensures input.calls == old(input.calls) + 1 && input.bytes == old(input.bytes)[old(input.Amount(ibs))..]
    ensures if old(input.Amount(ibs)) > 0 then nread == old(input.Amount(ibs)) else nread <= 0
    ensures inBounds <==> !(swap && old(input.Amount(ibs)) % 2 == 1)
    ensures inBounds ==> buf[..n] == old(buf[..n])
    ensures inBounds && nread > 0 ==> buf[n..n + nread] == Converted(old(input.bytes)[..nread], swap)
  {
    hide Swapped;
    nread := input.Read(buf, n, ibs);
    inBounds := true;
    if nread > 0 && swap {
      inBounds := SwapBytes(buf, n, nread);
    }
  }

  /** One read into the buffer after the n bytes that are still in it. The code has no test
      for the room that is left. */
  method ReadBlock(input: Channel, buf: array<Byte>, ibs: nat, swap: bool, n0: nat,
                   ghost bytesOut: nat, ghost s0: seq<Byte>, ghost taken0: seq<Byte>)
    returns (n: int, nread: int, inBounds: bool, ghost taken: seq<Byte>)
    requires s0 == taken0 + input.bytes && (swap ==> |taken0| % 2 == 0) && n0 <= buf.Length
    requires bytesOut <= |taken0| && buf[..n0] == Converted(taken0, swap)[bytesOut..]
    modifies input, buf
    ensures var amount := old(input.Amount(ibs));
              && (inBounds <==> n0 + amount <= buf.Length && !(swap && amount % 2 == 1))
              && (inBounds ==> input.calls == old(input.calls) + 1)
              && (inBounds && amount == 0 ==> nread <= 0 && n == n0 && taken == taken0)
              && (inBounds && amount > 0 ==> nread == amount && n == n0 + nread && |taken| == |taken0| + nread)
    ensures inBounds ==> s0 == taken + input.bytes && (swap ==> |taken| % 2 == 0)
    ensures inBounds ==> 0 <= n <= buf.Length && buf[..n] == Converted(taken, swap)[bytesOut..]
    ensures inBounds ==>
              bytesOut <= |taken| && Converted(taken, swap)[..bytesOut] == Converted(taken0, swap)[..bytesOut]
  {
    hide Swapped, Converted;
    n, nread, inBounds, taken := n0, 0, false, taken0;
    if n0 + input.Amount(ibs) > buf.Length {
      return;
    }
    nread, inBounds := ReadChunk(input, buf, ibs, swap, n0);
    if !inBounds || nread <= 0 {
      return;
    }
    ghost var chunk := old(input.bytes)[..nread];
    n, taken := n0 + nread, taken0 + chunk;
    assert s0 == taken + input.bytes;
    ConvertMore(taken0, chunk, swap, bytesOut);
    assert buf[..n] == buf[..n0] + buf[n0..n];
  }

  lemma ConvertMore(taken: seq<Byte>, chunk: seq<Byte>, swap: bool, from: nat)
    requires (swap ==> |taken| % 2 == 0) && from <= |taken|
    ensures Converted(taken + chunk, swap)[from..] == Converted(taken, swap)[from..] + Converted(chunk, swap)
    ensures Converted(taken + chunk, swap)[..from] == Converted(taken, swap)[..from]
  {
    if swap {
      SwapConcat(taken, chunk);
    }
  }

  /** At the head of the main loop: n + bytesOut == bytesIn, fewer than obs bytes wait, and
      file and buffer together hold the converted input so far. */
  ghost predicate Standing(input: Channel, fd: OutFile, buf: array<Byte>, n: int, bytesIn: int, bytesOut: int,
                           totalIn: nat, x: Job, sparse: bool, s0: seq<Byte>, f0: seq<Byte>, p0: nat)
    requires x.obs > 0
    reads input, fd, buf
  {
    && 0 <= bytesIn <= |s0| == x.left && input.bytes == s0[bytesIn..] && (x.swap ==> bytesIn % 2 == 0)
    && x.Reaches(totalIn) && bytesIn == x.Taken(totalIn)
    && n == bytesIn % x.obs && bytesOut == bytesIn - n
    && input.answers == x.answers && fd.answers == x.writes && fd.calls == x.firstWrite + bytesIn / x.obs
    && Conserved(fd, buf, n, bytesOut, Converted(s0[..bytesIn], x.swap), sparse, f0, p0)
  }

  /** What a stop of the main loop leaves, and why it came. */
  ghost predicate Stopped(input: Channel, fd: OutFile, buf: array<Byte>, n: int, bytesIn: int, bytesOut: int,
                          totalIn: nat, stop: Stop, x: Job, sparse: bool, s0: seq<Byte>, f0: seq<Byte>, p0: nat)
    requires x.obs > 0
    reads input, fd, buf
  {
    && 0 <= bytesOut <= bytesIn == x.Taken(totalIn) <= |s0|
    && Written(fd, sparse, f0, p0, Converted(s0[..bytesIn], x.swap)[..bytesOut])
    && match stop
       case CountReached => Standing(input, fd, buf, n, bytesIn, bytesOut, totalIn, x, sparse, s0, f0, p0)
       case InputEnded =>
         Standing(input, fd, buf, n, bytesIn, bytesOut, totalIn, x, sparse, s0, f0, p0) && x.Chunk(totalIn) == 0
       case Overrun => x.Reaches(totalIn) && x.Chunk(totalIn) > 0 && x.Faulty(totalIn)
       case WriteFailed =>
         totalIn > 0 && x.Reaches(totalIn - 1) && x.Fate(totalIn - 1) == WriteFailed && !x.Reaches(totalIn)
       case Refused => false
  }

  /** After read k: whole blocks go out, and the loop has got through another round unless a
      write came short. */
  method Deliver(fd: OutFile, buf: array<Byte>, obs: nat, sparse: bool, n0: int, bytesOut0: int, ghost k: nat,
                 ghost x: Job, ghost t: seq<Byte>, ghost f0: seq<Byte>, ghost p0: nat)
    returns (n: int, bytesOut: int, ok: bool)
    requires 0 < obs == x.obs && obs <= buf.Length && fd.answers == x.writes
    requires Conserved(fd, buf, n0, bytesOut0, t, sparse, f0, p0) && |t| == x.Taken(k + 1)
    requires x.Reaches(k) && x.Chunk(k) > 0 && !x.Faulty(k)
    requires bytesOut0 == x.Taken(k) - x.Taken(k) % obs && fd.calls == x.firstWrite + x.Taken(k) / obs
    modifies fd, buf
    ensures 0 <= bytesOut <= |t| && Written(fd, sparse, f0, p0, t[..bytesOut])
    ensures (ok <==> x.Reaches(k + 1)) && (!ok ==> !x.WritesAll(k + 1))
    ensures ok ==>
              && n == |t| % obs && bytesOut == |t| - n && fd.calls == x.firstWrite + |t| / obs
              && Conserved(fd, buf, n, bytesOut, t, sparse, f0, p0)
  {
    hide Overwritten, Whole, Job.Reaches, Job.WritesAll, Job.Taken, Job.Chunk, Job.Faulty;
    ReachedWrites(x, k);
    BlocksWere(x.Taken(k), obs);
    ghost var b := x.Taken(k) / obs;
    n, bytesOut, ok, b := WriteBlocks(fd, buf, obs, sparse, n0, bytesOut0, t, f0, p0, b);
    if !ok {
      FailedWrite(x, k + 1, b);
    } else {
      BlocksOf(|t|, obs, b, n);
      ReachesNext(x, k, b);
    }
  }

  /** One round of the main loop; CountReached means that it goes on. */
  method Round(input: Channel, fd: OutFile, buf: array<Byte>, ibs: nat, obs: nat, swap: bool, sparse: bool,
               n0: nat, bytesIn0: nat, bytesOut0: nat, totalIn0: nat, ghost x: Job,
               ghost s0: seq<Byte>, ghost f0: seq<Byte>, ghost p0: nat)
    returns (n: int, bytesIn: int, bytesOut: int, totalIn: nat, stop: Stop)
    requires obs > 0 && ibs == x.ibs && obs == x.obs && swap == x.swap
    requires buf.Length == if ibs == obs then ibs else ibs + obs
    requires Standing(input, fd, buf, n0, bytesIn0, bytesOut0, totalIn0, x, sparse, s0, f0, p0)
    requires input.calls == x.firstRead + totalIn0
    modifies input, fd, buf
    ensures Stopped(input, fd, buf, n, bytesIn, bytesOut, totalIn, stop, x, sparse, s0, f0, p0)
    ensures totalIn == if stop == CountReached || stop == WriteFailed then totalIn0 + 1 else totalIn0
    ensures stop == CountReached ==> input.calls == x.firstRead + totalIn && |input.bytes| < |old(input.bytes)|
  {
    hide Overwritten, Swapped, Resized, Whole, Converted, Written;
    hide Job.Reaches, Job.WritesAll, Job.Taken, Job.Faulty, Job.Chunk;
    NextChunk(x, totalIn0, input, n0);
    ghost var taken0 := s0[..bytesIn0];
    bytesIn, bytesOut, totalIn, stop := bytesIn0, bytesOut0, totalIn0, Overrun;
    var nread, inBounds;
    ghost var taken;
    n, nread, inBounds, taken := ReadBlock(input, buf, ibs, swap, n0, bytesOut, s0, taken0);
    if !inBounds {
      return;
    }
    assert taken == s0[..|taken|] && input.bytes == s0[|taken|..];
    if nread <= 0 {
      stop := InputEnded;
      return;
    }
    totalIn := totalIn + 1;
    bytesIn := bytesIn + nread;
    var ok;
    n, bytesOut, ok := Deliver(fd, buf, obs, sparse, n, bytesOut, totalIn0, x, Converted(taken, swap), f0, p0);
    stop := if ok then CountReached else WriteFailed;
  }

  /** The main loop. */
  method CopyBlocks(input: Channel, fd: OutFile, buf: array<Byte>, ibs: nat, obs: nat, count: int, swap: bool,
                    sparse: bool, ghost x: Job)
    returns (n: int, bytesIn: int, bytesOut: int, totalIn: nat, stop: Stop)
    requires 0 < ibs && 0 < obs && buf.Length == if ibs == obs then ibs else ibs + obs
    requires x == JobOf(input, fd, ibs, obs, swap)
    modifies input, fd, buf
    ensures Stopped(input, fd, buf, n, bytesIn, bytesOut, totalIn, stop, x, sparse,
                    old(input.bytes), old(fd.content), old(fd.pos))
    ensures count >= 0 ==> totalIn <= count
    ensures totalIn == count <== stop == CountReached
    ensures totalIn == count ==> stop == CountReached || stop == WriteFailed
  {
    hide Overwritten, Conserved, Job.Reaches, Job.WritesAll, Job.Taken;
    n, bytesIn, bytesOut, totalIn, stop := 0, 0, 0, 0, CountReached;
    ghost var s0, f0, p0 := input.bytes, fd.content, fd.pos;
    StartStanding(input, fd, buf, x, sparse);
    while count == -1 || count != totalIn
      invariant stop == CountReached && input.calls == x.firstRead + totalIn
      invariant Stopped(input, fd, buf, n, bytesIn, bytesOut, totalIn, stop, x, sparse, s0, f0, p0)
      invariant count >= 0 ==> totalIn <= count
      decreases |input.bytes|
    {
      n, bytesIn, bytesOut, totalIn, stop :=
        Round(input, fd, buf, ibs, obs, swap, sparse, n, bytesIn, bytesOut, totalIn, x, s0, f0, p0);
      if stop != CountReached { break; }
    }
  }

  lemma StartStanding(input: Channel, fd: OutFile, buf: array<Byte>, x: Job, sparse: bool)
    requires x.obs > 0 && x == JobOf(input, fd, x.ibs, x.obs, x.swap)
    ensures Stopped(input, fd, buf, 0, 0, 0, 0, CountReached, x, sparse, input.bytes, fd.content, fd.pos)
  {
    hide Overwritten;
    NothingWritten(fd.content, fd.pos);
    NothingTaken(x);
    OneMore(x.obs, 0);
    BlocksOf(0, x.obs, 0, 0);
    assert Converted(input.bytes[..0], x.swap) == [];
  }

  /** After the main loop: the part of a block that is left. */
  method Finish(fd: OutFile, buf: array<Byte>, n: int, bytesOut0: int, sparse: bool,
                ghost t: seq<Byte>, ghost f0: seq<Byte>, ghost p0: nat) returns (bytesOut: int)
    requires Conserved(fd, buf, n, bytesOut0, t, sparse, f0, p0)
    modifies fd
    ensures bytesOut0 <= bytesOut <= |t| && Written(fd, sparse, f0, p0, t[..bytesOut])
    ensures bytesOut == |t| <==> n == 0 || fd.answers(old(fd.calls)) >= n
  {
    bytesOut := bytesOut0;
    if n > 0 {
      var nwritten;
      nwritten, bytesOut := Emit(fd, buf, n, sparse, n, bytesOut, t, f0, p0);
    }
  }

  /** Only one round can stop the loop. */
  lemma OneStop(x: Job, j: nat, k: nat)
    requires x.obs > 0 && x.Reaches(j) && x.Reaches(k)
    requires x.Fate(j) != CountReached && x.Fate(k) != CountReached
    ensures j == k
  {
    hide Job.Fate, Job.Reaches, Job.Taken;
    if j < k {
      ReachesEarlier(x, j + 1, k);
      GoesOn(x, j);
    }
    if k < j {
      ReachesEarlier(x, k + 1, j);
      GoesOn(x, k);
    }
  }

  /** How the loop ends depends on what could be seen before the copy: exit status 0 exactly
      when count reads succeed and fit and every whole block is written, and each other end
      exactly when some round comes to it. */
  lemma ExitStatus(x: Job, totalIn: nat, count: int, stop: Stop)
    requires x.obs > 0 && stop != Refused && (count >= 0 ==> totalIn <= count)
    requires stop == CountReached ==> totalIn == count && x.Reaches(totalIn)
    requires stop == InputEnded || stop == Overrun ==>
               totalIn != count && x.Reaches(totalIn) && x.Fate(totalIn) == stop
    requires stop == WriteFailed ==> totalIn > 0 && x.Reaches(totalIn - 1) && x.Fate(totalIn - 1) == stop
    ensures stop == CountReached <==> count >= 0 && x.Reaches(count)
    ensures forall why :: why in {InputEnded, Overrun, WriteFailed} ==> (stop == why <==> x.Stops(count, why))
  {
    hide Job.Fate, Job.Reaches, Job.Taken;
    var last := if stop == WriteFailed then totalIn - 1 else totalIn;
    if count >= 0 && x.Reaches(count) && stop != CountReached {
      ReachesEarlier(x, last + 1, count);
      GoesOn(x, last);
    }
    forall k: nat | (count < 0 || k < count) && x.Reaches(k) && x.Fate(k) != CountReached
      ensures stop == x.Fate(k)
    {
      if stop == CountReached {
        ReachesEarlier(x, k + 1, count);
        GoesOn(x, k);
      } else {
        OneStop(x, last, k);
      }
    }
  }

  /** A round that is followed by another one does not stop the loop. */
  lemma GoesOn(x: Job, k: nat)
    requires x.obs > 0 && x.Reaches(k + 1)
    ensures x.Fate(k) == CountReached
  {
  }

  /** The whole copy: the main loop and the part of a block that is left at the end. */
  method Copy(input: Channel, fd: OutFile, ibs: nat, obs: nat, count: int, swap: bool, sparse: bool)
    returns (ret: int, bytesIn: int, bytesOut: int, totalIn: nat, stop: Stop)
    requires 0 < ibs && 0 < obs
    modifies input, fd
    // what came out is what came in, up to a point
    ensures 0 <= bytesOut <= bytesIn <= |old(input.bytes)|
    ensures Written(fd, sparse, old(fd.content), old(fd.pos), Converted(old(input.bytes)[..bytesIn], swap)[..bytesOut])
    ensures stop == CountReached || stop == InputEnded ==> input.bytes == old(input.bytes)[bytesIn..]
    // why it stopped, the exit status, and whether all came out
    ensures stop == Refused <==> swap && ibs % 2 == 1
    ensures stop == CountReached <==> ret == 0
    ensures var x := old(JobOf(input, fd, ibs, obs, swap));
              && (ret == 0 <==> stop != Refused && count >= 0 && x.Reaches(count))
              && (stop == InputEnded <==> stop != Refused && x.Stops(count, InputEnded))
              && (stop == Overrun <==> stop != Refused && x.Stops(count, Overrun))
              && (stop == WriteFailed <==> stop != Refused && x.Stops(count, WriteFailed))
              && (stop != Refused ==> bytesIn == x.Taken(totalIn))
              && (stop == InputEnded || stop == Overrun ==> x.Reaches(totalIn) && x.Fate(totalIn) == stop)
              && (stop == WriteFailed ==> totalIn > 0 && x.Reaches(totalIn - 1) && x.Fate(totalIn - 1) == stop)
              && (stop == CountReached || stop == InputEnded ==>
                    && bytesIn - bytesIn % obs <= bytesOut
                    && (bytesOut == bytesIn <==> x.AcceptsRest(totalIn)))
    ensures (stop == CountReached ==> totalIn == count) && (count >= 0 ==> totalIn <= count)
    // the bytes in the file
    ensures bytesOut > 0 && (sparse ==> |old(fd.content)| <= old(fd.pos)) ==>
              && old(fd.pos) + bytesOut <= |fd.content|
              && (!swap ==> fd.content[old(fd.pos)..old(fd.pos) + bytesOut] == old(input.bytes)[..bytesOut])
              && (swap ==>
                    fd.content[old(fd.pos)..old(fd.pos) + bytesOut] == Swapped(old(input.bytes)[..bytesIn])[..bytesOut])
              && forall i :: 0 <= i < |old(fd.content)| && (i < old(fd.pos) || old(fd.pos) + bytesOut <= i) ==>
                   fd.content[i] == old(fd.content)[i]
    ensures bytesOut == 0 && (sparse ==> |old(fd.content)| <= old(fd.pos)) ==> fd.content == old(fd.content)
  {
    hide Overwritten, Swapped, Converted, Job.Reaches, Job.Taken, Job.Chunk, Job.Faulty, Job.WritesAll;
    hide Job.Fate, Job.AcceptsRest, Job.Stops;
    ghost var s0, f0, p0 := input.bytes, fd.content, fd.pos;
    ret, bytesIn, bytesOut, totalIn, stop := CopyAll(input, fd, ibs, obs, count, swap, sparse);
    if sparse ==> |f0| <= p0 { FileHolds(fd, sparse, f0, p0, s0, bytesIn, bytesOut, swap); }
  }

  lemma FileHolds(fd: OutFile, sparse: bool, f0: seq<Byte>, p0: nat, s0: seq<Byte>, bytesIn: nat, bytesOut: nat,
                  swap: bool)
    requires bytesOut <= bytesIn <= |s0| && (sparse ==> |f0| <= p0)
    requires Written(fd, sparse, f0, p0, Converted(s0[..bytesIn], swap)[..bytesOut])
    ensures bytesOut == 0 ==> fd.content == f0
    ensures bytesOut > 0 ==>
              && p0 + bytesOut <= |fd.content|
              && (!swap ==> fd.content[p0..p0 + bytesOut] == s0[..bytesOut])
              && (swap ==> fd.content[p0..p0 + bytesOut] == Swapped(s0[..bytesIn])[..bytesOut])
              && forall i :: 0 <= i < |f0| && (i < p0 || p0 + bytesOut <= i) ==> fd.content[i] == f0[i]
  {
    var d := Converted(s0[..bytesIn], swap)[..bytesOut];
    if bytesOut > 0 {
      BytesWritten(f0, p0, d);
      assert !swap ==> d == s0[..bytesOut];
    } else {
      NothingWritten(f0, p0);
      assert d == [];
    }
  }

  /** The copy, with its result in terms of Written. */
  method CopyAll(input: Channel, fd: OutFile, ibs: nat, obs: nat, count: int, swap: bool, sparse: bool)
    returns (ret: int, bytesIn: int, bytesOut: int, totalIn: nat, stop: Stop)
    requires 0 < ibs && 0 < obs
    modifies input, fd
    // what came out is what came in, up to a point
    ensures 0 <= bytesOut <= bytesIn <= |old(input.bytes)|
    ensures Written(fd, sparse, old(fd.content), old(fd.pos), Converted(old(input.bytes)[..bytesIn], swap)[..bytesOut])
    ensures stop == CountReached || stop == InputEnded ==> input.bytes == old(input.bytes)[bytesIn..]
    // why it stopped, the exit status, and whether all came out
    ensures stop == Refused <==> swap && ibs % 2 == 1
    ensures stop == CountReached <==> ret == 0
    ensures var x := old(JobOf(input, fd, ibs, obs, swap));
              && (ret == 0 <==> stop != Refused && count >= 0 && x.Reaches(count))
              && (stop == InputEnded <==> stop != Refused && x.Stops(count, InputEnded))
              && (stop == Overrun <==> stop != Refused && x.Stops(count, Overrun))
              && (stop == WriteFailed <==> stop != Refused && x.Stops(count, WriteFailed))
              && (stop != Refused ==> bytesIn == x.Taken(totalIn))
              && (stop == InputEnded || stop == Overrun ==> x.Reaches(totalIn) && x.Fate(totalIn) == stop)
              && (stop == WriteFailed ==> totalIn > 0 && x.Reaches(totalIn - 1) && x.Fate(totalIn - 1) == stop)
              && (stop == CountReached || stop == InputEnded ==>
                    && bytesIn - bytesIn % obs <= bytesOut
                    && (bytesOut == bytesIn <==> x.AcceptsRest(totalIn)))
    ensures (stop == CountReached ==> totalIn == count) && (count >= 0 ==> totalIn <= count)
  {
    hide Overwritten, Job.Reaches, Job.Taken, Job.Chunk, Job.Faulty, Job.WritesAll;
    ret, bytesIn, bytesOut, totalIn, stop := 1, 0, 0, 0, Refused;
    NothingWritten(fd.content, fd.pos);
    assert Converted(input.bytes[..0], swap) == [];
    if swap && ibs % 2 == 1 {
      return;
    }
    ghost var x := JobOf(input, fd, ibs, obs, swap);
    ghost var s0, f0, p0 := input.bytes, fd.content, fd.pos;
    var buf := new Byte[if ibs == obs then ibs else ibs + obs];
    var n;
    n, bytesIn, bytesOut, totalIn, stop := CopyBlocks(input, fd, buf, ibs, obs, count, swap, sparse, x);
    ExitStatus(x, totalIn, count, stop);
    ret := if stop == CountReached then 0 else -1;
    if stop == WriteFailed || stop == Overrun {
      return;
    }
    bytesOut := Finish(fd, buf, n, bytesOut, sparse, Converted(s0[..bytesIn], swap), f0, p0);
  }

  /** The last partial block is lost, and the exit status does not say so. */
  method LostLastByte() returns (ret: int, bytesIn: int, bytesOut: int)
    ensures ret == 0 && bytesIn == 1 && bytesOut == 0
  {
    var input := new Channel([1, 2, 3, 4, 5], _ => 512);
    var fd := new OutFile([], 0, _ => 0);
    ghost var x := JobOf(input, fd, 1, 2, false);
    assert x.Taken(0) == 0;
    assert x.Taken(1) == 1;
    var totalIn, stop;
    ret, bytesIn, bytesOut, totalIn, stop := Copy(input, fd, 1, 2, 1, false, false);
  }

  /** A short read that is not the last, with equal block sizes: the next one does not fit. */
  method ShortReadOverruns() returns (stop: Stop)
    ensures stop == Overrun
  {
    hide Overwritten, Converted;
    var input := new Channel([1, 2, 3, 4, 5], _ => 3);
    var fd := new OutFile([], 0, _ => 512);
    ghost var x := JobOf(input, fd, 4, 4, false);
    assert x.Taken(0) == 0;
    assert x.Taken(1) == 3;
    assert x.Chunk(0) == 3 && x.Chunk(1) == 2;
    assert x.Reaches(1) && x.Fate(1) == Overrun;
    var ret, bytesIn, bytesOut, totalIn;
    ret, bytesIn, bytesOut, totalIn, stop := Copy(input, fd, 4, 4, -1, false, false);
  }

  /** A read of an odd number of bytes that are to be swapped. */
  method OddReadOverruns() returns (stop: Stop)
    ensures stop == Overrun
  {
    hide Overwritten, Converted;
    var input := new Channel([1, 2, 3, 4, 5], _ => 1);
    var fd := new OutFile([], 0, _ => 512);
    ghost var x := JobOf(input, fd, 2, 3, true);
    NothingTaken(x);
    assert x.Chunk(0) == 1 && x.Fate(0) == Overrun;
    var ret, bytesIn, bytesOut, totalIn;
    ret, bytesIn, bytesOut, totalIn, stop := Copy(input, fd, 2, 3, -1, true, false);
  }

  /** If every read and write moves as much as it is asked to, k reads take k blocks. */
  lemma {:induction false} FullReads(x: Job, k: nat)
    requires 0 < x.ibs <= INT_MAX && forall i :: x.answers(i) >= x.ibs
    ensures x.Taken(k) == Min(k * x.ibs, x.left)
  {
    if k > 0 {
      FullReads(x, k - 1);
      assert k * x.ibs == (k - 1) * x.ibs + x.ibs;
      NonNegativeProduct(k - 1, x.ibs);
    }
  }

  /** Then the whole input is copied, whatever the block sizes. */
  lemma FullCopy(x: Job, why: Stop)
    requires 0 < x.ibs <= INT_MAX && 0 < x.obs && !x.swap
    requires (forall i :: x.answers(i) >= x.ibs) && forall i :: x.writes(i) >= x.obs
    requires why == Overrun || why == WriteFailed
    ensures !x.Stops(-1, why)
  {
    hide Job.Taken, Job.Faulty, Job.WritesAll, Job.Reaches;
    forall k: nat | x.Reaches(k) ensures x.Fate(k) != why {
      WholeReadFits(x, k);
      AllAccepted(x, k + 1);
    }
  }

  lemma AllAccepted(x: Job, k: nat)
    requires 0 < x.obs && forall i :: x.writes(i) >= x.obs
    ensures x.WritesAll(k)
  {
  }

  lemma WholeReadFits(x: Job, k: nat)
    requires 0 < x.ibs <= INT_MAX && 0 < x.obs && !x.swap && forall i :: x.answers(i) >= x.ibs
    ensures x.Chunk(k) > 0 ==> !x.Faulty(k)
  {
    hide Job.Taken;
    FullReads(x, k);
    NonNegativeProduct(k, x.ibs);
    if x.Chunk(k) > 0 {
      Commutes(k, x.ibs);
      RemainderIs(k * x.ibs, x.ibs, k, 0);
    }
  }

  method CopyWholeFile(input: Channel, fd: OutFile, ibs: nat, obs: nat, sparse: bool)
    requires 0 < ibs <= INT_MAX && 0 < obs && fd.content == [] && fd.pos == 0
    requires (forall i :: input.answers(i) >= ibs) && forall i :: fd.answers(i) >= obs
    modifies input, fd
    ensures fd.content == old(input.bytes) && input.bytes == []
  {
    hide Overwritten, Converted, Job.Reaches, Job.Taken, Job.Faulty, Job.WritesAll;
    ghost var x := JobOf(input, fd, ibs, obs, false);
    FullCopy(x, Overrun);
    FullCopy(x, WriteFailed);
    var ret, bytesIn, bytesOut, totalIn, stop;
    ret, bytesIn, bytesOut, totalIn, stop := Copy(input, fd, ibs, obs, -1, false, sparse);
  }
}
