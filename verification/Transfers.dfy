/** The operating system's read and write, as far as the programs can see. */
module Transfers {
  import opened Arith
  import opened Machine

  /** The bytes that a read of up to len moves when left bytes are there: none if it is refused. */
  function Transferred(answer: int, len: nat, left: nat): (n: nat)
    ensures n <= len && n <= left && n <= INT_MAX
    ensures n > 0 <==> answer > 0 && len > 0 && left > 0
    ensures n > 0 ==> n <= answer && (n == answer || n == len || n == left || n == INT_MAX)
  {
    if answer <= 0 then 0 else Min(answer, Min(len, Min(left, INT_MAX)))
  }

  /** A file or socket: the bytes under way and what the operating system answers to each
      call, a failure or an upper bound on the bytes it moves. */
  class Channel {
    var bytes: seq<Byte>
    var calls: nat
    const answers: nat -> int

    constructor (bytes: seq<Byte>, answers: nat -> int)
      ensures this.bytes == bytes && calls == 0 && this.answers == answers
    {
      this.bytes, calls, this.answers := bytes, 0, answers;
    }

    /** What the next read of up to len bytes will move. */
    function Amount(len: nat): nat
      reads this
    {
      Transferred(answers(calls), len, |bytes|)
    }

    /** No call since the given one was refused. */
    ghost predicate Smooth(since: nat)
      reads this
    {
      forall i :: since <= i < calls ==> answers(i) > 0
    }

    method Write(data: seq<Byte>) returns (n: int)
      modifies this
      ensures calls == old(calls) + 1
      ensures -1 <= n <= |data| && (n > 0 <==> answers(old(calls)) > 0 && |data| > 0)
      ensures bytes == old(bytes) + if n > 0 then data[..n] else []
    {
      n := if answers(calls) <= 0 then -1 else Min(answers(calls), Min(|data|, INT_MAX));
      calls := calls + 1;
      if n > 0 {
        bytes := bytes + data[..n];
      }
    }

    /** Returns 0 at the end of the stream. */
    method Read(buf: array<Byte>, at: nat, len: nat) returns (n: int)
      requires at + Amount(len) <= buf.Length
      modifies this, buf
      ensures calls == old(calls) + 1
      ensures if old(Amount(len)) > 0 then n == old(Amount(len)) else -1 <= n <= 0
      ensures var k := old(Amount(len));
              && bytes == old(bytes)[k..]
              && buf[at..at + k] == old(bytes)[..k]
              && buf[..at] == old(buf[..at]) && buf[at + k..] == old(buf[..])[at + k..]
    {
      n := if answers(calls) < 0 then -1 else Amount(len);
      calls := calls + 1;
      if n > 0 {
        forall i | 0 <= i < n { buf[at + i] := bytes[i]; }
        bytes := bytes[n..];
      }
    }
  }
}
