/** ping.c: the Internet checksum. `unsigned long` is 32 bits wide and words are stored
    low byte first, as on the Windows machines the program is written for. */
module Checksum {
  import opened Arith
  import opened Machine

  // ------------------------------------------------------------------ RFC 1071, section 1

  function Word(low: int, high: int): int { low + 0x100 * high }

  /** The 16-bit words of a buffer; a last odd byte is padded with zero. */
  function Words(b: seq<Byte>): seq<int> {
    if |b| == 0 then []
    else if |b| == 1 then [b[0]]
    else [Word(b[0], b[1])] + Words(b[2..])
  }

  /** The same words in network byte order. */
  function NetworkWords(b: seq<Byte>): seq<int> {
    if |b| == 0 then []
    else if |b| == 1 then [Word(0, b[0])]
    else [Word(b[1], b[0])] + NetworkWords(b[2..])
  }

  /** 16-bit one's complement addition: a carry out of the top bit is added at the bottom. */
  function OnesAdd(a: int, b: int): int {
    if a + b >= 0x10000 then a + b - 0x10000 + 1 else a + b
  }

  function OnesSum(w: seq<int>): int {
    if w == [] then 0 else OnesAdd(w[0], OnesSum(w[1..]))
  }

  function Complement(x: int): int { 0xffff - x }

  function Sum(w: seq<int>): int {
    if w == [] then 0 else w[0] + Sum(w[1..])
  }

  function SwapBytes(x: nat): nat { x % 0x100 * 0x100 + x / 0x100 }

  /** The example of section 3 of RFC 1071, and the order of bytes within words. */
  lemma ExampleOfTheStandard()
    ensures NetworkWords([0x00, 0x01, 0xf2, 0x03, 0xf4, 0xf5, 0xf6, 0xf7]) == [0x0001, 0xf203, 0xf4f5, 0xf6f7]
    ensures OnesSum([0x0001, 0xf203, 0xf4f5, 0xf6f7]) == 0xddf2 && Complement(0xddf2) == 0x220d
    ensures Words([0x00, 0x01, 0xf2]) == [0x0100, 0x00f2] && SwapBytes(0x0100) == 0x0001
  {
    var s: seq<Byte> := [0x00, 0x01, 0xf2, 0x03, 0xf4, 0xf5, 0xf6, 0xf7];
    assert s[2..] == [0xf2, 0x03, 0xf4, 0xf5, 0xf6, 0xf7];
    assert s[2..][2..] == [0xf4, 0xf5, 0xf6, 0xf7];
    assert s[2..][2..][2..] == [0xf6, 0xf7];
    var w := [0x0001, 0xf203, 0xf4f5, 0xf6f7];
    assert w[1..] == [0xf203, 0xf4f5, 0xf6f7];
    assert w[1..][1..] == [0xf4f5, 0xf6f7];
    assert w[1..][1..][1..] == [0xf6f7];
    var b: seq<Byte> := [0x00, 0x01, 0xf2];
    assert b[2..] == [0xf2];
  }

  // ------------------------------------------------------------------ arithmetic modulo 65535

  /** The one number in 0..65535 that is congruent to x and zero only if x is. */
  function Residue(x: nat): (r: nat)
    ensures r < 0x10000 && (r == 0 <==> x == 0)
  {
    if x == 0 then 0 else (x - 1) % 0xffff + 1
  }

  lemma SameResidue(x: nat, y: nat)
    ensures Residue(x) == Residue(y) <==> x % 0xffff == y % 0xffff && (x == 0 <==> y == 0)
  {
    hide Residue;
    ResidueOf(x);
    ResidueOf(y);
  }

  lemma ResidueOf(x: nat)
    ensures x > 0 ==> Residue(x) == if x % 0xffff == 0 then 0xffff else x % 0xffff
  {
    var q, m := x / 0xffff, x % 0xffff;
    if m > 0 {
      RemainderIs(x - 1, 0xffff, q, m - 1);
    } else if x > 0 {
      RemainderIs(x - 1, 0xffff, q - 1, 0xfffe);
    }
  }

  predicate IsWords(w: seq<int>) { forall i :: 0 <= i < |w| ==> 0 <= w[i] < 0x10000 }

  lemma {:induction false} WordsInRange(b: seq<Byte>)
    ensures IsWords(Words(b)) && IsWords(NetworkWords(b))
    decreases |b|
  {
    if |b| > 1 { WordsInRange(b[2..]); }
  }

  /** All the carries can be added at the end. */
  lemma {:induction false} DeferredCarries(w: seq<int>)
    requires IsWords(w)
    ensures 0 <= Sum(w) <= 0xffff * |w| && OnesSum(w) == Residue(Sum(w))
  {
    if w != [] { DeferredCarries(w[1..]); }
  }

  // ------------------------------------------------------------------ the code

  const ULONG_RANGE: int := 0x1_0000_0000

  lemma WrapAdd(a: nat, b: nat)
    ensures (a % ULONG_RANGE + b) % ULONG_RANGE == (a + b) % ULONG_RANGE
  {
    var q := a / ULONG_RANGE;
    var c := a % ULONG_RANGE + b;
    DivisionOf(c, ULONG_RANGE);
    RemainderIs(a + b, ULONG_RANGE, q + c / ULONG_RANGE, c % ULONG_RANGE);
  }

  /** Two folds suffice for every 32-bit sum. */
  lemma ResidueByFolding(sum: nat, hi: nat, lo: nat)
    requires sum == 0x10000 * hi + lo && hi < 0x10000 && lo < 0x10000
    ensures Residue(sum) == if hi + lo < 0x10000 then hi + lo else hi + lo - 0xffff
  {
    if 0 < hi + lo < 0x10000 {
      RemainderIs(sum - 1, 0xffff, hi, hi + lo - 1);
    } else if hi + lo >= 0x10000 {
      RemainderIs(sum - 1, 0xffff, hi + 1, hi + lo - 0x10000);
    }
  }

  method Fold(sum: int) returns (result: int)
    requires 0 <= sum < ULONG_RANGE
    ensures result == Complement(Residue(sum))
  {
    hide Residue;
    var cksum := sum;
    ghost var hi, lo := sum / 0x10000, sum % 0x10000;
    ResidueByFolding(sum, hi, lo);
    cksum := cksum / 0x10000 + cksum % 0x10000;
    assert cksum / 0x10000 == if hi + lo < 0x10000 then 0 else 1;
    cksum := cksum + cksum / 0x10000;
    result := (ULONG_RANGE - 1 - cksum) % 0x10000;
    TruncatedComplement(cksum);
  }

  lemma TruncatedComplement(c: nat)
    requires c < 0x20000
    ensures (ULONG_RANGE - 1 - c) % 0x10000 == Complement(c % 0x10000)
  {
    RemainderIs(ULONG_RANGE - 1 - c, 0x10000, 0xffff - c / 0x10000, 0xffff - c % 0x10000);
  }

  /** The checksum of a buffer, the sum wrapping at 32 bits. */
  method Compute(buffer: seq<Byte>) returns (result: int)
    ensures result == Complement(Residue(WrappedSum(buffer)))
  {
    var cksum, pos, size := 0, 0, |buffer|;
    ghost var done: nat := 0;
    while size > 1
      invariant 0 <= size && pos + size == |buffer|
      invariant done + Sum(Words(buffer[pos..])) == Sum(Words(buffer)) && cksum == done % ULONG_RANGE
    {
      assert buffer[pos..][2..] == buffer[pos + 2..];
      var word := Word(buffer[pos], buffer[pos + 1]);
      WrapAdd(done, word);
      cksum := (cksum + word) % ULONG_RANGE;
      done := done + word;
      pos := pos + 2;
      size := size - 2;
    }
    if size != 0 {
      WrapAdd(done, buffer[pos]);
      cksum := (cksum + buffer[pos]) % ULONG_RANGE;
    }
    result := Fold(cksum);
  }

  function WrappedSum(b: seq<Byte>): (r: nat)
    ensures r < ULONG_RANGE
  {
    WordsInRange(b);
    DeferredCarries(Words(b));
    Sum(Words(b)) % ULONG_RANGE
  }

  lemma {:induction false} SumBound(b: seq<Byte>)
    ensures 0 <= Sum(Words(b)) <= 0xffff * (|b| / 2) + 0xff * (|b| % 2)
    decreases |b|
  {
    if |b| > 1 { SumBound(b[2..]); }
  }

  /** For every size an `int` can hold, the code computes the standard's sum exactly when
      the word sum has not wrapped. */
  lemma RightUnlessWrapped(b: seq<Byte>)
    requires |b| < 0x8000_0000
    ensures Residue(WrappedSum(b)) == OnesSum(Words(b)) <==> Sum(Words(b)) < ULONG_RANGE
  {
    hide Words, Sum, OnesSum, Residue;
    WordsInRange(b);
    DeferredCarries(Words(b));
    SumBound(b);
    WrappingShows(Sum(Words(b)), Sum(Words(b)) / ULONG_RANGE, Sum(Words(b)) % ULONG_RANGE);
  }

  /** Each wrap loses 1 modulo 65535, so fewer than 65535 of them always show. */
  lemma WrappingShows(sum: nat, q: nat, r: nat)
    requires sum == ULONG_RANGE * q + r && r < ULONG_RANGE && q < 0xffff
    ensures Residue(r) == Residue(sum) <==> q == 0
  {
    hide Residue;
    assert sum == 0xffff * (0x10001 * q) + (q + r);
    SameResidue(sum, r);
    if q > 0 {
      CongruentOnlyIf(r, q, 0x10001 * q);
    }
  }

  lemma CongruentOnlyIf(r: nat, q: nat, m: nat)
    requires 0 < q < 0xffff
    ensures (0xffff * m + (q + r)) % 0xffff != r % 0xffff
  {
    DivisionOf(q + r, 0xffff);
    RemainderIs(0xffff * m + (q + r), 0xffff, m + (q + r) / 0xffff, (q + r) % 0xffff);
    RemaindersDiffer(r, q + r, 0xffff);
  }

  /** No buffer of up to 2^17 + 2 bytes wraps the sum. */
  lemma ShortBuffersAreSafe(b: seq<Byte>)
    requires |b| <= 0x20002
    ensures WrappedSum(b) == Sum(Words(b)) && Residue(WrappedSum(b)) == OnesSum(Words(b))
  {
    hide Words, Sum, OnesSum, Residue;
    SumBound(b);
    if |b| < 0x20002 { assert |b| / 2 <= 0x10000; }
    assert Sum(Words(b)) < ULONG_RANGE;
    RightUnlessWrapped(b);
  }

  /** One byte more, all ones, and the result is wrong. */
  lemma LongerBuffersAreNot()
    ensures var b := Ones(0x20003); |b| == 0x20003 && Residue(WrappedSum(b)) != OnesSum(Words(b))
  {
    OnesHaveSum(0x20003);
    RightUnlessWrapped(Ones(0x20003));
  }

  function Ones(n: nat): (b: seq<Byte>)
    ensures |b| == n
  {
    seq(n, i => 0xff)
  }

  lemma {:induction false} OnesHaveSum(n: nat)
    ensures Sum(Words(Ones(n))) == 0xffff * (n / 2) + 0xff * (n % 2)
  {
    if n > 1 {
      assert Ones(n)[2..] == Ones(n - 2);
      OnesHaveSum(n - 2);
    }
  }

  /** Two short buffers have the same checksum exactly when their word sums agree modulo
      65535 and both or neither are zero. */
  lemma SameChecksum(a: seq<Byte>, b: seq<Byte>)
    requires |a| <= 0x20002 && |b| <= 0x20002
    ensures Complement(Residue(WrappedSum(a))) == Complement(Residue(WrappedSum(b))) <==>
            Sum(Words(a)) % 0xffff == Sum(Words(b)) % 0xffff && (Sum(Words(a)) == 0 <==> Sum(Words(b)) == 0)
  {
    ShortBuffersAreSafe(a);
    ShortBuffersAreSafe(b);
    SameResidue(WrappedSum(a), WrappedSum(b));
  }

  // ------------------------------------------------------------------ byte order

  lemma {:induction false} NetworkSum(b: seq<Byte>) returns (k: nat)
    ensures 0x100 * Sum(Words(b)) == Sum(NetworkWords(b)) + 0xffff * k
    ensures Sum(Words(b)) >= 0 && Sum(NetworkWords(b)) >= 0 && (Sum(NetworkWords(b)) == 0 <==> Sum(Words(b)) == 0)
    decreases |b|
  {
    if |b| <= 1 {
      k := 0;
    } else {
      k := NetworkSum(b[2..]);
      k := k + b[1];
    }
  }

  /** The order of the bytes within words does not matter: the sum over words in network
      order is the same sum with its bytes swapped, so the same bytes in memory. */
  lemma ByteOrderIndependent(b: seq<Byte>)
    ensures OnesSum(Words(b)) >= 0 && OnesSum(NetworkWords(b)) == SwapBytes(OnesSum(Words(b)))
  {
    WordsInRange(b);
    DeferredCarries(Words(b));
    DeferredCarries(NetworkWords(b));
    var s, n := Sum(Words(b)), Sum(NetworkWords(b));
    var k := NetworkSum(b);
    SwapOfResidue(s, n, k);
  }

  lemma SwapOfResidue(s: nat, n: nat, k: nat)
    requires 0x100 * s == n + 0xffff * k && (n == 0 <==> s == 0)
    ensures Residue(n) == SwapBytes(Residue(s))
  {
    var r := Residue(s);
    if s > 0 {
      var j := (s - 1) / 0xffff;
      assert s == r + 0xffff * j;
      var high := r / 0x100;
      assert 0x100 * r == SwapBytes(r) + 0xffff * high;
      ResidueIs(n, SwapBytes(r), 0x100 * j + high - k);
    }
  }

  lemma ResidueIs(n: nat, r: nat, d: int)
    requires 0 < r < 0x10000 && n == r + 0xffff * d && n > 0
    ensures Residue(n) == r
  {
    RemainderIs(n - 1, 0xffff, d, r - 1);
  }

  // ------------------------------------------------------------------ sending and receiving

  /** A buffer whose 16-bit field at a given offset has been set. */
  function WithWord(b: seq<Byte>, at: nat, word: nat): (r: seq<Byte>)
    requires at + 2 <= |b| && word < 0x10000
    ensures |r| == |b|
  {
    b[at := word % 0x100][at + 1 := word / 0x100]
  }

  /** An even field contributes its value to the sum. */
  lemma {:induction false} SumWithWord(b: seq<Byte>, at: nat, word: nat)
    requires at % 2 == 0 && at + 2 <= |b| && word < 0x10000
    ensures Sum(Words(WithWord(b, at, word))) == Sum(Words(b)) - Word(b[at], b[at + 1]) + word
    decreases |b|
  {
    if at > 0 {
      assert WithWord(b, at, word)[2..] == WithWord(b[2..], at - 2, word);
      SumWithWord(b[2..], at - 2, word);
    } else {
      assert WithWord(b, at, word)[2..] == b[2..];
    }
  }

  /** A buffer with its checksum stored in a zeroed field has checksum zero. */
  lemma StoredChecksumVerifies(b: seq<Byte>, at: nat)
    requires |b| <= 0x20002 && at % 2 == 0 && at + 2 <= |b| && b[at] == b[at + 1] == 0
    ensures Complement(Residue(WrappedSum(WithWord(b, at, Complement(Residue(WrappedSum(b))))))) == 0
  {
    var c := Complement(Residue(WrappedSum(b)));
    ShortBuffersAreSafe(b);
    var b' := WithWord(b, at, c);
    ShortBuffersAreSafe(b');
    SumWithWord(b, at, c);
    var s := Sum(Words(b));
    if s > 0 {
      ResidueIs(s + c, 0xffff, (s - 1) / 0xffff);
    }
  }

  /** What main does before each send: it clears the field of the header at offset 2,
      computes and stores. */
  method FillChecksum(data: array<Byte>, datasize: int)
    requires 4 <= datasize <= data.Length
    modifies data
    ensures var cleared := WithWord(old(data[..]), 2, 0)[..datasize];
            data[..] == WithWord(old(data[..]), 2, Complement(Residue(WrappedSum(cleared))))
    ensures datasize <= 0x20002 ==> Complement(Residue(WrappedSum(data[..datasize]))) == 0
  {
    data[2], data[3] := 0, 0;
    ghost var cleared := data[..datasize];
    assert cleared == WithWord(old(data[..]), 2, 0)[..datasize];
    var c := Compute(data[..datasize]);
    data[2], data[3] := c % 0x100, c / 0x100;
    assert data[..datasize] == WithWord(cleared, 2, c);
    if datasize <= 0x20002 {
      StoredChecksumVerifies(cleared, 2);
    }
  }
}
