/** uthash.h: every element is on an insertion-order list (next, prev) and on the
    chain of its bucket (bucketNext, bucketPrev). */
module UtHash {
  import opened Arith
  import opened Bits
  import opened Lists
  import opened MergeSort
  import opened UtList

  const INITIAL_LOG := 5 // 32 buckets

  /** first is the head of a doubly linked bucket chain of exactly the nodes c. */
  ghost predicate Chain<D>(first: Node?<D>, c: seq<Node<D>>)
    reads c`bucketNext, c`bucketPrev
  {
    && Distinct(c)
    && first == At(c, 0)
    && Forward(c, 0)
    && (forall t {:trigger c[t].bucketPrev} :: 0 <= t < |c| ==> c[t].bucketPrev == if t == 0 then null else c[t - 1])
  }

  ghost predicate Forward<D>(c: seq<Node<D>>, from: nat)
    reads c`bucketNext
  {
    forall t {:trigger c[t].bucketNext} :: from <= t < |c| ==> c[t].bucketNext == At(c, t + 1)
  }

  /** The old bucket of everything that expansion moves to bucket nb of 2n. */
  function OldBucket(nb: nat, n: nat): (b: nat) { if nb < n then nb else nb - n }

  /** Doubling the number of buckets splits bucket b into b and b + n. */
  lemma MaskDoubles(h: nat, e: nat)
    ensures var n := Pow2(e);
      && And(h, n - 1) < n && And(h, 2 * n - 1) < 2 * n
      && OldBucket(And(h, 2 * n - 1), n) == And(h, n - 1)
  {
    hide And, Pow2;
    var n := Pow2(e);
    assert Pow2(e + 1) == 2 * n by { Pow2Next(e); }
    MaskIsRemainder(h, e);
    MaskIsRemainder(h, e + 1);
    DoubleRemainder(h, n);
  }

  /** The number of buckets starts at 32 and only ever doubles: n is 2^e. */
  ghost predicate BucketCount(n: nat, e: nat) {
    e >= INITIAL_LOG && n == Pow2(e)
  }

  lemma BucketCounts(n: nat, e: nat)
    ensures BucketCount(32, INITIAL_LOG)
    ensures BucketCount(n, e) ==> BucketCount(2 * n, e + 1)
  {
    assert Pow2(INITIAL_LOG) == 32;
  }

  class Hash<K(==), D> {
    const keyOf: D -> K
    const hash: K -> nat
    var head: Node?<D>
    var tail: Node?<D>
    var numBuckets: nat
    var numItems: nat
    var buckets: array<Node?<D>>
    var counts: array<nat>
    ghost var items: seq<Node<D>>
    ghost var chains: seq<seq<Node<D>>>
    ghost var log: nat

    function Key(x: Node<D>): K { keyOf(x.data) }

    /** HASH_FCN: the hash of the key, masked to n buckets (n a power of two). */
    function Slot(k: K, n: nat): nat
      requires n > 0
    {
      And(hash(k), n - 1)
    }

    /** bs and cs are the heads and counts of the chains ch, each in its own bucket. */
    ghost predicate Bucketed(bs: array<Node?<D>>, cs: array<nat>, ch: seq<seq<Node<D>>>, all: seq<Node<D>>)
      reads bs, cs, all`bucketNext, all`bucketPrev
    {
      && |ch| == bs.Length == cs.Length && |ch| > 0
      && (forall b, i :: 0 <= b < |ch| && 0 <= i < |ch[b]| ==> ch[b][i] in all && Slot(Key(ch[b][i]), |ch|) == b)
      && (forall b :: 0 <= b < |ch| ==> Chain(bs[b], ch[b]) && cs[b] == |ch[b]|)
    }

    /** What HASH_FSCK checks, and more: both structures hold the same elements. */
    ghost predicate Valid()
      reads this, buckets, counts, items
    {
      && Distinct(items)
      && (items == [] <==> head == null)
      && (items != [] ==>
            && IsList(head, items, false, true)
            && tail == items[|items| - 1]
            && numItems == |items|
            && numBuckets == |chains| && BucketCount(numBuckets, log)
            && Bucketed(buckets, counts, chains, items)
            && Covered(chains, items))
    }

    /** The invariant spelled out: what HASH_FSCK tests, where every element is, and that the
        bucket of an element is the remainder of its hash. */
    lemma Fsck()
      requires Valid() && items != []
      ensures numItems == |items| && head == items[0] && tail == items[|items| - 1]
      ensures forall t {:trigger items[t].next} :: 0 <= t < |items| ==>
                items[t].next == if t + 1 < |items| then items[t + 1] else null
      ensures forall t {:trigger items[t].prev} :: 0 <= t < |items| ==>
                items[t].prev == if t > 0 then items[t - 1] else null
      ensures numBuckets == |chains| == buckets.Length == counts.Length && exists e :: numBuckets == Pow2(e)
      ensures forall b :: 0 <= b < |chains| ==>
                counts[b] == |chains[b]| && buckets[b] == if chains[b] == [] then null else chains[b][0]
      ensures forall b, t {:trigger chains[b][t].bucketNext} :: 0 <= b < |chains| && 0 <= t < |chains[b]| ==>
                chains[b][t].bucketNext == if t + 1 < |chains[b]| then chains[b][t + 1] else null
      ensures forall b, t {:trigger chains[b][t].bucketPrev} :: 0 <= b < |chains| && 0 <= t < |chains[b]| ==>
                chains[b][t].bucketPrev == if t > 0 then chains[b][t - 1] else null
      ensures forall b, t :: 0 <= b < |chains| && 0 <= t < |chains[b]| ==>
                chains[b][t] in items && hash(keyOf(chains[b][t].data)) % numBuckets == b
      ensures forall t :: 0 <= t < |items| ==>
                var b := hash(keyOf(items[t].data)) % numBuckets; 0 <= b < |chains| && items[t] in chains[b]
    {
      hide And, Pow2;
      forall x: Node<D> ensures Slot(Key(x), numBuckets) == hash(keyOf(x.data)) % numBuckets {
        MaskIsRemainder(hash(keyOf(x.data)), log);
      }
    }

    ghost predicate Covered(ch: seq<seq<Node<D>>>, all: seq<Node<D>>) {
      && |ch| > 0
      && forall x :: x in all ==> Slot(Key(x), |ch|) < |ch| && x in ch[Slot(Key(x), |ch|)]
    }

    ghost predicate UniqueKeys()
      reads this
    {
      forall i, j :: 0 <= i < j < |items| ==> Key(items[i]) != Key(items[j])
    }

    /** The chain of the bucket where elements with key k are. */
    ghost function Bucket(k: K): seq<Node<D>>
      reads this
    {
      if numBuckets > 0 && Slot(k, numBuckets) < |chains| then chains[Slot(k, numBuckets)] else []
    }

    constructor (keyOf: D -> K, hash: K -> nat)
      ensures Valid() && items == []
      ensures this.keyOf == keyOf && this.hash == hash
      ensures fresh(buckets) && fresh(counts)
    {
      this.keyOf, this.hash := keyOf, hash;
      head, tail, items := null, null, [];
      buckets := new Node?<D>[0];
      counts := new nat[0];
    }

    lemma SlotInRange(k: K, e: nat)
      ensures Slot(k, Pow2(e)) < Pow2(e) && Slot(k, 2 * Pow2(e)) < 2 * Pow2(e)
      ensures OldBucket(Slot(k, 2 * Pow2(e)), Pow2(e)) == Slot(k, Pow2(e))
    {
      MaskDoubles(hash(k), e);
    }

    /** Zeroed buckets. */
    method NewBuckets(n: nat, ghost all: seq<Node<D>>)
      returns (bs: array<Node?<D>>, cs: array<nat>, ghost ch: seq<seq<Node<D>>>)
      requires n > 0
      ensures fresh(bs) && fresh(cs) && |ch| == n && Bucketed(bs, cs, ch, all)
      ensures ch == NoChains(n)
    {
      bs := new Node?<D>[n](_ => null);
      cs := new nat[n](_ => 0);
      ch := NoChains(n);
    }

    /** Linking e in at the front of its bucket: the first half of HASH_ADD_TO_BKT,
        and the move of one element in HASH_EXPAND_BUCKETS. */
    method Push(e: Node<D>, b: nat, bs: array<Node?<D>>, cs: array<nat>,
                ghost ch: seq<seq<Node<D>>>, ghost all: seq<Node<D>>)
      requires Bucketed(bs, cs, ch, all) && b < |ch| && b == Slot(Key(e), |ch|)
      requires e in all && forall k :: 0 <= k < |ch| ==> e !in ch[k]
      modifies bs, cs, e`bucketNext, e`bucketPrev, (if bs[b] == null then {} else {bs[b]})`bucketPrev
      ensures Bucketed(bs, cs, ch[b := [e] + ch[b]], all)
    {
      hide And;
      var old_first := bs[b];
      assert old_first != null ==> old_first in ch[b];
      cs[b] := cs[b] + 1;
      e.bucketNext := bs[b];
      e.bucketPrev := null;
      if bs[b] != null { bs[b].bucketPrev := e; }
      bs[b] := e;
      ghost var ch' := ch[b := [e] + ch[b]];
      forall k | 0 <= k < |ch| ensures Chain(bs[k], ch'[k]) && cs[k] == |ch'[k]| {
        if k != b { assert e !in ch[k] && (old_first != null ==> old_first !in ch[k]); }
      }
    }

    /** HASH_DEL_IN_BKT. */
    method Pop(del: Node<D>, b: nat, bs: array<Node?<D>>, cs: array<nat>,
               ghost ch: seq<seq<Node<D>>>, ghost all: seq<Node<D>>)
      requires Bucketed(bs, cs, ch, all) && b < |ch| && del in ch[b]
      modifies bs, cs, ch[b]`bucketNext, ch[b]`bucketPrev
      ensures Bucketed(bs, cs, ch[b := Without(ch[b], del)], all) && Distinct(ch[b])
    {
      hide And, Without;
      ghost var c := ch[b];
      cs[b] := cs[b] - 1;
      var first := UnlinkFromChain(bs[b], del, c);
      bs[b] := first;
      WithoutMembers(c, del);
      ghost var r := Without(c, del);
      assert forall i :: 0 <= i < |r| ==> r[i] in c;
      forall k | 0 <= k < |ch| && k != b ensures Chain(bs[k], ch[k]) {
        assert forall i :: 0 <= i < |c| ==> c[i] !in ch[k];
      }
    }

    /** The chains ch with add in front of its own. */
    ghost function Entered(ch: seq<seq<Node<D>>>, add: Node<D>): seq<seq<Node<D>>> {
      if |ch| > 0 && Slot(Key(add), |ch|) < |ch| then
        ch[Slot(Key(add), |ch|) := [add] + ch[Slot(Key(add), |ch|)]]
      else ch
    }

    /** The chains ch without del in its own. */
    ghost function Left(ch: seq<seq<Node<D>>>, del: Node<D>): seq<seq<Node<D>>> {
      if |ch| > 0 && Slot(Key(del), |ch|) < |ch| then
        ch[Slot(Key(del), |ch|) := Without(ch[Slot(Key(del), |ch|)], del)]
      else ch
    }

    ghost function NoChains(n: nat): (ch: seq<seq<Node<D>>>)
      ensures |ch| == n && forall b :: 0 <= b < n ==> ch[b] == []
    {
      seq(n, _ => [])
    }

    /** The chains that an add starts from. */
    ghost function ChainsBefore(): seq<seq<Node<D>>>
      reads this
    {
      if items == [] then NoChains(32) else chains
    }

    /** What expansion leaves in bucket nb of n once it has moved the nodes c in
        order: those that belong there, the last one moved in front. */
    ghost function Moved(c: seq<Node<D>>, nb: nat, n: nat): seq<Node<D>>
      requires n > 0
    {
      if c == [] then []
      else
        var (front, e) := (c[..|c| - 1], c[|c| - 1]);
        if Slot(Key(e), n) == nb then [e] + Moved(front, nb, n) else Moved(front, nb, n)
    }

    lemma {:induction false} MovedMembers(c: seq<Node<D>>, nb: nat, n: nat)
      requires n > 0
      ensures forall x :: x in Moved(c, nb, n) <==> x in c && Slot(Key(x), n) == nb
    {
      if c != [] {
        MovedMembers(c[..|c| - 1], nb, n);
        assert c == c[..|c| - 1] + [c[|c| - 1]];
      }
    }

    /** In a new bucket the elements stand in the opposite order. */
    lemma {:induction false} MovedReverses(c: seq<Node<D>>, nb: nat, n: nat)
      requires n > 0 && Distinct(c)
      ensures forall i :: 0 <= i < |Moved(c, nb, n)| ==> Moved(c, nb, n)[i] in c
      ensures forall i, j :: 0 <= i < j < |Moved(c, nb, n)| ==> Pos(c, Moved(c, nb, n)[j]) < Pos(c, Moved(c, nb, n)[i])
    {
      hide And, Slot;
      if c != [] {
        var front, e := c[..|c| - 1], c[|c| - 1];
        var r, f := Moved(c, nb, n), Moved(front, nb, n);
        MovedReverses(front, nb, n);
        assert forall i :: 0 <= i < |f| ==> f[i] in front;
        forall i | 0 <= i < |f| ensures f[i] in c && Pos(c, f[i]) == Pos(front, f[i]) < |front| {
          assert c[Pos(front, f[i])] == f[i];
        }
        assert Pos(c, e) == |front|;
        assert r == f || r == [e] + f;
      }
    }

    /** The part of the old chains that has been moved when the first j nodes of bucket bi
        and all nodes of the buckets before it have. */
    ghost function MovedPart(ch: seq<seq<Node<D>>>, b: nat, bi: nat, j: nat): seq<Node<D>>
      requires b < |ch| && (bi < |ch| ==> j <= |ch[bi]|)
    {
      if b < bi then ch[b] else if b == bi then ch[b][..j] else []
    }

    ghost predicate Rehashed(ch: seq<seq<Node<D>>>, ch2: seq<seq<Node<D>>>, bi: nat, j: nat)
      requires bi < |ch| ==> j <= |ch[bi]|
    {
      && |ch| > 0 && |ch2| == 2 * |ch|
      && forall nb :: 0 <= nb < |ch2| ==>
           ch2[nb] == Moved(MovedPart(ch, OldBucket(nb, |ch|), bi, j), nb, |ch2|)
    }

    /** The new chains when the j-th node e of bucket bi has been pushed to its new bucket. */
    lemma RehashStep(ch: seq<seq<Node<D>>>, ch2: seq<seq<Node<D>>>, bi: nat, j: nat, e: Node<D>, nb: nat)
      requires bi < |ch| && j < |ch[bi]| && e == ch[bi][j] && Distinct(ch[bi])
      requires Rehashed(ch, ch2, bi, j)
      requires nb == Slot(Key(e), |ch2|) && nb < |ch2| && OldBucket(nb, |ch|) == bi
      requires forall k, i :: 0 <= k < |ch2| && 0 <= i < |ch2[k]| ==> Slot(Key(ch2[k][i]), |ch2|) == k
      ensures Rehashed(ch, ch2[nb := [e] + ch2[nb]], bi, j + 1)
      ensures forall k :: 0 <= k < |ch2| ==> e !in ch2[k]
    {
      hide And, Slot;
      var c := ch[bi];
      assert c[..j + 1][..j] == c[..j] && c[..j + 1][j] == e;
      MovedMembers(c[..j], nb, |ch2|);
      assert ch2[nb] == Moved(c[..j], nb, |ch2|);
      assert e !in ch2[nb];
    }

    lemma RehashNextBucket(ch: seq<seq<Node<D>>>, ch2: seq<seq<Node<D>>>, bi: nat)
      requires bi < |ch|
      ensures Rehashed(ch, ch2, bi, |ch[bi]|) ==> Rehashed(ch, ch2, bi + 1, 0)
    {
      assert ch[bi][..|ch[bi]|] == ch[bi];
    }

    /** The inner loop of HASH_EXPAND_BUCKETS: rehash the chain of bucket bi. */
    method MoveBucket(first: Node?<D>, bi: nat, bs2: array<Node?<D>>, cs2: array<nat>, num2: nat,
                      ghost e: nat, ghost ch: seq<seq<Node<D>>>, ghost ch2: seq<seq<Node<D>>>, ghost all: seq<Node<D>>)
      returns (ghost ch2': seq<seq<Node<D>>>)
      requires |ch| == Pow2(e) && num2 == |ch2| == 2 * Pow2(e) && bi < |ch|
      requires Bucketed(bs2, cs2, ch2, all) && Rehashed(ch, ch2, bi, 0)
      requires Distinct(ch[bi]) && first == At(ch[bi], 0) && Forward(ch[bi], 0)
      requires forall i :: 0 <= i < |ch[bi]| ==> ch[bi][i] in all && Slot(Key(ch[bi][i]), |ch|) == bi
      modifies bs2, cs2, all`bucketNext, all`bucketPrev
      ensures |ch2'| == |ch2| && Bucketed(bs2, cs2, ch2', all) && Rehashed(ch, ch2', bi, |ch[bi]|)
      ensures forall x :: x in all && x !in ch[bi] ==> x.bucketNext == old(x.bucketNext)
    {
      hide And, Rehashed, Moved, Bucketed, Distinct, Slot;
      ghost var c := ch[bi];
      ghost var j := 0;
      ch2' := ch2;
      var hh := first;
      while hh != null
        invariant j <= |c| && hh == (if j < |c| then c[j] else null)
        invariant |ch2'| == |ch2| && Bucketed(bs2, cs2, ch2', all) && Rehashed(ch, ch2', bi, j)
        invariant Forward(c, j)
        invariant forall x :: x in all && x !in c ==> x.bucketNext == old(x.bucketNext)
        decreases |c| - j
      {
        hh, ch2' := MoveOne(hh, bi, j, bs2, cs2, num2, e, ch, ch2', all);
        j := j + 1;
      }
    }

    /** The j-th element of bucket bi moves to its new bucket. */
    method MoveOne(hh: Node<D>, ghost bi: nat, ghost j: nat, bs2: array<Node?<D>>, cs2: array<nat>, num2: nat,
                   ghost e: nat, ghost ch: seq<seq<Node<D>>>, ghost ch2: seq<seq<Node<D>>>, ghost all: seq<Node<D>>)
      returns (nxt: Node?<D>, ghost ch2': seq<seq<Node<D>>>)
      requires |ch| == Pow2(e) && num2 == |ch2| == 2 * Pow2(e) && bi < |ch| && j < |ch[bi]| && hh == ch[bi][j]
      requires Bucketed(bs2, cs2, ch2, all) && Rehashed(ch, ch2, bi, j)
      requires Distinct(ch[bi]) && Forward(ch[bi], j)
      requires forall i :: 0 <= i < |ch[bi]| ==> ch[bi][i] in all && Slot(Key(ch[bi][i]), |ch|) == bi
      modifies bs2, cs2, all`bucketNext, all`bucketPrev
      ensures |ch2'| == |ch2| && Bucketed(bs2, cs2, ch2', all) && Rehashed(ch, ch2', bi, j + 1)
      ensures nxt == At(ch[bi], j + 1) && Forward(ch[bi], j + 1)
      ensures forall x :: x in all && x !in ch[bi] ==> x.bucketNext == old(x.bucketNext)
    {
      hide And, Rehashed, Moved;
      nxt := hh.bucketNext;
      var b := Slot(Key(hh), num2);
      SlotInRange(Key(hh), e);
      RehashStep(ch, ch2, bi, j, hh, b);
      assert bs2[b] != null ==> bs2[b] == ch2[b][0];
      Push(hh, b, bs2, cs2, ch2, all);
      ch2' := ch2[b := [hh] + ch2[b]];
    }

    /** The outer loop of HASH_EXPAND_BUCKETS. */
    method MoveAll(bs2: array<Node?<D>>, cs2: array<nat>, ghost ch2: seq<seq<Node<D>>>)
      returns (ghost ch2': seq<seq<Node<D>>>)
      requires Valid() && items != [] && bs2 != buckets && cs2 != counts
      requires |ch2| == 2 * numBuckets && Bucketed(bs2, cs2, ch2, items) && Rehashed(chains, ch2, 0, 0)
      modifies bs2, cs2, items`bucketNext, items`bucketPrev
      ensures |ch2'| == |ch2| && Bucketed(bs2, cs2, ch2', items) && Rehashed(chains, ch2', numBuckets, 0)
    {
      hide And, Moved, IsList, Rehashed, Covered;
      ch2' := ch2;
      var bi := 0;
      while bi < numBuckets
        invariant bi <= numBuckets && |ch2'| == |ch2|
        invariant Bucketed(bs2, cs2, ch2', items) && Rehashed(chains, ch2', bi, 0)
        invariant forall b :: bi <= b < numBuckets ==> Forward(chains[b], 0)
      {
        ch2' := MoveBucket(buckets[bi], bi, bs2, cs2, 2 * numBuckets, log, chains, ch2', items);
        RehashNextBucket(chains, ch2', bi);
        bi := bi + 1;
      }
    }

    /** HASH_EXPAND_BUCKETS: every element of old bucket b is moved to b or b + numBuckets, exactly once. */
    method Expand()
      requires Valid() && items != []
      modifies this`buckets, this`counts, this`numBuckets, this`chains, this`log, items`bucketNext, items`bucketPrev
      ensures Valid() && fresh(buckets) && fresh(counts)
      ensures numBuckets == 2 * old(numBuckets) && |old(chains)| == old(numBuckets)
      ensures Rehashed(old(chains), chains, old(numBuckets), 0)
    {
      hide And, Moved, IsList, Rehashed, Distinct, Bucketed, Covered;
      var bs2, cs2, ch2 := NewBuckets(2 * numBuckets, items);
      StartRehash(chains, ch2);
      ch2 := MoveAll(bs2, cs2, ch2);
      CoveredAfter(chains, ch2, items, log);
      Install(bs2, cs2, ch2);
    }

    /** The new buckets take the place of the old. */
    method Install(bs2: array<Node?<D>>, cs2: array<nat>, ghost ch2: seq<seq<Node<D>>>)
      requires items != [] && Distinct(items) && head != null && IsList(head, items, false, true)
      requires tail == items[|items| - 1] && numItems == |items|
      requires |ch2| == 2 * numBuckets && BucketCount(numBuckets, log)
      requires Bucketed(bs2, cs2, ch2, items) && Covered(ch2, items)
      modifies this`buckets, this`counts, this`numBuckets, this`chains, this`log
      ensures Valid() && buckets == bs2 && counts == cs2 && chains == ch2 && numBuckets == 2 * old(numBuckets)
    {
      hide And, IsList, Distinct, Bucketed, Covered, BucketCount, Slot;
      BucketCounts(numBuckets, log);
      numBuckets, buckets, counts, chains := 2 * numBuckets, bs2, cs2, ch2;
      log := log + 1;
    }

    lemma StartRehash(ch: seq<seq<Node<D>>>, ch2: seq<seq<Node<D>>>)
      requires |ch| > 0 && |ch2| == 2 * |ch| && forall nb :: 0 <= nb < |ch2| ==> ch2[nb] == []
      ensures Rehashed(ch, ch2, 0, 0)
    {
    }

    lemma CoveredAfter(ch: seq<seq<Node<D>>>, ch2: seq<seq<Node<D>>>, all: seq<Node<D>>, e: nat)
      requires |ch| == Pow2(e) && Rehashed(ch, ch2, |ch|, 0) && Covered(ch, all)
      ensures Covered(ch2, all)
    {
      forall x | x in all ensures Slot(Key(x), |ch2|) < |ch2| && x in ch2[Slot(Key(x), |ch2|)] {
        var b, nb := Slot(Key(x), |ch|), Slot(Key(x), |ch2|);
        SlotInRange(Key(x), e);
        MovedMembers(ch[b], nb, |ch2|);
      }
    }

    /** The first element with key k in insertion order. */
    function Scan(s: seq<Node<D>>, k: K): (r: Node?<D>)
      ensures r == null ==> forall i :: 0 <= i < |s| ==> Key(s[i]) != k
      ensures r != null ==> r in s && Key(r) == k
    {
      if s == [] then null else if Key(s[0]) == k then s[0] else Scan(s[1..], k)
    }

    /** HASH_FIND: walks one bucket chain, yet finds what a scan of the whole list would. */
    method Find(k: K) returns (out: Node?<D>)
      requires Valid()
      ensures out == null <==> Scan(items, k) == null
      ensures out != null ==> out in items && Key(out) == k
      ensures UniqueKeys() ==> out == Scan(items, k)
      ensures (forall i, j :: 0 <= i < j < |items| ==> keyOf(items[i].data) != keyOf(items[j].data)) ==>
                forall x :: x in items && keyOf(x.data) == k ==> out == x
      ensures out == null <==> forall i :: 0 <= i < |items| ==> keyOf(items[i].data) != k
      ensures items != [] ==> out == Scan(Bucket(k), k)
    {
      hide And, IsList, Scan;
      out := head;
      if head != null {
        ghost var found := Scan(items, k);
        SlotInRange(k, log);
        var bkt := Slot(k, numBuckets);
        ghost var c := chains[bkt];
        ghost var i := 0;
        assert found != null ==> found in c;
        out := buckets[bkt];
        while out != null
          invariant i <= |c| && out == (if i < |c| then c[i] else null)
          invariant forall j :: 0 <= j < i ==> Key(c[j]) != k
          decreases |c| - i
        {
          if Key(out) == k { break; }
          out := out.bucketNext;
          i := i + 1;
        }
        if out != null { assert out in items; }
        FirstInChain(c, k, i);
        OnlyMatch(k);
      }
    }

    lemma OnlyMatch(k: K)
      ensures UniqueKeys() ==> forall x :: x in items && Key(x) == k ==> Scan(items, k) == x
    {
      hide Scan;
      if UniqueKeys() {
        forall x | x in items && Key(x) == k ensures Scan(items, k) == x {
          var r := Scan(items, k);
          assert items[Pos(items, x)] == x;
          assert items[Pos(items, r)] == r;
        }
      }
    }

    lemma {:induction false} FirstInChain(c: seq<Node<D>>, k: K, i: nat)
      requires i <= |c| && (i < |c| ==> Key(c[i]) == k) && forall j :: 0 <= j < i ==> Key(c[j]) != k
      ensures Scan(c, k) == if i < |c| then c[i] else null
    {
      if i > 0 {
        assert forall j :: 0 <= j < i - 1 ==> c[1..][j] == c[j + 1];
        FirstInChain(c[1..], k, i - 1);
      }
    }

    /** After a sort every key is found as before, also one that several elements have. */
    method SortKeepsFind(cmp: (D, D) -> int, k: K) returns (before: Node?<D>, after: Node?<D>)
      requires Valid()
      modifies this`head, this`tail, this`items, items`next, items`prev
      ensures Valid() && items == Sort(LeBy(cmp), old(items)) && before == after
    {
      hide Sort, And, Valid, TotalPreorderOn, StableSort, LeBy, UniqueKeys, Scan;
      SortPermutes(LeBy(cmp), items);
      SameLength(Sort(LeBy(cmp), items), items);
      before := Find(k);
      SortItems(cmp);
      after := Find(k);
    }

    /** HASH_ADD_KEYPTR. Whether the bucket then expands is decided by a
        load heuristic that is not modelled: expand is its answer. */
    method Add(add: Node<D>, expand: bool)
      requires Valid() && add !in items
      modifies this, buckets, counts, items, add
      ensures Valid() && items == old(items) + [add]
      ensures numBuckets == (if old(items) == [] then 32 else old(numBuckets)) * (if expand then 2 else 1)
      ensures buckets == old(buckets) || fresh(buckets)
      ensures counts == old(counts) || fresh(counts)
      ensures !expand ==> Bucket(Key(add)) == [add] + if old(items) == [] then [] else old(Bucket(Key(add)))
      ensures var mid := Entered(old(ChainsBefore()), add);
                |mid| > 0 && if expand then Rehashed(mid, chains, |mid|, 0) else chains == mid
    {
      hide And, Valid, Listed, Bucket, Entered, Rehashed;
      AddToList(add);
      AddToBucket(add);
      if expand { Expand(); }
    }

    /** The table once add is on the list but in no bucket yet. */
    ghost predicate Listed(add: Node<D>, before: seq<Node<D>>)
      reads this, buckets, counts, items, before
    {
      && items == before + [add] && Distinct(items) && head != null
      && IsList(head, items, false, true) && tail == add && numItems == |items|
      && numBuckets == |chains| && BucketCount(numBuckets, log)
      && Bucketed(buckets, counts, chains, before)
      && Covered(chains, before)
    }

    /** The list half of HASH_ADD_KEYPTR; the first element also creates the table. */
    method AddToList(add: Node<D>)
      requires Valid() && add !in items
      modifies this, items`next, add`next, add`prev
      ensures Listed(add, old(items)) && items == old(items) + [add] && chains == old(ChainsBefore())
      ensures Bucket(Key(add)) == if old(items) == [] then [] else old(Bucket(Key(add)))
      ensures numBuckets == if old(items) == [] then 32 else old(numBuckets)
      ensures buckets == old(buckets) || fresh(buckets)
      ensures counts == old(counts) || fresh(counts)
    {
      add.next := null;
      if head == null {
        CreateTable(add);
      } else {
        hide And, IsList, Bucketed, Covered, Pow2;
        LinkLast(head, tail, add, items);
        tail := add;
        numItems := numItems + 1;
        items := items + [add];
      }
    }

    method CreateTable(add: Node<D>)
      requires head == null && add.next == null
      modifies this, add`prev
      ensures Listed(add, []) && numBuckets == 32 && Bucket(Key(add)) == [] && chains == NoChains(32)
      ensures fresh(buckets) && fresh(counts)
    {
      add.prev := null;
      var bs, cs, ch := NewBuckets(32, []);
      SingletonList(add);
      SetUp(add, bs, cs, ch);
    }

    /** The fields of a new table. */
    method SetUp(add: Node<D>, bs: array<Node?<D>>, cs: array<nat>, ghost ch: seq<seq<Node<D>>>)
      requires IsList(add, [add], false, true) && Bucketed(bs, cs, ch, []) && ch == NoChains(32)
      modifies this
      ensures Listed(add, []) && numBuckets == 32 && Bucket(Key(add)) == [] && chains == ch
      ensures buckets == bs && counts == cs
    {
      hide And, IsList, Bucketed, BucketCount, NoChains, Covered, Slot;
      BucketCounts(32, INITIAL_LOG);
      CoveredNone(ch);
      head, tail, numBuckets, numItems := add, add, 32, 1;
      buckets, counts, chains, log, items := bs, cs, ch, INITIAL_LOG, [add];
      assert [] + [add] == items;
    }

    lemma CoveredNone(ch: seq<seq<Node<D>>>)
      requires |ch| > 0
      ensures Covered(ch, [])
    {
    }

    method AddToBucket(add: Node<D>)
      requires items != [] && Listed(add, items[..|items| - 1])
      modifies this`chains, buckets, counts, items`bucketNext, items`bucketPrev
      ensures Valid() && Bucket(Key(add)) == [add] + old(Bucket(Key(add)))
      ensures |chains| > 0 && chains == Entered(old(chains), add)
    {
      hide And, IsList, Pow2;
      ghost var before := items[..|items| - 1];
      assert items[|items| - 1] == add && add !in before;
      forall k | 0 <= k < |chains| ensures add !in chains[k] {
        assert forall i :: 0 <= i < |chains[k]| ==> chains[k][i] in before;
      }
      SlotInRange(Key(add), log);
      var b := Slot(Key(add), numBuckets);
      assert buckets[b] != null ==> buckets[b] == chains[b][0] && buckets[b] in items;
      Push(add, b, buckets, counts, chains, items);
      chains := chains[b := [add] + chains[b]];
      forall x | x in items ensures Slot(Key(x), |chains|) < |chains| && x in chains[Slot(Key(x), |chains|)] {
        if x != add { assert x in before; }
      }
    }

    /** The insertion-order list and the bucket chains hold exactly the same elements, each once. */
    lemma SamePopulationInBuckets()
      requires Valid() && items != []
      ensures multiset(Flatten(chains)) == multiset(items)
      ensures |Flatten(chains)| == numItems
    {
      hide And, IsList;
      var f := Flatten(chains);
      FlattenDistinct(chains);
      forall i | 0 <= i < |f| ensures f[i] in items {
        var b :| 0 <= b < |chains| && f[i] in chains[b];
      }
      forall i | 0 <= i < |items| ensures items[i] in f {
        var c := chains[Slot(Key(items[i]), |chains|)];
        assert c[Pos(c, items[i])] == items[i];
      }
      DistinctPermutation(f, items);
      SameLength(f, items);
    }

    lemma {:induction false} MovedPartition(c: seq<Node<D>>, b: nat, n: nat)
      requires n > 0
      requires forall i :: 0 <= i < |c| ==> Slot(Key(c[i]), 2 * n) == b || Slot(Key(c[i]), 2 * n) == b + n
      ensures multiset(Moved(c, b, 2 * n)) + multiset(Moved(c, b + n, 2 * n)) == multiset(c)
    {
      hide And, Slot, Moved;
      MovedStep(c, b, 2 * n);
      MovedStep(c, b + n, 2 * n);
      if c != [] {
        var front, e := c[..|c| - 1], c[|c| - 1];
        MovedPartition(front, b, n);
        assert c == front + [e];
        assert Slot(Key(e), 2 * n) == b || Slot(Key(e), 2 * n) == b + n;
      }
    }

    lemma MovedStep(c: seq<Node<D>>, nb: nat, n: nat)
      requires n > 0
      ensures c == [] ==> Moved(c, nb, n) == []
      ensures c != [] ==>
                var e, front := c[|c| - 1], Moved(c[..|c| - 1], nb, n);
                multiset(Moved(c, nb, n)) ==
                  (if Slot(Key(e), n) == nb then multiset{e} else multiset{}) + multiset(front)
    {
    }

    /** Expansion splits every old chain over two new ones: nothing is lost, nothing is in both. */
    lemma ExpansionSplits(ch: seq<seq<Node<D>>>, ch2: seq<seq<Node<D>>>, e: nat, b: nat)
      requires |ch| == Pow2(e) && b < |ch| && Rehashed(ch, ch2, |ch|, 0)
      requires forall i :: 0 <= i < |ch[b]| ==> Slot(Key(ch[b][i]), |ch|) == b
      ensures multiset(ch2[b]) + multiset(ch2[b + |ch|]) == multiset(ch[b])
    {
      hide And, Moved;
      forall i | 0 <= i < |ch[b]|
        ensures Slot(Key(ch[b][i]), 2 * |ch|) == b || Slot(Key(ch[b][i]), 2 * |ch|) == b + |ch|
      {
        SlotInRange(Key(ch[b][i]), e);
      }
      MovedPartition(ch[b], b, |ch|);
    }

    /** HASH_SORT reorders the list only: the buckets and their chains are not in its frame. */
    method HashSort(cmp: (D, D) -> int)
      requires Valid()
      modifies this`head, this`tail, this`items, items`next, items`prev
      ensures Valid() && items == Sort(LeBy(cmp), old(items))
      ensures TotalPreorderOn(LeBy(cmp), old(items)) ==> StableSort(LeBy(cmp), old(items), items)
      // what that means for cmp: sorted, and ties in their old order
      ensures multiset(items) == multiset(old(items)) && forall i :: 0 <= i < |items| ==> items[i] in old(items)
      ensures PreorderOn(cmp, old(items)) ==>
                forall i, j :: 0 <= i < j < |items| ==> cmp(items[i].data, items[j].data) <= 0
      ensures PreorderOn(cmp, old(items)) ==>
                forall i, j :: 0 <= i < j < |items| && cmp(items[j].data, items[i].data) <= 0 ==>
                  Pos(old(items), items[i]) < Pos(old(items), items[j])
      ensures old(UniqueKeys()) ==> UniqueKeys()
      ensures chains == old(chains) && numBuckets == old(numBuckets)
    {
      hide Valid, UniqueKeys, TotalPreorderOn, PreorderOn, StableSort, Sort, LeBy;
      ghost var s := items;
      ItemsDiffer();
      SortItems(cmp);
      SortedIfPreorder(cmp, s, items);
    }

    lemma ItemsDiffer()
      requires Valid()
      ensures Distinct(items)
    {
    }

    method SortItems(cmp: (D, D) -> int)
      requires Valid()
      modifies this`head, this`tail, this`items, items`next, items`prev
      ensures Valid() && items == Sort(LeBy(cmp), old(items))
      ensures TotalPreorderOn(LeBy(cmp), old(items)) ==> StableSort(LeBy(cmp), old(items), items)
      ensures old(UniqueKeys()) ==> UniqueKeys()
      ensures chains == old(chains) && numBuckets == old(numBuckets)
    {
      hide IsList, Covered, Distinct, Sort, StableSort, TotalPreorderOn, Bucketed;
      ghost var after := Sort(LeBy(cmp), items);
      Resorted(cmp, items, after);
      if head != null {
        SortList(cmp, after);
      } else {
        items := after;
      }
    }

    method SortList(cmp: (D, D) -> int, ghost after: seq<Node<D>>)
      requires Valid() && head != null && after == Sort(LeBy(cmp), items) && Distinct(after) && |after| == |items|
      requires IsList(head, items, false, false)
      requires Bucketed(buckets, counts, chains, after) && Covered(chains, after)
      modifies this`head, this`tail, this`items, items`next, items`prev
      ensures Valid() && items == after
    {
      hide IsList, Covered, Distinct, Sort, StableSort, TotalPreorderOn, Bucketed, BucketCount, And;
      var passes, calls;
      ghost var r;
      head, tail, passes, calls, r := SortPasses(head, false, true, cmp, items);
      items := after;
    }

    /** What the sort of the list means for the rest of the table. */
    lemma Resorted(cmp: (D, D) -> int, s: seq<Node<D>>, t: seq<Node<D>>)
      requires Valid() && s == items && t == Sort(LeBy(cmp), s)
      ensures Distinct(t) && |t| == |s|
      ensures s != [] ==> IsList(head, s, false, false)
      ensures s != [] ==> Bucketed(buckets, counts, chains, t) && Covered(chains, t)
      ensures TotalPreorderOn(LeBy(cmp), s) ==> StableSort(LeBy(cmp), s, t)
      ensures UniqueKeys() ==> forall i, j :: 0 <= i < j < |t| ==> Key(t[i]) != Key(t[j])
    {
      SortPermutes(LeBy(cmp), s);
      hide And, IsList, Bucketed, Covered, Sort;
      PermutationDistinct(s, t);
      SameLength(s, t);
      if UniqueKeys() { KeysPermuted(s, t); }
      if s != [] {
        SingleLinked(head, s);
        Repopulate(s, t);
      }
      if TotalPreorderOn(LeBy(cmp), s) { SortIsStable(LeBy(cmp), s); }
    }

    lemma KeysPermuted(s: seq<Node<D>>, t: seq<Node<D>>)
      requires Distinct(s) && Distinct(t) && multiset(s) == multiset(t)
      requires forall i, j :: 0 <= i < j < |s| ==> Key(s[i]) != Key(s[j])
      ensures forall i, j :: 0 <= i < j < |t| ==> Key(t[i]) != Key(t[j])
    {
      SamePopulation(s, t);
      forall i, j | 0 <= i < j < |t| ensures Key(t[i]) != Key(t[j]) {
        assert Pos(s, t[i]) != Pos(s, t[j]);
      }
    }

    lemma Repopulate(s: seq<Node<D>>, t: seq<Node<D>>)
      requires multiset(s) == multiset(t) && Bucketed(buckets, counts, chains, s) && Covered(chains, s)
      ensures Bucketed(buckets, counts, chains, t) && Covered(chains, t)
    {
      SamePopulation(s, t);
    }

    /** HASH_DELETE. The removed element keeps its own next and prev. */
    method Delete(del: Node<D>)
      requires Valid() && del in items
      modifies this, buckets, counts, items
      ensures Valid() && items == Without(old(items), del)
      ensures numBuckets == old(numBuckets) && buckets == old(buckets) && counts == old(counts)
      ensures del.next == old(del.next)
      ensures items != [] ==> Bucket(Key(del)) == Without(old(Bucket(Key(del))), del)
      ensures items != [] ==> chains == Left(old(chains), del)
    {
      hide And, IsList, Without, Pow2, Bucketed, Covered;
      ghost var rest := Without(items, del);
      WithoutAt(items, del, Pos(items, del));
      Ends(head, items, del);
      if del.prev == null && del.next == null {
        head := null;
        items := rest;
      } else {
        head, tail := Unlink(head, tail, del, items);
        DeleteFromBucket(del, rest);
      }
    }

    /** The bucket half of HASH_DELETE. */
    method DeleteFromBucket(del: Node<D>, ghost rest: seq<Node<D>>)
      requires del in items && Distinct(items) && rest == Without(items, del) && rest != []
      requires numItems == |items| && head != null
      requires numBuckets == |chains| && BucketCount(numBuckets, log)
      requires Bucketed(buckets, counts, chains, items) && Covered(chains, items)
      requires IsList(head, rest, false, true) && tail == rest[|rest| - 1]
      modifies this`numItems, this`items, this`chains, buckets, counts, items`bucketNext, items`bucketPrev
      ensures Valid() && items == rest && Bucket(Key(del)) == Without(old(Bucket(Key(del))), del)
      ensures chains == Left(old(chains), del)
    {
      hide And, IsList, Without, Pow2, Chain;
      SlotInRange(Key(del), log);
      var b := Slot(Key(del), numBuckets);
      Pop(del, b, buckets, counts, chains, items);
      numItems := numItems - 1;
      DeletedFrom(del, b);
      chains := chains[b := Without(chains[b], del)];
      items := rest;
    }

    /** Where the deleted element is not, and all others are. */
    lemma DeletedFrom(del: Node<D>, b: nat)
      requires Distinct(items) && del in items && b < |chains| && b == Slot(Key(del), |chains|)
      requires Covered(chains, items) && Distinct(chains[b])
      requires forall b, i :: 0 <= b < |chains| && 0 <= i < |chains[b]| ==>
                 chains[b][i] in items && Slot(Key(chains[b][i]), |chains|) == b
      ensures var (ch, rest) := (chains[b := Without(chains[b], del)], Without(items, del));
        && |rest| == |items| - 1 && Distinct(rest) && Covered(ch, rest)
        && forall b, i :: 0 <= b < |ch| && 0 <= i < |ch[b]| ==> ch[b][i] in rest && Slot(Key(ch[b][i]), |ch|) == b
    {
      hide And, Without;
      WithoutMembers(items, del);
      WithoutMembers(chains[b], del);
      var ch, rest := chains[b := Without(chains[b], del)], Without(items, del);
      forall k, i | 0 <= k < |ch| && 0 <= i < |ch[k]|
        ensures ch[k][i] in rest && Slot(Key(ch[k][i]), |ch|) == k
      {
        assert ch[k][i] in chains[k];
        var j := Pos(chains[k], ch[k][i]);
        assert chains[k][j] in items && Slot(Key(chains[k][j]), |chains|) == k;
      }
    }
  }

  lemma SingleLinked<D>(head: Node?<D>, s: seq<Node<D>>)
    requires IsList(head, s, false, true)
    ensures IsList(head, s, false, false)
  {
  }

  lemma SingletonList<D>(x: Node<D>)
    requires x.next == null && x.prev == null
    ensures IsList(x, [x], false, true)
  {
  }

  method LinkLast<D>(head: Node<D>, tail: Node<D>, add: Node<D>, ghost s: seq<Node<D>>)
    requires IsList(head, s, false, true) && tail == s[|s| - 1] && add !in s && add.next == null
    modifies tail`next, add`prev
    ensures IsList(head, s + [add], false, true)
  {
    tail.next := add;
    add.prev := tail;
  }

  /** The links of a bucket chain close over the element that leaves it. */
  method UnlinkFromChain<D>(first0: Node?<D>, del: Node<D>, ghost c: seq<Node<D>>) returns (first: Node?<D>)
    requires Chain(first0, c) && del in c
    modifies c`bucketNext, c`bucketPrev
    ensures Chain(first, Without(c, del)) && |Without(c, del)| == |c| - 1
  {
    hide Without;
    WithoutAt(c, del, Pos(c, del));
    first := if first0 == del then del.bucketNext else first0;
    if del.bucketPrev != null { del.bucketPrev.bucketNext := del.bucketNext; }
    if del.bucketNext != null { del.bucketNext.bucketPrev := del.bucketPrev; }
  }

  lemma Ends<D>(head: Node?<D>, s: seq<Node<D>>, x: Node<D>)
    requires IsList(head, s, false, true) && x in s
    ensures x.prev == null && x.next == null <==> |s| == 1
  {
    var i := Pos(s, x);
    assert x == s[i];
  }

  /** The list half of HASH_DELETE, for a list of at least two elements. */
  method Unlink<D>(head0: Node<D>, tail0: Node<D>, del: Node<D>, ghost s: seq<Node<D>>)
    returns (head: Node<D>, tail: Node<D>)
    requires IsList(head0, s, false, true) && tail0 == s[|s| - 1] && del in s && |s| > 1
    modifies s`next, s`prev
    ensures |Without(s, del)| == |s| - 1
    ensures IsList(head, Without(s, del), false, true) && tail == Without(s, del)[|s| - 2]
    ensures del.next == old(del.next)
  {
    hide Without;
    head, tail := head0, tail0;
    ghost var i := Pos(s, del);
    WithoutAt(s, del, i);
    if del == tail { tail := del.prev; }
    if del.prev != null { del.prev.next := del.next; } else { head := del.next; }
    if del.next != null { del.next.prev := del.prev; }
  }
}
