/** The list macros of utlist.h on heap nodes: LISTSORT in all its variants,
    and the append, prepend and delete macros the sort is used with. */
module UtList {
  import opened Arith
  import opened Lists
  import opened MergeSort

  /** A structure that can be on a list. next and prev are the list links;
      the bucket links belong to uthash and are never touched here. */
  class Node<D> {
    const data: D
    var next: Node?<D>
    var prev: Node?<D>
    var bucketNext: Node?<D>
    var bucketPrev: Node?<D>

    constructor (d: D)
      ensures data == d
    {
      data := d;
      next, prev, bucketNext, bucketPrev := null, null, null, null;
    }
  }

  /** The `cmp(a,b) <= 0` test of the sort. */
  function LeBy<D>(cmp: (D, D) -> int): (Node<D>, Node<D>) -> bool {
    (x: Node<D>, y: Node<D>) => cmp(x.data, y.data) <= 0
  }

  /** `cmp(a,b) <= 0`, restricted to the nodes of s, is total and transitive. */
  ghost predicate PreorderOn<D>(cmp: (D, D) -> int, s: seq<Node<D>>) {
    && (forall x, y :: x in s && y in s ==> cmp(x.data, y.data) <= 0 || cmp(y.data, x.data) <= 0)
    && (forall x, y, z :: x in s && y in s && z in s && cmp(x.data, y.data) <= 0 && cmp(y.data, z.data) <= 0 ==>
          cmp(x.data, z.data) <= 0)
  }

  /** Comparing integers is such a test, upwards and downwards. */
  lemma IntegersCompare(s: seq<Node<int>>)
    ensures PreorderOn((a: int, b: int) => a - b, s) && PreorderOn((a: int, b: int) => b - a, s)
  {
  }

  /** What a sort by LeBy(cmp) is in terms of cmp alone: sorted, and ties in their old order. */
  lemma SortedByCmp<D>(cmp: (D, D) -> int, s: seq<Node<D>>, r: seq<Node<D>>)
    requires Distinct(s) && r == Sort(LeBy(cmp), s)
    requires forall x, y :: x in s && y in s ==> cmp(x.data, y.data) <= 0 || cmp(y.data, x.data) <= 0
    requires forall x, y, z :: x in s && y in s && z in s && cmp(x.data, y.data) <= 0 && cmp(y.data, z.data) <= 0 ==>
               cmp(x.data, z.data) <= 0
    ensures multiset(r) == multiset(s) && forall i :: 0 <= i < |r| ==> r[i] in s
    ensures forall i, j :: 0 <= i < j < |r| ==> cmp(r[i].data, r[j].data) <= 0
    ensures forall i, j :: 0 <= i < j < |r| && cmp(r[j].data, r[i].data) <= 0 ==> Pos(s, r[i]) < Pos(s, r[j])
  {
    hide Sort;
    SortIsStable(LeBy(cmp), s);
  }

  lemma SortedIfPreorder<D>(cmp: (D, D) -> int, s: seq<Node<D>>, r: seq<Node<D>>)
    requires Distinct(s) && r == Sort(LeBy(cmp), s)
    ensures multiset(r) == multiset(s) && forall i :: 0 <= i < |r| ==> r[i] in s
    ensures PreorderOn(cmp, s) ==> forall i, j :: 0 <= i < j < |r| ==> cmp(r[i].data, r[j].data) <= 0
    ensures PreorderOn(cmp, s) ==>
              forall i, j :: 0 <= i < j < |r| && cmp(r[j].data, r[i].data) <= 0 ==> Pos(s, r[i]) < Pos(s, r[j])
  {
    hide Sort, LeBy;
    SortPermutes(LeBy(cmp), s);
    SamePopulation(s, r);
    if PreorderOn(cmp, s) { SortedByCmp(cmp, s, r); }
  }

  /** The t-th node, or null past the end. */
  function At<D>(s: seq<Node<D>>, t: nat): Node?<D> {
    if t < |s| then s[t] else null
  }

  /** The value the next field of s[t] must have. */
  function Succ<D>(s: seq<Node<D>>, t: nat, circular: bool): Node?<D>
    requires t < |s|
  {
    if t + 1 < |s| then s[t + 1] else if circular then s[0] else null
  }

  /** The value the prev field of s[t] must have. */
  function Pred<D>(s: seq<Node<D>>, t: nat, circular: bool): Node?<D>
    requires t < |s|
  {
    if t > 0 then s[t - 1] else if circular then s[|s| - 1] else null
  }

  ghost predicate NextFrom<D>(s: seq<Node<D>>, from: nat, circular: bool)
    reads s`next
  {
    forall t {:trigger s[t].next} :: from <= t < |s| ==> s[t].next == Succ(s, t, circular)
  }

  ghost predicate PrevFrom<D>(s: seq<Node<D>>, circular: bool)
    reads s`prev
  {
    forall t {:trigger s[t].prev} :: 0 <= t < |s| ==> s[t].prev == Pred(s, t, circular)
  }

  /** head is a complete list of exactly the nodes s, in that order: singly
      linked, or also linked backwards, ending in null or closed into a ring. */
  ghost predicate IsList<D>(head: Node?<D>, s: seq<Node<D>>, circular: bool, double: bool)
    reads s`next, s`prev
  {
    && Distinct(s)
    && head == At(s, 0)
    && NextFrom(s, 0, circular)
    && (double ==> PrevFrom(s, circular))
  }

  /** The nodes emitted so far by a pass, linked up to the last one (whose next
      field is still to be written). */
  ghost predicate Emitted<D>(out: seq<Node<D>>, list: Node?<D>, tail: Node?<D>, double: bool)
    reads out`next, out`prev
  {
    && Distinct(out)
    && list == At(out, 0)
    && tail == (if out == [] then null else out[|out| - 1])
    && (forall t {:trigger out[t].next} :: 0 <= t < |out| - 1 ==> out[t].next == out[t + 1])
    && (double ==> PrevFrom(out, false))
  }

  /** The nodes of s at lo..mid and from hi on have not been emitted yet: they keep their old links. */
  ghost predicate Remaining<D>(s: seq<Node<D>>, out: seq<Node<D>>, lo: nat, mid: nat, hi: nat, circular: bool)
    reads s`next
  {
    && (forall x :: x in out ==> x in s)
    && (forall t :: lo <= t < mid <= |s| || hi <= t < |s| ==> s[t] !in out)
    && (forall t {:trigger s[t].next} :: lo <= t < mid <= |s| || hi <= t < |s| ==> s[t].next == Succ(s, t, circular))
  }

  lemma RemainingShift<D>(s: seq<Node<D>>, out: seq<Node<D>>, from: nat, mid: nat, hi: nat, circular: bool)
    requires from <= mid <= hi <= |s|
    ensures Remaining(s, out, from, from, from, circular) ==> Remaining(s, out, from, mid, mid, circular)
    ensures Remaining(s, out, mid, mid, hi, circular) ==> Remaining(s, out, hi, hi, hi, circular)
    ensures Remaining(s, out, from, from, from, circular) ==> From(out, s)
  {
  }

  /** The end of the innermost loop body: e joins the output list. */
  method Emit<D>(e: Node<D>, list0: Node?<D>, tail: Node?<D>, double: bool, ghost out: seq<Node<D>>)
    returns (list: Node?<D>)
    requires Emitted(out, list0, tail, double) && e !in out
    modifies e`prev, (if tail == null then {} else {tail})`next
    ensures Emitted(out + [e], list, e, double)
    ensures !double ==> e.prev == old(e.prev)
  {
    list := list0;
    if tail != null { tail.next := e; } else { list := e; }
    if double { e.prev := tail; }
  }

  /** One round of the innermost loop once it is decided which run gives its node x == s[t]:
      step past x in the old list (whose end is null, or its old head if it is a ring) and emit x. */
  method Take<D>(x: Node<D>, circular: bool, double: bool, oldHead: Node<D>, list0: Node?<D>, tail: Node?<D>,
                 ghost s: seq<Node<D>>, ghost out: seq<Node<D>>, ghost lo: nat, ghost mid: nat, ghost hi: nat,
                 fromP: bool)
    returns (y: Node?<D>, list: Node?<D>)
    requires Distinct(s) && lo <= mid <= hi <= |s| && s != [] && s[0] == oldHead
    requires Remaining(s, out, lo, mid, hi, circular) && Emitted(out, list0, tail, double)
    requires if fromP then lo < mid && x == s[lo] else hi < |s| && x == s[hi]
    modifies s`next, s`prev
    ensures fromP ==> y == At(s, lo + 1)
    ensures !fromP ==> y == At(s, hi + 1)
    ensures Emitted(out + [x], list, x, double)
    ensures Remaining(s, out + [x], if fromP then lo + 1 else lo, mid, if fromP then hi else hi + 1, circular)
    ensures !double ==> forall z :: z in s ==> z.prev == old(z.prev)
  {
    y := x.next;
    if circular && y == oldHead { y := null; }
    assert tail != null ==> tail in out;
    list := Emit(x, list0, tail, double, out);
  }

  /** The innermost loop: merge the run at p with the run at q onto the output list. */
  method MergeRuns<D>(cmp: (D, D) -> int, circular: bool, double: bool,
                      oldHead: Node<D>, list0: Node?<D>, tail0: Node?<D>,
                      p0: Node<D>, psize0: nat, q0: Node?<D>, insize: nat,
                      ghost s: seq<Node<D>>, ghost b: nat, ghost out0: seq<Node<D>>)
    returns (list: Node?<D>, tail: Node?<D>, q: Node?<D>, calls: nat, ghost out: seq<Node<D>>)
    requires Distinct(s) && insize > 0 && b < |s| && s[0] == oldHead
    requires psize0 == Min(insize, |s| - b)
    requires p0 == s[b] && q0 == At(s, b + psize0)
    requires |out0| == b && Remaining(s, out0, b, b, b, circular) && Emitted(out0, list0, tail0, double)
    modifies s`next, s`prev
    ensures !double ==> forall x :: x in s ==> x.prev == old(x.prev)
    ensures var mid := b + psize0; var hi := Min(mid + insize, |s|);
      && out == out0 + Merge(LeBy(cmp), s[b..mid], s[mid..hi])
      && |out| == hi && Remaining(s, out, hi, hi, hi, circular)
      && q == At(s, hi)
      && calls < hi - b
    ensures Emitted(out, list, tail, double)
  {
    hide Emitted, Distinct, MergeAt, Merge, Remaining;
    list, tail, q, calls, out := list0, tail0, q0, 0, out0;
    var p: Node?<D> := p0;
    var psize, qsize := psize0, insize;
    ghost var mid := b + psize0;
    ghost var hi := Min(mid + insize, |s|);
    ghost var le := LeBy(cmp);
    ghost var pi, qi := b, mid;
    ghost var goal := out0 + MergeAt(le, s, b, mid, mid, hi);
    RemainingShift(s, out, b, mid, hi, circular);
    while psize > 0 || (qsize > 0 && q != null)
      invariant b <= pi <= mid <= qi <= hi
      invariant psize == mid - pi && (psize > 0 ==> p == s[pi])
      invariant qsize == insize - (qi - mid) && q == (if qi < |s| then s[qi] else null)
      invariant |out| == pi + (qi - mid)
      invariant Remaining(s, out, pi, mid, qi, circular)
      invariant Emitted(out, list, tail, double)
      invariant out + MergeAt(le, s, pi, mid, qi, hi) == goal
      invariant calls <= |out| - b && (pi == mid && qi == hi ==> calls < |out| - b)
      invariant !double ==> forall x :: x in s ==> x.prev == old(x.prev)
      decreases psize + qsize
    {
      MergeAtStep(le, out, s, pi, mid, qi, hi);
      var takeP;
      if psize == 0 {
        takeP := false;
      } else if qsize == 0 || q == null {
        takeP := true;
      } else {
        takeP := cmp(p.data, q.data) <= 0;
        calls := calls + 1;
      }
      var e := if takeP then p else q;
      var y;
      y, list := Take(e, circular, double, oldHead, list, tail, s, out, pi, mid, qi, takeP);
      if takeP {
        p, psize, pi := y, psize - 1, pi + 1;
      } else {
        q, qsize, qi := y, qsize - 1, qi + 1;
      }
      tail := e;
      out := out + [e];
    }
    RemainingShift(s, out, b, mid, hi, circular);
    MergeAtStep(le, out, s, b, mid, mid, hi);
    MergeAtIsMerge(le, s, b, mid, mid, hi);
  }

  /** The body of a pass: find the second run, then merge the first two of the remaining runs. */
  method MergeNext<D>(cmp: (D, D) -> int, circular: bool, double: bool, oldHead: Node<D>, insize: nat,
                      p: Node<D>, list0: Node?<D>, tail0: Node?<D>,
                      ghost s: seq<Node<D>>, ghost b: nat, ghost out0: seq<Node<D>>)
    returns (list: Node?<D>, tail: Node?<D>, q: Node?<D>, calls: nat, ghost out: seq<Node<D>>)
    requires Distinct(s) && insize > 0 && b < |s| && s[0] == oldHead && p == s[b]
    requires |out0| == b && Remaining(s, out0, b, b, b, circular) && Emitted(out0, list0, tail0, double)
    modifies s`next, s`prev
    ensures |out| == Min(b + 2 * insize, |s|) && q == At(s, |out|) && calls < |out| - b
    ensures Remaining(s, out, |out|, |out|, |out|, circular) && Emitted(out, list, tail, double)
    ensures out + Pass(LeBy(cmp), s[|out|..], insize) == out0 + Pass(LeBy(cmp), s[b..], insize)
    ensures !double ==> forall x :: x in s ==> x.prev == old(x.prev)
  {
    hide Merge, Pass, Emitted, Remaining, Distinct;
    var psize;
    q, psize := SkipRun(p, circular, oldHead, insize, s, out0, b);
    PassStep(LeBy(cmp), out0, s, b, insize, b + psize, Min(b + psize + insize, |s|));
    list, tail, q, calls, out :=
      MergeRuns(cmp, circular, double, oldHead, list0, tail0, p, psize, q, insize, s, b, out0);
  }

  /** The loop of a pass: run after run is merged into the output. */
  method MergeAll<D>(cmp: (D, D) -> int, circular: bool, double: bool, oldHead: Node<D>, insize: nat,
                     ghost s: seq<Node<D>>)
    returns (list: Node?<D>, tail: Node?<D>, nmerges: nat, calls: nat, ghost out: seq<Node<D>>)
    requires insize > 0 && s != [] && IsList(oldHead, s, circular, false)
    modifies s`next, s`prev
    ensures out == Pass(LeBy(cmp), s, insize) && |out| == |s|
    ensures Emitted(out, list, tail, double) && From(out, s)
    ensures nmerges <= 1 <==> |s| <= 2 * insize
    ensures calls < |s|
    ensures !double ==> forall x :: x in s ==> x.prev == old(x.prev)
  {
    hide Pass, Emitted, Remaining, IsList, Distinct, From, LeBy;
    var p: Node?<D> := oldHead;
    list, tail := null, null;
    nmerges, calls, out := 0, 0, [];
    ghost var le := LeBy(cmp);
    StartPass(oldHead, s, circular, double);
    assert s[0..] == s;
    while p != null
      invariant |out| <= |s| && p == At(s, |out|)
      invariant nmerges == 0 ==> out == []
      invariant nmerges == 1 ==> |out| == Min(2 * insize, |s|)
      invariant nmerges > 1 ==> 2 * insize < |out|
      invariant calls <= |out| && (nmerges > 0 ==> calls < |out|)
      invariant Remaining(s, out, |out|, |out|, |out|, circular) && Emitted(out, list, tail, double)
      invariant out + Pass(le, s[|out|..], insize) == Pass(le, s, insize)
      invariant !double ==> forall x :: x in s ==> x.prev == old(x.prev)
      decreases |s| - |out|
    {
      nmerges := nmerges + 1;
      var c;
      list, tail, p, c, out :=
        MergeNext(cmp, circular, double, oldHead, insize, p, list, tail, s, |out|, out);
      calls := calls + c;
    }
    PassOfNothing(le, out, s, insize);
    RemainingShift(s, out, |out|, |out|, |out|, circular);
  }

  /** One pass over the whole list with runs of length insize. */
  method SortPass<D>(cmp: (D, D) -> int, circular: bool, double: bool, oldHead: Node<D>, insize: nat,
                     ghost s: seq<Node<D>>)
    returns (list: Node<D>, tail: Node<D>, nmerges: nat, calls: nat, ghost out: seq<Node<D>>)
    requires insize > 0 && s != [] && IsList(oldHead, s, circular, false)
    modifies s`next, s`prev
    ensures out == Pass(LeBy(cmp), s, insize)
    ensures IsList(list, out, circular, double) && tail == out[|out| - 1]
    ensures nmerges <= 1 <==> |s| <= 2 * insize
    ensures calls < |s|
    ensures !double ==> forall x :: x in s ==> x.prev == old(x.prev)
  {
    hide Pass, Emitted, IsList, From, LeBy;
    var list', tail';
    list', tail', nmerges, calls, out := MergeAll(cmp, circular, double, oldHead, insize, s);
    list, tail := Close(list', tail', circular, double, s, out);
  }

  /** A pass over what earlier passes have made of the list s. */
  method NextPass<D>(cmp: (D, D) -> int, circular: bool, double: bool, head: Node<D>, insize: nat,
                     ghost cur: seq<Node<D>>, ghost s: seq<Node<D>>)
    returns (list: Node<D>, tail: Node<D>, nmerges: nat, calls: nat, ghost out: seq<Node<D>>)
    requires insize > 0 && cur != [] && multiset(cur) == multiset(s) && IsList(head, cur, circular, false)
    modifies s`next, s`prev
    ensures out == Pass(LeBy(cmp), cur, insize) && |out| == |cur| && multiset(out) == multiset(s)
    ensures IsList(list, out, circular, double) && tail == out[|out| - 1]
    ensures (nmerges <= 1 <==> |cur| <= 2 * insize) && calls < |cur|
    ensures !double ==> forall x :: x in s ==> x.prev == old(x.prev)
  {
    hide Pass, IsList;
    SamePopulation(cur, s);
    PassPermutes(LeBy(cmp), cur, insize);
    list, tail, nmerges, calls, out := SortPass(cmp, circular, double, head, insize, cur);
  }

  lemma ListFacts<D>(head: Node?<D>, s: seq<Node<D>>, circular: bool, double: bool)
    requires IsList(head, s, circular, double)
    ensures Distinct(s) && head == At(s, 0) && IsList(head, s, circular, false)
    ensures s == [] ==> IsList(head, s, circular, true)
  {
  }

  /** The links of a list, one by one. */
  lemma LinksOf<D>(head: Node?<D>, s: seq<Node<D>>, circular: bool, double: bool)
    requires IsList(head, s, circular, double)
    ensures forall i, j :: 0 <= i < j < |s| ==> s[i] != s[j]
    ensures if s == [] then head == null else head == s[0]
    ensures forall t {:trigger s[t].next} :: 0 <= t < |s| - 1 ==> s[t].next == s[t + 1]
    ensures s != [] ==> s[|s| - 1].next == if circular then s[0] else null
    ensures double ==> forall t {:trigger s[t].prev} :: 0 < t < |s| ==> s[t].prev == s[t - 1]
    ensures double && s != [] ==> s[0].prev == if circular then s[|s| - 1] else null
  {
  }

  lemma PassOfNothing<T>(le: (T, T) -> bool, out: seq<T>, s: seq<T>, k: nat)
    requires k > 0
    ensures out + Pass(le, s[|s|..], k) == out
  {
  }

  lemma StartPass<D>(head: Node<D>, s: seq<Node<D>>, circular: bool, double: bool)
    requires s != [] && IsList(head, s, circular, false)
    ensures Distinct(s) && s[0] == head
    ensures Remaining(s, [], 0, 0, 0, circular) && Emitted<D>([], null, null, double)
  {
  }

  /** Find the start of the second run by counting off at most insize nodes. */
  method SkipRun<D>(p: Node<D>, circular: bool, oldHead: Node<D>, insize: nat,
                    ghost s: seq<Node<D>>, ghost out: seq<Node<D>>, ghost b: nat)
    returns (q: Node?<D>, psize: nat)
    requires Distinct(s) && insize > 0 && b < |s| && s[0] == oldHead && p == s[b]
    requires Remaining(s, out, b, b, b, circular)
    ensures psize == Min(insize, |s| - b) && q == At(s, b + psize)
  {
    q, psize := p, 0;
    for i := 0 to insize
      invariant psize == i && b + i < |s| && q == s[b + i]
    {
      psize := psize + 1;
      q := if circular then (if q.next == oldHead then null else q.next) else q.next;
      if q == null { break; }
    }
  }

  /** The end of a pass: the last node is tied back to the first, or ends the list. */
  method Close<D>(list: Node?<D>, tail0: Node?<D>, circular: bool, double: bool,
                  ghost s: seq<Node<D>>, ghost out: seq<Node<D>>)
    returns (head: Node<D>, tail: Node<D>)
    requires out != [] && Emitted(out, list, tail0, double) && From(out, s)
    modifies s`next, s`prev
    ensures IsList(head, out, circular, double) && tail == out[|out| - 1]
    ensures !double ==> forall x :: x in s ==> x.prev == old(x.prev)
  {
    assert tail0 in out && list in out;
    head, tail := list, tail0;
    if circular {
      tail.next := head;
      if double { head.prev := tail; }
    } else {
      tail.next := null;
    }
  }

  /** LISTSORT: LL_SORT is (false, false), DL_SORT (false, true), CDL_SORT (true, true).
      Also counts the passes made and the calls of cmp. */
  method ListSort<D>(list: Node?<D>, circular: bool, double: bool, cmp: (D, D) -> int, ghost s: seq<Node<D>>)
    returns (head: Node?<D>, tail: Node?<D>, passes: nat, calls: nat, ghost r: seq<Node<D>>)
    requires IsList(list, s, circular, false)
    modifies s`next, s`prev
    ensures r == Sort(LeBy(cmp), s) && |r| == |s| && IsList(head, r, circular, double)
    ensures TotalPreorderOn(LeBy(cmp), s) ==> StableSort(LeBy(cmp), s, r)
    // what that means for cmp: sorted, and ties in their old order
    ensures multiset(r) == multiset(s) && forall i :: 0 <= i < |r| ==> r[i] in s
    ensures PreorderOn(cmp, s) ==> forall i, j :: 0 <= i < j < |r| ==> cmp(r[i].data, r[j].data) <= 0
    ensures PreorderOn(cmp, s) ==>
              forall i, j :: 0 <= i < j < |r| && cmp(r[j].data, r[i].data) <= 0 ==> Pos(s, r[i]) < Pos(s, r[j])
    ensures s != [] ==> head == r[0] && tail == r[|s| - 1]
    ensures |s| > 1 ==> passes == Doublings(1, |s|)
    ensures |s| <= 1 ==> passes == |s| && calls == 0
    ensures s != [] ==> calls <= (|s| - 1) * passes
    ensures !double ==> forall x :: x in s ==> x.prev == old(x.prev)
  {
    hide IsList, TotalPreorderOn, PreorderOn, StableSort, Sort, LeBy, Doublings;
    ListFacts(list, s, circular, false);
    head, tail, passes, calls, r := SortPasses(list, circular, double, cmp, s);
    SortedIfPreorder(cmp, s, r);
  }

  /** The outer loop: passes with runs of doubling length. */
  method SortPasses<D>(list: Node?<D>, circular: bool, double: bool, cmp: (D, D) -> int, ghost s: seq<Node<D>>)
    returns (head: Node?<D>, tail: Node?<D>, passes: nat, calls: nat, ghost r: seq<Node<D>>)
    requires IsList(list, s, circular, false)
    modifies s`next, s`prev
    ensures r == Sort(LeBy(cmp), s) && |r| == |s| && IsList(head, r, circular, double)
    ensures TotalPreorderOn(LeBy(cmp), s) ==> StableSort(LeBy(cmp), s, r)
    ensures s != [] ==> head == r[0] && tail == r[|s| - 1]
    ensures |s| > 1 ==> passes == Doublings(1, |s|)
    ensures |s| <= 1 ==> passes == |s| && calls == 0
    ensures s != [] ==> calls <= (|s| - 1) * passes
    ensures !double ==> forall x :: x in s ==> x.prev == old(x.prev)
  {
    hide Pass, IsList, TotalPreorderOn, StableSort, LeBy;
    ListFacts(list, s, circular, false);
    head, tail, passes, calls := list, null, 0, 0;
    if head != null {
      var insize := 1;
      var looping := true;
      ghost var cur := s;
      ghost var le := LeBy(cmp);
      ghost var n := |s|;
      while looping
        invariant |cur| == n && multiset(cur) == multiset(s)
        invariant insize > 0
        invariant IsList(head, cur, circular, double && passes > 0)
        invariant looping ==> SortFrom(le, cur, insize) == Sort(le, s)
        invariant !looping ==> cur == Sort(le, s) && passes > 0 && head == cur[0] && tail == cur[n - 1]
        invariant looping && n > 1 ==> insize < n && passes + Doublings(insize, n) == Doublings(1, n)
        invariant looping && n == 1 ==> passes == 0 && insize == 1
        invariant !looping && n > 1 ==> passes == Doublings(1, n)
        invariant !looping && n == 1 ==> passes == 1
        invariant calls <= (n - 1) * passes
        invariant !double ==> forall x :: x in s ==> x.prev == old(x.prev)
        decreases looping, n - insize
      {
        ListFacts(head, cur, circular, double && passes > 0);
        var nmerges, c;
        head, tail, nmerges, c, cur := NextPass(cmp, circular, double, head, insize, cur, s);
        ListFacts(head, cur, circular, double);
        Distribute(n - 1, passes);
        passes, calls := passes + 1, calls + c;
        if nmerges <= 1 { looping := false; }
        insize := insize * 2;
      }
    }
    r := Sort(LeBy(cmp), s);
    if TotalPreorderOn(LeBy(cmp), s) { SortIsStable(LeBy(cmp), s); }
  }

  method LlAppend<D>(head0: Node?<D>, add: Node<D>, ghost s: seq<Node<D>>) returns (head: Node?<D>)
    requires IsList(head0, s, false, false) && add !in s
    modifies s`next, add`next
    ensures IsList(head, s + [add], false, false)
  {
    head := head0;
    add.next := null;
    if head != null {
      var tmp := head;
      ghost var i := 0;
      while tmp.next != null
        invariant i < |s| && tmp == s[i]
        decreases |s| - i
      {
        tmp := tmp.next;
        i := i + 1;
      }
      tmp.next := add;
    } else {
      head := add;
    }
  }

  method LlDelete<D>(head0: Node<D>, del: Node<D>, ghost s: seq<Node<D>>) returns (head: Node?<D>)
    requires IsList(head0, s, false, false)
    modifies s`next
    ensures IsList(head, Without(s, del), false, false)
  {
    head := head0;
    if head == del {
      WithoutAt(s, del, 0);
      head := head.next;
    } else {
      var tmp := head;
      ghost var i := 0;
      while tmp.next != null && tmp.next != del
        invariant i < |s| && tmp == s[i]
        invariant del !in s[..i + 1]
        decreases |s| - i
      {
        tmp := tmp.next;
        i := i + 1;
      }
      if tmp.next != null {
        hide Without;
        WithoutAt(s, del, i + 1);
        tmp.next := del.next;
      } else {
        assert s[..i + 1] == s;
      }
    }
  }

  method CdlPrepend<D>(head0: Node?<D>, add: Node<D>, ghost s: seq<Node<D>>) returns (head: Node?<D>)
    requires IsList(head0, s, true, true) && add !in s
    modifies s`next, s`prev, add`next, add`prev
    ensures IsList(head, [add] + s, true, true)
  {
    head := head0;
    if head != null {
      add.prev := head.prev;
      add.next := head;
      head.prev := add;
      add.prev.next := add;
    } else {
      add.prev := add;
      add.next := add;
    }
    head := add;
  }

  method CdlDelete<D>(head0: Node<D>, del: Node<D>, ghost s: seq<Node<D>>) returns (head: Node?<D>)
    requires IsList(head0, s, true, true) && del in s
    modifies s`next, s`prev
    ensures IsList(head, Without(s, del), true, true)
  {
    hide Without;
    head := head0;
    ghost var i := Pos(s, del);
    WithoutAt(s, del, i);
    if head == del && head.next == head {
      head := null;
    } else {
      del.next.prev := del.prev;
      del.prev.next := del.next;
      if del == head { head := del.next; }
    }
  }
}
