/** The value-level account of the bottom-up mergesort shared by utlist and uthash:
    what one pass and the whole sort compute on a sequence, and why that is the
    stable sort of the sequence. */
module MergeSort {
  import opened Arith
  import opened Lists

  /** le, restricted to the elements of s, is total and transitive. */
  ghost predicate TotalPreorderOn<T>(le: (T, T) -> bool, s: seq<T>) {
    && (forall x, y :: x in s && y in s ==> le(x, y) || le(y, x))
    && (forall x, y, z :: x in s && y in s && z in s && le(x, y) && le(y, z) ==> le(x, z))
  }

  /** x must stand before y in a stable sort of orig. */
  ghost predicate Before<T>(le: (T, T) -> bool, orig: seq<T>, x: T, y: T)
    requires x in orig && y in orig
  {
    le(x, y) && (le(y, x) ==> Pos(orig, x) < Pos(orig, y))
  }

  ghost predicate From<T>(s: seq<T>, orig: seq<T>) {
    forall x :: x in s ==> x in orig
  }

  ghost predicate Ordered<T>(le: (T, T) -> bool, orig: seq<T>, s: seq<T>)
    requires From(s, orig)
  {
    forall i, j :: 0 <= i < j < |s| ==> Before(le, orig, s[i], s[j])
  }

  /** s is a permutation of orig, sorted, with ties in their original order. */
  ghost predicate StableSort<T>(le: (T, T) -> bool, orig: seq<T>, s: seq<T>) {
    && multiset(s) == multiset(orig)
    && From(s, orig)
    && Ordered(le, orig, s)
  }

  function Merge<T>(le: (T, T) -> bool, a: seq<T>, b: seq<T>): (m: seq<T>) {
    if a == [] then b
    else if b == [] then a
    else if le(a[0], b[0]) then [a[0]] + Merge(le, a[1..], b)
    else [b[0]] + Merge(le, a, b[1..])
  }

  /** The same merge, of the runs s[i..mid] and s[j..hi] in place. */
  ghost function MergeAt<T>(le: (T, T) -> bool, s: seq<T>, i: nat, mid: nat, j: nat, hi: nat): seq<T>
    requires i <= mid <= j <= hi <= |s|
    decreases mid - i + hi - j
  {
    if i == mid && j == hi then []
    else if i < mid && (j == hi || le(s[i], s[j])) then [s[i]] + MergeAt(le, s, i + 1, mid, j, hi)
    else [s[j]] + MergeAt(le, s, i, mid, j + 1, hi)
  }

  /** Moving the next element of the merge to out leaves out plus the rest of the merge as it was. */
  lemma MergeAtStep<T>(le: (T, T) -> bool, out: seq<T>, s: seq<T>, i: nat, mid: nat, j: nat, hi: nat)
    requires i <= mid <= j <= hi <= |s|
    ensures i < mid && (j == hi || le(s[i], s[j])) ==>
              (out + [s[i]]) + MergeAt(le, s, i + 1, mid, j, hi) == out + MergeAt(le, s, i, mid, j, hi)
    ensures j < hi && (i == mid || !le(s[i], s[j])) ==>
              (out + [s[j]]) + MergeAt(le, s, i, mid, j + 1, hi) == out + MergeAt(le, s, i, mid, j, hi)
    ensures out + MergeAt(le, s, mid, mid, hi, hi) == out
  {
  }

  lemma {:induction false} MergeAtIsMerge<T>(le: (T, T) -> bool, s: seq<T>, i: nat, mid: nat, j: nat, hi: nat)
    requires i <= mid <= j <= hi <= |s|
    ensures MergeAt(le, s, i, mid, j, hi) == Merge(le, s[i..mid], s[j..hi])
    decreases mid - i + hi - j
  {
    var a, b := s[i..mid], s[j..hi];
    if i < mid && (j == hi || le(s[i], s[j])) {
      MergeAtIsMerge(le, s, i + 1, mid, j, hi);
      assert a[0] == s[i] && a[1..] == s[i + 1..mid];
      assert j == hi ==> b == [];
    } else if j < hi {
      MergeAtIsMerge(le, s, i, mid, j + 1, hi);
      assert b[0] == s[j] && b[1..] == s[j + 1..hi];
      assert i == mid ==> a == [];
    }
  }

  /** One pass: neighbouring runs of length k are merged two by two. */
  function Pass<T>(le: (T, T) -> bool, s: seq<T>, k: nat): (r: seq<T>)
    requires k > 0
    decreases |s|
  {
    if |s| <= k then s
    else
      var hi := Min(2 * k, |s|);
      Merge(le, s[..k], s[k..hi]) + Pass(le, s[hi..], k)
  }

  lemma {:induction false} MergePermutes<T>(le: (T, T) -> bool, a: seq<T>, b: seq<T>)
    ensures multiset(Merge(le, a, b)) == multiset(a) + multiset(b)
    decreases |a| + |b|
  {
    if a != [] && b != [] {
      assert a == [a[0]] + a[1..] && b == [b[0]] + b[1..];
      if le(a[0], b[0]) { MergePermutes(le, a[1..], b); } else { MergePermutes(le, a, b[1..]); }
    }
  }

  /** A pass merges the first two runs (the second one may be missing) and goes on behind them. */
  lemma PassUnfold<T>(le: (T, T) -> bool, t: seq<T>, k: nat, mid: nat, hi: nat)
    requires k > 0 && t != [] && mid == Min(k, |t|) && hi == Min(mid + k, |t|)
    ensures Pass(le, t, k) == Merge(le, t[..mid], t[mid..hi]) + Pass(le, t[hi..], k)
  {
    if |t| <= k { assert t[..|t|] == t && Merge(le, t, t[|t|..]) == t; }
  }

  lemma PassStep<T>(le: (T, T) -> bool, out: seq<T>, s: seq<T>, b: nat, k: nat, mid: nat, hi: nat)
    requires k > 0 && b < |s| && mid == Min(b + k, |s|) && hi == Min(mid + k, |s|)
    ensures (out + Merge(le, s[b..mid], s[mid..hi])) + Pass(le, s[hi..], k) == out + Pass(le, s[b..], k)
  {
    hide Pass, Merge;
    PassUnfold(le, s[b..], k, mid - b, hi - b);
    SliceOfRest(s, b, mid, hi);
    Associative(out, Merge(le, s[b..mid], s[mid..hi]), Pass(le, s[hi..], k));
  }

  lemma {:induction false} PassPermutes<T>(le: (T, T) -> bool, s: seq<T>, k: nat)
    requires k > 0
    ensures multiset(Pass(le, s, k)) == multiset(s) && |Pass(le, s, k)| == |s|
    decreases |s|
  {
    if |s| > k {
      var hi := Min(2 * k, |s|);
      var a, b := s[..k], s[k..hi];
      MergePermutes(le, a, b);
      PassPermutes(le, s[hi..], k);
      SplitPopulation(s, hi);
      SplitPopulation(s[..hi], k);
      assert s[..hi][..k] == a && s[..hi][k..] == b;
    }
    SameLength(Pass(le, s, k), s);
  }

  /** Passes from run length k up to the last one, which has at most one merge to do. */
  function SortFrom<T>(le: (T, T) -> bool, s: seq<T>, k: nat): (r: seq<T>)
    requires k > 0
    decreases |s| - k
  {
    if |s| <= 2 * k then Pass(le, s, k)
    else (PassPermutes(le, s, k); SortFrom(le, Pass(le, s, k), 2 * k))
  }

  function Sort<T>(le: (T, T) -> bool, s: seq<T>): (r: seq<T>) {
    if s == [] then [] else SortFrom(le, s, 1)
  }

  /** Everything in a stood before everything in b in the original list. */
  ghost predicate Earlier<T>(orig: seq<T>, a: seq<T>, b: seq<T>)
    requires From(a, orig) && From(b, orig)
  {
    forall x, y :: x in a && y in b ==> Pos(orig, x) < Pos(orig, y)
  }

  /** s is cut into ordered runs of length k (the last may be shorter), each run
      holding elements that stood before those of all later runs. */
  ghost predicate Runs<T>(le: (T, T) -> bool, orig: seq<T>, s: seq<T>, k: nat)
    requires k > 0 && From(s, orig)
    decreases |s|
  {
    if |s| <= k then Ordered(le, orig, s)
    else
      && Ordered(le, orig, s[..k])
      && Earlier(orig, s[..k], s[k..])
      && Runs(le, orig, s[k..], k)
  }

  lemma MergeFrom<T>(le: (T, T) -> bool, a: seq<T>, b: seq<T>)
    ensures forall x :: x in Merge(le, a, b) <==> x in a || x in b
  {
    MergePermutes(le, a, b);
    forall x ensures x in Merge(le, a, b) <==> x in a || x in b {
      assert x in Merge(le, a, b) <==> x in multiset(Merge(le, a, b));
    }
  }

  lemma BeforeTransitive<T>(le: (T, T) -> bool, orig: seq<T>, x: T, y: T, z: T)
    requires TotalPreorderOn(le, orig)
    requires x in orig && y in orig && z in orig
    requires Before(le, orig, x, y) && Before(le, orig, y, z)
    ensures Before(le, orig, x, z)
  {
  }

  lemma OrderedCons<T>(le: (T, T) -> bool, orig: seq<T>, x: T, s: seq<T>)
    requires x in orig && From(s, orig) && Ordered(le, orig, s)
    requires forall y :: y in s ==> Before(le, orig, x, y)
    ensures From([x] + s, orig) && Ordered(le, orig, [x] + s)
  {
  }

  lemma {:induction false} MergeOrdered<T>(le: (T, T) -> bool, orig: seq<T>, a: seq<T>, b: seq<T>)
    requires TotalPreorderOn(le, orig) && From(a, orig) && From(b, orig)
    requires Ordered(le, orig, a) && Ordered(le, orig, b) && Earlier(orig, a, b)
    ensures From(Merge(le, a, b), orig) && Ordered(le, orig, Merge(le, a, b))
    decreases |a| + |b|
  {
    if a != [] && b != [] {
      var first, rest := a[0], Merge(le, a[1..], b);
      if le(a[0], b[0]) {
        MergeFrom(le, a[1..], b);
        MergeOrdered(le, orig, a[1..], b);
        forall y | y in rest ensures Before(le, orig, first, y) {
          if y in b && y != b[0] { assert Before(le, orig, b[0], y); }
        }
      } else {
        first, rest := b[0], Merge(le, a, b[1..]);
        MergeFrom(le, a, b[1..]);
        MergeOrdered(le, orig, a, b[1..]);
        assert Before(le, orig, b[0], a[0]);
        forall y | y in rest ensures Before(le, orig, first, y) {
          if y in a && y != a[0] { BeforeTransitive(le, orig, first, a[0], y); }
        }
      }
      OrderedCons(le, orig, first, rest);
    }
  }

  /** The second run of s (it may be missing) is ordered, and both stood before all of the rest. */
  lemma SecondRun<T>(le: (T, T) -> bool, orig: seq<T>, s: seq<T>, k: nat, hi: nat)
    requires k > 0 && From(s, orig) && Runs(le, orig, s, k) && k < |s| && hi == Min(2 * k, |s|)
    ensures From(s[k..hi], orig) && From(s[..k], orig) && From(s[hi..], orig)
    ensures Ordered(le, orig, s[..k]) && Ordered(le, orig, s[k..hi])
    ensures Earlier(orig, s[..k], s[k..hi]) && Earlier(orig, s[..k], s[hi..]) && Earlier(orig, s[k..hi], s[hi..])
    ensures Runs(le, orig, s[hi..], k)
  {
    hide Ordered;
    var tail := s[k..];
    assert tail[..hi - k] == s[k..hi] && tail[hi - k..] == s[hi..];
    assert hi == |s| ==> s[hi..] == [] && tail == s[k..hi];
    assert Ordered(le, orig, s[k..hi]);
    if hi == |s| { NoRuns<T>(le, orig, k); }
  }

  lemma NoRuns<T>(le: (T, T) -> bool, orig: seq<T>, k: nat)
    requires k > 0
    ensures Runs(le, orig, [], k)
  {
  }

  /** The first two runs of s, merged, are one ordered run that stood before all of the rest. */
  lemma MergedRun<T>(le: (T, T) -> bool, orig: seq<T>, s: seq<T>, k: nat, hi: nat, m: seq<T>)
    requires k > 0 && TotalPreorderOn(le, orig) && From(s, orig) && Runs(le, orig, s, k)
    requires k < |s| && hi == Min(2 * k, |s|) && m == Merge(le, s[..k], s[k..hi])
    ensures |m| == hi && From(m, orig) && Ordered(le, orig, m)
    ensures Earlier(orig, m, s[hi..]) && Runs(le, orig, s[hi..], k)
  {
    hide Merge, Runs, Ordered, Before;
    SecondRun(le, orig, s, k, hi);
    MergeOrdered(le, orig, s[..k], s[k..hi]);
    MergePermutes(le, s[..k], s[k..hi]);
    SplitPopulation(s[..hi], k);
    assert s[..hi][..k] == s[..k] && s[..hi][k..] == s[k..hi];
    SameLength(m, s[..hi]);
    MergeFrom(le, s[..k], s[k..hi]);
  }

  lemma {:induction false} PassDoublesRuns<T>(le: (T, T) -> bool, orig: seq<T>, s: seq<T>, k: nat)
    requires k > 0 && TotalPreorderOn(le, orig) && From(s, orig) && Runs(le, orig, s, k)
    ensures From(Pass(le, s, k), orig) && Runs(le, orig, Pass(le, s, k), 2 * k)
    decreases |s|
  {
    if |s| > k {
      var hi := Min(2 * k, |s|);
      var m, rest := Merge(le, s[..k], s[k..hi]), Pass(le, s[hi..], k);
      MergedRun(le, orig, s, k, hi, m);
      PassDoublesRuns(le, orig, s[hi..], k);
      PassPermutes(le, s[hi..], k);
      SamePopulation(rest, s[hi..]);
      var r := Pass(le, s, k);
      assert r == m + rest && r[..hi] == m && r[hi..] == rest;
      if |r| <= 2 * k { assert r == m; }
    }
  }

  lemma {:induction false} SingletonRuns<T>(le: (T, T) -> bool, orig: seq<T>, i: nat)
    requires i <= |orig| && Distinct(orig)
    ensures From(orig[i..], orig) && Runs(le, orig, orig[i..], 1)
    decreases |orig| - i
  {
    var s := orig[i..];
    if |s| > 1 {
      SingletonRuns(le, orig, i + 1);
      assert s[1..] == orig[i + 1..];
      assert s[..1] == [orig[i]];
    }
  }

  lemma {:induction false} SortFromStable<T>(le: (T, T) -> bool, orig: seq<T>, s: seq<T>, k: nat)
    requires k > 0 && TotalPreorderOn(le, orig)
    requires multiset(s) == multiset(orig) && From(s, orig) && Runs(le, orig, s, k)
    ensures StableSort(le, orig, SortFrom(le, s, k))
    decreases |s| - k
  {
    PassDoublesRuns(le, orig, s, k);
    PassPermutes(le, s, k);
    if |s| > 2 * k { SortFromStable(le, orig, Pass(le, s, k), 2 * k); }
  }

  /** The sort is a stable sort, for every comparator that is a total preorder on the list. */
  lemma SortIsStable<T>(le: (T, T) -> bool, s: seq<T>)
    requires Distinct(s) && TotalPreorderOn(le, s)
    ensures StableSort(le, s, Sort(le, s))
  {
    if s != [] {
      SingletonRuns(le, s, 0);
      assert s[0..] == s;
      SortFromStable(le, s, s, 1);
    }
  }

  lemma {:induction false} SortFromPermutes<T>(le: (T, T) -> bool, s: seq<T>, k: nat)
    requires k > 0
    ensures multiset(SortFrom(le, s, k)) == multiset(s)
    decreases |s| - k
  {
    PassPermutes(le, s, k);
    if |s| > 2 * k { SortFromPermutes(le, Pass(le, s, k), 2 * k); }
  }

  /** Whatever the comparator answers, no element is lost or duplicated. */
  lemma SortPermutes<T>(le: (T, T) -> bool, s: seq<T>)
    ensures multiset(Sort(le, s)) == multiset(s)
  {
    if s != [] { SortFromPermutes(le, s, 1); }
  }

  /** Two ordered lists of the same elements begin alike. */
  lemma SameFirst<T>(le: (T, T) -> bool, orig: seq<T>, s: seq<T>, t: seq<T>)
    requires From(s, orig) && From(t, orig) && Ordered(le, orig, s) && Ordered(le, orig, t)
    requires s != [] && t != [] && s[0] in t && t[0] in s
    ensures s[0] == t[0]
  {
    var i, j := Pos(t, s[0]), Pos(s, t[0]);
    assert i > 0 ==> Before(le, orig, t[0], t[i]);
    assert j > 0 ==> Before(le, orig, s[0], s[j]);
  }

  lemma PopulationOfRest<T>(s: seq<T>)
    requires s != []
    ensures multiset(s[1..]) == multiset(s) - multiset{s[0]}
  {
    assert s == [s[0]] + s[1..];
  }

  lemma SameRest<T>(s: seq<T>, t: seq<T>)
    requires s != [] && t != [] && s[0] == t[0] && multiset(s) == multiset(t)
    ensures multiset(s[1..]) == multiset(t[1..])
  {
    PopulationOfRest(s);
    PopulationOfRest(t);
  }

  lemma OrderedRest<T>(le: (T, T) -> bool, orig: seq<T>, s: seq<T>)
    requires s != [] && From(s, orig) && Ordered(le, orig, s)
    ensures From(s[1..], orig) && Ordered(le, orig, s[1..])
  {
    forall i, j | 0 <= i < j < |s[1..]| ensures Before(le, orig, s[1..][i], s[1..][j]) {
      assert s[1..][i] == s[i + 1] && s[1..][j] == s[j + 1];
    }
  }

  /** A list has only one stable sort, so StableSort says all there is to say. */
  lemma {:induction false} StableSortIsUnique<T>(le: (T, T) -> bool, orig: seq<T>, s: seq<T>, t: seq<T>)
    requires TotalPreorderOn(le, orig) && From(s, orig) && From(t, orig)
    requires multiset(s) == multiset(t) && Ordered(le, orig, s) && Ordered(le, orig, t)
    ensures s == t
    decreases |s|
  {
    hide Ordered, From, TotalPreorderOn;
    SameLength(s, t);
    SamePopulation(s, t);
    if s != [] {
      SameFirst(le, orig, s, t);
      SameRest(s, t);
      OrderedRest(le, orig, s);
      OrderedRest(le, orig, t);
      StableSortIsUnique(le, orig, s[1..], t[1..]);
      assert s == [s[0]] + s[1..] && t == [t[0]] + t[1..];
    }
  }

  /** Number of doublings of k needed to reach n: the pass count for n elements is Doublings(1, n). */
  function Doublings(k: nat, n: nat): (d: nat)
    requires k > 0
    decreases n - k
  {
    if k >= n then 0 else 1 + Doublings(2 * k, n)
  }

  lemma {:induction false} DoublingsBounds(k: nat, n: nat)
    requires k > 0
    ensures n <= k * Pow2(Doublings(k, n))
    ensures Doublings(k, n) > 0 ==> k * Pow2(Doublings(k, n) - 1) < n
    decreases n - k
  {
    if k < n {
      DoublingsBounds(2 * k, n);
      var d := Doublings(2 * k, n);
      MulAssociates(2, k, Pow2(d));
      if d > 0 { MulAssociates(2, k, Pow2(d - 1)); }
    }
  }

  /** Doublings(1, n) is the base-two logarithm of n rounded up. */
  lemma DoublingsIsCeilLog2(n: nat, d: nat)
    requires n > 0
    ensures Doublings(1, n) == d <==> n <= Pow2(d) && (d == 0 || Pow2(d - 1) < n)
  {
    var e := Doublings(1, n);
    DoublingsBounds(1, n);
    if d < e { Pow2Monotone(d, e - 1); }
    if e < d { Pow2Monotone(e, d - 1); }
  }
}
