/** Sequences without repetition, seen as lists of nodes: positions, removal, permutations. */
module Lists {

  ghost predicate Distinct<T>(s: seq<T>) {
    forall i, j :: 0 <= i < j < |s| ==> s[i] != s[j]
  }

  /** Where x stands in orig. */
  ghost function Pos<T>(orig: seq<T>, x: T): (i: nat)
    requires x in orig
    ensures i < |orig| && orig[i] == x
  {
    var i :| 0 <= i < |orig| && orig[i] == x;
    i
  }

  /** s with an x taken out, if there is one. */
  ghost function Without<T>(s: seq<T>, x: T): (r: seq<T>) {
    if x in s then s[..Pos(s, x)] + s[Pos(s, x) + 1..] else s
  }

  lemma WithoutAt<T>(s: seq<T>, x: T, i: nat)
    requires Distinct(s) && i < |s| && s[i] == x
    ensures var r := Without(s, x);
      && |r| == |s| - 1 && Distinct(r)
      && (forall t :: 0 <= t < i ==> r[t] == s[t])
      && (forall t :: i <= t < |r| ==> r[t] == s[t + 1])
  {
    assert Pos(s, x) == i;
  }

  lemma WithoutBehind<T>(x: T, s: seq<T>, y: T)
    requires Distinct([x] + s) && x != y && y in s
    ensures Without([x] + s, y) == [x] + Without(s, y)
  {
    var l, i := [x] + s, Pos(s, y);
    assert l[i + 1] == y;
    assert l[..i + 1] == [x] + s[..i] && l[i + 2..] == s[i + 1..];
    Associative([x], s[..i], s[i + 1..]);
  }

  lemma WithoutPopulation<T>(s: seq<T>, x: T)
    requires x in s
    ensures multiset(s) == multiset(Without(s, x)) + multiset{x} && |Without(s, x)| == |s| - 1
  {
    assert s == s[..Pos(s, x)] + [x] + s[Pos(s, x) + 1..];
  }

  lemma WithoutMembers<T>(s: seq<T>, x: T)
    requires Distinct(s) && x in s
    ensures forall y :: y in Without(s, x) <==> y in s && y != x
    ensures forall i :: 0 <= i < |s| && s[i] != x ==> s[i] in Without(s, x)
    ensures forall i :: 0 <= i < |Without(s, x)| ==> Without(s, x)[i] in s && Without(s, x)[i] != x
    ensures |Without(s, x)| == |s| - 1 && Distinct(Without(s, x))
  {
    var i := Pos(s, x);
    WithoutAt(s, x, i);
    forall j | 0 <= j < |s| && j != i ensures s[j] in Without(s, x) {
      assert Without(s, x)[if j < i then j else j - 1] == s[j];
    }
  }

  lemma SliceOfRest<T>(s: seq<T>, b: nat, mid: nat, hi: nat)
    requires b <= mid <= hi <= |s|
    ensures s[b..][..mid - b] == s[b..mid]
    ensures s[b..][mid - b..hi - b] == s[mid..hi]
    ensures s[b..][hi - b..] == s[hi..]
  {
  }

  lemma Associative<T>(a: seq<T>, b: seq<T>, c: seq<T>)
    ensures (a + b) + c == a + (b + c)
  {
  }

  lemma SplitPopulation<T>(s: seq<T>, k: nat)
    requires k <= |s|
    ensures multiset(s) == multiset(s[..k]) + multiset(s[k..])
  {
    assert s == s[..k] + s[k..];
  }

  lemma SameLength<T>(s: seq<T>, t: seq<T>)
    requires multiset(s) == multiset(t)
    ensures |s| == |t|
  {
    assert |s| == |multiset(s)| && |t| == |multiset(t)|;
  }

  lemma SamePopulation<T>(s: seq<T>, t: seq<T>)
    requires multiset(s) == multiset(t)
    ensures forall x :: x in s <==> x in t
    ensures forall i :: 0 <= i < |s| ==> s[i] in t
    ensures forall i :: 0 <= i < |t| ==> t[i] in s
  {
    forall x ensures x in s <==> x in t {
      assert x in s <==> x in multiset(s);
      assert x in t <==> x in multiset(t);
    }
  }

  /** Two lists without repetition that hold the same elements are permutations of each other. */
  lemma {:induction false} DistinctPermutation<T>(s: seq<T>, t: seq<T>)
    requires Distinct(s) && Distinct(t)
    requires forall i :: 0 <= i < |s| ==> s[i] in t
    requires forall i :: 0 <= i < |t| ==> t[i] in s
    ensures multiset(s) == multiset(t)
    decreases |s|
  {
    if s == [] {
      assert t == [];
    } else {
      hide Without;
      var x, rest := s[0], s[1..];
      assert s == [x] + rest;
      WithoutMembers(t, x);
      WithoutPopulation(t, x);
      forall i | 0 <= i < |Without(t, x)| ensures Without(t, x)[i] in rest {
        assert Without(t, x)[i] in t;
      }
      DistinctPermutation(rest, Without(t, x));
    }
  }

  lemma {:induction false} PermutationDistinct<T>(s: seq<T>, t: seq<T>)
    requires Distinct(s) && multiset(s) == multiset(t)
    ensures Distinct(t)
    decreases |s|
  {
    SameLength(s, t);
    if t != [] {
      hide Without;
      var x, rest := t[0], t[1..];
      assert t == [x] + rest;
      assert x in multiset(t);
      WithoutMembers(s, x);
      WithoutPopulation(s, x);
      assert multiset(Without(s, x)) == multiset(s) - multiset{x} == multiset(rest);
      PermutationDistinct(Without(s, x), rest);
      SamePopulation(Without(s, x), rest);
    }
  }

  function Flatten<T>(ss: seq<seq<T>>): seq<T> {
    if ss == [] then [] else ss[0] + Flatten(ss[1..])
  }

  /** Disjoint chains flatten to a list without repetition, holding what they hold. */
  lemma {:induction false} FlattenDistinct<T>(ss: seq<seq<T>>)
    requires forall b :: 0 <= b < |ss| ==> Distinct(ss[b])
    requires forall b, c, i, j :: 0 <= b < c < |ss| && 0 <= i < |ss[b]| && 0 <= j < |ss[c]| ==> ss[b][i] != ss[c][j]
    ensures Distinct(Flatten(ss))
    ensures forall i :: 0 <= i < |Flatten(ss)| ==> exists b :: 0 <= b < |ss| && Flatten(ss)[i] in ss[b]
    ensures forall b, i :: 0 <= b < |ss| && 0 <= i < |ss[b]| ==> ss[b][i] in Flatten(ss)
  {
    if ss != [] {
      var f, rest := Flatten(ss), Flatten(ss[1..]);
      FlattenDistinct(ss[1..]);
      assert forall b :: 0 <= b < |ss[1..]| ==> ss[1..][b] == ss[b + 1];
      forall i | 0 <= i < |f| ensures exists b :: 0 <= b < |ss| && f[i] in ss[b] {
        if i < |ss[0]| { assert f[i] in ss[0]; } else {
          assert f[i] == rest[i - |ss[0]|];
          var b :| 0 <= b < |ss[1..]| && f[i] in ss[1..][b];
          assert f[i] in ss[b + 1];
        }
      }
      forall b, i | 0 <= b < |ss| && 0 <= i < |ss[b]| ensures ss[b][i] in f {
        if b == 0 { assert f[i] == ss[0][i]; } else { assert ss[1..][b - 1][i] in rest; }
      }
    }
  }
}
