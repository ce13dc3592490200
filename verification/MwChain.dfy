/** memwatch.c: the chain of allocated blocks, the test of its integrity, the fast
    ownership test and the repair of a damaged block. */
module MwChain {
  import opened Bits
  import opened Lists
  import opened Machine

  /** The header in front of every allocation, and the memory behind it: guard zone, user data, guard zone. */
  class Block {
    var prev: Block?
    var next: Block?
    var count: nat
    var size: nat
    var line: nat
    var check: nat
    var nml: bool // flag & MW_NML
    const mem: array<Byte>

    constructor (mem: array<Byte>, count: nat, size: nat, line: nat, next: Block?)
      ensures this.mem == mem && this.count == count && this.size == size && this.line == line
      ensures this.prev == null && this.next == next && !this.nml && this.check == CheckValue(count, size, line)
    {
      this.mem, this.count, this.size, this.line, this.nml := mem, count, size, line, false;
      this.prev, this.next, this.check := null, next, CheckValue(count, size, line);
    }

    function Chkval(): nat
      reads this
    {
      CheckValue(count, size, line)
    }
  }

  function CheckValue(count: nat, size: nat, line: nat): nat {
    Xor(Xor(Xor(0xFE0180, count), size), line)
  }

  /** The check value of a header of zeros, and of each field alone. */
  lemma CheckValueIs(v: nat)
    ensures CheckValue(0, 0, 0) == 0xFE0180
    ensures CheckValue(v, 0, 0) == CheckValue(0, v, 0) == CheckValue(0, 0, v) == Xor(0xFE0180, v)
  {
    hide Xor;
    XorZero(0xFE0180);
    XorZero(Xor(0xFE0180, v));
  }

  /** The check value notices every change of a single one of the three fields. */
  lemma CheckValueDetects(count: nat, size: nat, line: nat, v: nat)
    ensures v != count ==> CheckValue(v, size, line) != CheckValue(count, size, line)
    ensures v != size ==> CheckValue(count, v, line) != CheckValue(count, size, line)
    ensures v != line ==> CheckValue(count, size, v) != CheckValue(count, size, line)
  {
    hide Xor;
    var a := Xor(0xFE0180, count);
    XorInjective(0xFE0180, count, v);
    XorInjective(a, size, v);
    XorInjective(Xor(a, size), line, v);
    XorInjectiveLeft(Xor(a, size), Xor(a, v), line);
    XorInjectiveLeft(a, Xor(0xFE0180, v), size);
    XorInjectiveLeft(Xor(a, size), Xor(Xor(0xFE0180, v), size), line);
  }

  /** s is a chain from head to tail with every block except x linked as it should be:
      x stands for a block whose own links may have been overwritten. */
  ghost predicate ChainExcept(head: Block?, tail: Block?, s: seq<Block>, safe: set<Block>, x: Block?)
    reads s`prev, s`next
  {
    && Distinct(s)
    && (forall i :: 0 <= i < |s| ==> s[i] in safe)
    && head == (if s == [] then null else s[0])
    && tail == (if s == [] then null else s[|s| - 1])
    && (forall i {:trigger s[i].prev} :: 0 <= i < |s| && s[i] != x ==> s[i].prev == Before(s, i))
    && (forall i {:trigger s[i].next} :: 0 <= i < |s| && s[i] != x ==> s[i].next == After(s, i))
  }

  function Before(s: seq<Block>, i: nat): Block?
    requires i < |s|
  {
    if i == 0 then null else s[i - 1]
  }

  function After(s: seq<Block>, i: nat): Block?
    requires i < |s|
  {
    if i + 1 == |s| then null else s[i + 1]
  }

  ghost predicate Chain(head: Block?, tail: Block?, s: seq<Block>, safe: set<Block>)
    reads s`prev, s`next
  {
    ChainExcept(head, tail, s, safe, null)
  }

  /** A chain spelled out: the links of its blocks, both ways, and its two ends. */
  lemma ChainLinks(head: Block?, tail: Block?, s: seq<Block>, safe: set<Block>)
    ensures Chain(head, tail, s, safe) <==>
              && (forall i, j :: 0 <= i < j < |s| ==> s[i] != s[j]) && (forall i :: 0 <= i < |s| ==> s[i] in safe)
              && (s == [] ==> head == tail == null)
              && (s != [] ==> head == s[0] && s[0].prev == null && tail == s[|s| - 1] && s[|s| - 1].next == null)
              && (forall i {:trigger s[i].next} :: 0 <= i < |s| - 1 ==> s[i].next == s[i + 1])
              && (forall i {:trigger s[i].prev} :: 1 <= i < |s| ==> s[i].prev == s[i - 1])
  {
  }

  ghost predicate ChainHolding(head: Block?, tail: Block?, s: seq<Block>, safe: set<Block>, x: Block?)
    reads s`prev, s`next
  {
    Chain(head, tail, s, safe) && (x != null ==> x in s)
  }

  /** The part of a chain that a walk from head has found in order. */
  ghost predicate Walked(head: Block?, v: seq<Block>, mw: Block?, safe: set<Block>)
    reads v`prev, v`next
  {
    && Distinct(v)
    && (forall i :: 0 <= i < |v| ==> v[i] in safe)
    && (v == [] ==> mw == head)
    && (v != [] ==> head == v[0] && v[0].prev == null && v[|v| - 1].next == mw)
    && (forall i {:trigger v[i].next} :: 0 <= i < |v| - 1 ==> v[i].next == v[i + 1])
    && (forall i {:trigger v[i].prev} :: 1 <= i < |v| ==> v[i].prev == v[i - 1])
  }

  /** Every chain from head begins with what the walk has seen. */
  lemma WalkIsPrefix(head: Block?, tail: Block?, v: seq<Block>, mw: Block?, safe: set<Block>, s: seq<Block>)
    requires Walked(head, v, mw, safe) && Chain(head, tail, s, safe) && head != null
    ensures |v| <= |s| && v == s[..|v|]
    ensures mw == (if |v| < |s| then s[|v|] else null)
  {
    if v != [] {
      var i := 0;
      while i + 1 < |v|
        invariant i < |v| && i < |s| && v[..i + 1] == s[..i + 1]
      {
        assert v[i] == v[..i + 1][i] == s[..i + 1][i] == s[i];
        assert v[i].next == v[i + 1] && s[i].next == After(s, i);
        i := i + 1;
      }
      assert v[..i + 1] == v;
      assert v[i] == s[..i + 1][i] == s[i];
      assert s[i].next == After(s, i);
    }
  }

  /** A block that points back to the last block seen is new. */
  lemma NotSeenBefore(head: Block?, v: seq<Block>, mw: Block, safe: set<Block>)
    requires Walked(head, v, mw, safe)
    requires v != [] ==> mw != head && mw.prev == v[|v| - 1]
    ensures mw !in v
  {
    forall j | 0 <= j < |v| ensures v[j] != mw {
      if j > 0 { assert v[j].prev == v[j - 1]; }
    }
  }

  /** mwIsHeapOK on any pointer graph whatever: it ends, and (unless the chain is
      empty) its answer is exactly that there is a chain from head to tail, holding
      the block asked for. */
  method IsHeapOK(head: Block?, tail: Block?, safe: set<Block>, includes: Block?) returns (ok: bool)
    ensures head == null ==> (ok <==> includes == null)
    ensures head != null ==>
              (ok <==> exists s: seq<Block> :: ChainHolding(head, tail, s, safe, includes))
  {
    var found := 0;
    var mw := head;
    ghost var v: seq<Block> := [];
    ghost var seen: set<Block> := {};
    while mw != null
      invariant Walked(head, v, mw, safe)
      invariant head == null ==> mw == null && v == []
      invariant v != [] ==> mw != null || v[|v| - 1] == tail
      invariant v != [] && mw != null ==> mw in safe && mw.prev == v[|v| - 1]
      invariant found > 0 <==> includes != null && includes in v
      invariant seen <= safe && forall x :: x in seen ==> x in v
      decreases safe - seen
    {
      ok := true;
      if includes == mw { found := found + 1; }
      if mw !in safe { ok := false; }
      else if mw.prev != null && (mw.prev !in safe || mw == head || mw.prev.next != mw) { ok := false; }
      else if mw.next != null && (mw.next !in safe || mw == tail || mw.next.prev != mw) { ok := false; }
      else if mw.next == null && mw != tail { ok := false; }
      if !ok {
        forall s: seq<Block> | Chain(head, tail, s, safe) ensures false {
          WalkIsPrefix(head, tail, v, mw, safe, s);
        }
        return;
      }
      NotSeenBefore(head, v, mw, safe);
      v, seen := v + [mw], seen + {mw};
      mw := mw.next;
    }
    ok := includes == null || found > 0;
    if head != null {
      assert ok ==> ChainHolding(head, tail, v, safe, includes);
      forall s: seq<Block> | Chain(head, tail, s, safe) ensures s == v {
        WalkIsPrefix(head, tail, v, mw, safe, s);
      }
    }
  }

  /** The two link tests of mwIsOwned. */
  predicate LinkTest(mw: Block, head: Block?, tail: Block?)
    reads mw, mw.prev, mw.next
  {
    && (if mw.prev != null then mw.prev.next == mw else head == mw)
    && (if mw.next != null then mw.next.prev == mw else tail == mw)
  }

  /** For a block whose neighbours are chain blocks, the link test says what a scan of the chain would. */
  lemma LinkTestIsMembership(head: Block?, tail: Block?, s: seq<Block>, safe: set<Block>, x: Block)
    requires Chain(head, tail, s, safe)
    requires (x.prev == null || x.prev in s) || (x.next == null || x.next in s)
    ensures LinkTest(x, head, tail) <==> x in s
  {
    if x in s { LinkedInChain(head, tail, s, safe, x); } else { RogueLinkTest(head, tail, s, safe, x); }
  }

  /** A block outside the chain passes the link test exactly when both its neighbours
      are strangers too, and point back at it. */
  lemma RogueLinkTest(head: Block?, tail: Block?, s: seq<Block>, safe: set<Block>, x: Block)
    requires Chain(head, tail, s, safe) && x !in s
    ensures LinkTest(x, head, tail) <==>
              && x.prev != null && x.prev !in s && x.prev.next == x
              && x.next != null && x.next !in s && x.next.prev == x
  {
    if x.prev != null && x.prev in s {
      var i := Pos(s, x.prev);
      assert s[i].next == After(s, i);
    }
    if x.next != null && x.next in s {
      var i := Pos(s, x.next);
      assert s[i].prev == Before(s, i);
    }
  }

  /** What the accounting sees of a block. */
  datatype Account = Account(size: nat, nml: bool)

  ghost function Accounts(s: seq<Block>): (a: seq<Account>)
    reads s`size, s`nml
    ensures |a| == |s| && forall i :: 0 <= i < |s| ==> a[i] == Account(s[i].size, s[i].nml)
  {
    if s == [] then [] else Accounts(s[..|s| - 1]) + [Account(s[|s| - 1].size, s[|s| - 1].nml)]
  }

  ghost function TotalBytes(a: seq<Account>): nat {
    if a == [] then 0 else TotalBytes(a[..|a| - 1]) + a[|a| - 1].size
  }

  /** Blocks and bytes that are not no-man's-land. */
  ghost function LiveCount(a: seq<Account>): nat {
    if a == [] then 0 else LiveCount(a[..|a| - 1]) + (if a[|a| - 1].nml then 0 else 1)
  }

  ghost function LiveBytes(a: seq<Account>): nat {
    if a == [] then 0 else LiveBytes(a[..|a| - 1]) + (if a[|a| - 1].nml then 0 else a[|a| - 1].size)
  }

  lemma {:induction false} AllLive(a: seq<Account>)
    ensures LiveCount(a) <= |a|
    ensures LiveCount(a) == |a| <==> forall i :: 0 <= i < |a| ==> !a[i].nml
    ensures LiveCount(a) == |a| ==> LiveBytes(a) == TotalBytes(a)
  {
    if a != [] {
      var front := a[..|a| - 1];
      AllLive(front);
      assert forall i :: 0 <= i < |front| ==> front[i] == a[i];
    }
  }

  lemma {:induction false} LiveConcat(a: seq<Account>, b: seq<Account>)
    ensures TotalBytes(a + b) == TotalBytes(a) + TotalBytes(b)
    ensures LiveCount(a + b) == LiveCount(a) + LiveCount(b)
    ensures LiveBytes(a + b) == LiveBytes(a) + LiveBytes(b)
  {
    if b == [] {
      assert a + b == a;
    } else {
      LiveConcat(a, b[..|b| - 1]);
      assert (a + b)[..|a + b| - 1] == a + b[..|b| - 1];
    }
  }

  lemma AccountUpdated(a: seq<Account>, i: nat, x: Account)
    requires i < |a|
    ensures TotalBytes(a[i := x]) == TotalBytes(a) - a[i].size + x.size
    ensures LiveCount(a[i := x]) == LiveCount(a) - (if a[i].nml then 0 else 1) + (if x.nml then 0 else 1)
    ensures LiveBytes(a[i := x]) == LiveBytes(a) - (if a[i].nml then 0 else a[i].size) + (if x.nml then 0 else x.size)
  {
    AccountRemoved(a, i);
    AccountRemoved(a[i := x], i);
    assert a[i := x][..i] == a[..i] && a[i := x][i + 1..] == a[i + 1..];
  }

  lemma AccountRemoved(a: seq<Account>, i: nat)
    requires i < |a|
    ensures var r := a[..i] + a[i + 1..];
      && TotalBytes(a) == TotalBytes(r) + a[i].size
      && LiveCount(a) == LiveCount(r) + (if a[i].nml then 0 else 1)
      && LiveBytes(a) == LiveBytes(r) + (if a[i].nml then 0 else a[i].size)
  {
    assert a == a[..i] + ([a[i]] + a[i + 1..]);
    LiveConcat(a[..i], [a[i]] + a[i + 1..]);
    LiveConcat([a[i]], a[i + 1..]);
    LiveConcat(a[..i], a[i + 1..]);
  }

  /** What mwRelink does: return 1, return 0, abort the program, go on to the emergency
      repairs, which are not modelled, or go round a ring for ever. */
  datatype Relinked = Repaired | BlocksLost | Aborted | Emergency | Endless

  /** How a search along the chain for the neighbour of a block ends. */
  datatype Search = Found | NotFound | Fragmented | Circular

  /** The blocks a forward search from head has passed, all linked both ways and none mw. */
  ghost predicate Trail(head: Block, v: seq<Block>, safe: set<Block>, mw: Block)
    reads v`prev, v`next
  {
    && v != [] && v[0] == head && Distinct(v)
    && (forall i :: 0 <= i < |v| ==> v[i] in safe && v[i] != mw)
    && (forall i {:trigger v[i].next} :: 0 <= i < |v| - 1 ==> v[i].next == v[i + 1])
    && (forall i {:trigger v[i].prev} :: 1 <= i < |v| ==> v[i].prev == v[i - 1])
  }

  /** How a forward search from head ends at the last block of v. */
  ghost predicate EndsAs(how: Search, head: Block, v: seq<Block>, safe: set<Block>, mw: Block)
    reads safe - {mw}
  {
    && (forall i :: 0 <= i < |v| ==> v[i] in safe && v[i] != mw)
    && Trail(head, v, safe, mw)
    && var last := v[|v| - 1];
       match how
       case Found => last.next == mw
       case NotFound => last.next == null
       case Fragmented =>
         last.next != null && last.next != mw && (last.next !in safe || last.next.prev != last)
       case Circular => last.next == head && head.prev == last
  }

  lemma {:induction false} TrailsAgree(head: Block, v: seq<Block>, w: seq<Block>, safe: set<Block>, mw: Block, i: nat)
    requires Trail(head, v, safe, mw) && Trail(head, w, safe, mw) && i < |v| && i < |w|
    ensures v[i] == w[i]
  {
    if i > 0 {
      TrailsAgree(head, v, w, safe, mw, i - 1);
      assert v[i - 1].next == v[i] && w[i - 1].next == w[i];
    }
  }

  lemma TrailGoesOn(head: Block, w: seq<Block>, safe: set<Block>, mw: Block, n: nat)
    requires Trail(head, w, safe, mw) && 0 < n < |w|
    ensures w[n - 1].next == w[n] && w[n].prev == w[n - 1] && w[n] in safe && w[n] != mw && w[n] != head
  {
  }

  /** Where a search has ended, no longer trail goes on. */
  lemma NoLonger(how: Search, head: Block, v: seq<Block>, w: seq<Block>, safe: set<Block>, mw: Block)
    requires EndsAs(how, head, v, safe, mw) && Trail(head, w, safe, mw)
    ensures |w| <= |v|
  {
    if |w| > |v| {
      TrailGoesOn(head, w, safe, mw, |v|);
      TrailsAgree(head, v, w, safe, mw, |v| - 1);
    }
  }

  /** From one head there is one trail that ends, and it ends in one way. */
  lemma OneEnd(a: Search, b: Search, head: Block, v: seq<Block>, w: seq<Block>, safe: set<Block>, mw: Block)
    requires EndsAs(a, head, v, safe, mw) && EndsAs(b, head, w, safe, mw)
    ensures a == b && v == w
  {
    NoLonger(a, head, v, w, safe, mw);
    NoLonger(b, head, w, v, safe, mw);
    forall i | 0 <= i < |v| ensures v[i] == w[i] {
      TrailsAgree(head, v, w, safe, mw, i);
    }
  }

  lemma TrailGrows(head: Block, v: seq<Block>, safe: set<Block>, mw: Block, nxt: Block)
    requires Trail(head, v, safe, mw) && v[|v| - 1].next == nxt && nxt in safe && nxt != mw && nxt != head
    requires nxt.prev == v[|v| - 1]
    ensures nxt !in v && Trail(head, v + [nxt], safe, mw)
  {
    forall j | 0 <= j < |v| ensures v[j] != nxt {
      if j > 0 { assert v[j].prev == v[j - 1]; }
    }
  }

  /** If only mw is in doubt, the trail is the front of the chain, and how it goes on. */
  lemma {:induction false} TrailIsPrefix(head: Block, tail: Block?, s: seq<Block>, v: seq<Block>, safe: set<Block>,
                                         mw: Block)
    requires Trail(head, v, safe, mw) && ChainExcept(head, tail, s, safe, mw)
    ensures |v| <= |s| && (forall i :: 0 <= i < |v| ==> v[i] == s[i])
    ensures v[|v| - 1].next == if |v| < |s| then s[|v|] else null
    decreases |v|
  {
    var n := |v| - 1;
    if n > 0 {
      var w := v[..n];
      assert forall i :: 0 <= i < n ==> w[i] == v[i];
      TrailIsPrefix(head, tail, s, w, safe, mw);
      assert v[n - 1].next == v[n];
    }
    assert v[n] == s[n] && s[n].next == After(s, n);
  }

  /** First half of mwRelink: search forward for the predecessor of mw. */
  method RepairPrev(mw: Block, head: Block, tail: Block?, safe: set<Block>, ghost s: seq<Block>)
    returns (search: Search, ghost v: seq<Block>)
    requires head in safe
    modifies mw`prev
    ensures head == mw ==> search == Found && mw.prev == null
    ensures search != Found ==> mw.prev == old(mw.prev)
    ensures head != mw ==> EndsAs(search, head, v, safe, mw) && (search == Found ==> mw.prev == v[|v| - 1])
    ensures forall how: Search, w: seq<Block> :: EndsAs(how, head, w, safe, mw) ==> how == search
    ensures old(ChainExcept(head, tail, s, safe, mw)) ==>
              && search == (if mw in s then Found else NotFound) && ChainExcept(head, tail, s, safe, mw)
              && (mw in s ==> mw.prev == Before(s, Pos(s, mw)))
  {
    search, v := Found, [head];
    if head == mw {
      assert s != [] && s[0] == mw && Distinct(s) ==> Pos(s, mw) == 0;
      if mw.prev != null { mw.prev := null; }
      return;
    }
    var mw1: Block? := head;
    ghost var seen: set<Block> := {head};
    while mw1 != null
      invariant mw1 != null ==> Trail(head, v, safe, mw) && v[|v| - 1] == mw1
      invariant mw1 == null ==> Trail(head, v, safe, mw) && v[|v| - 1].next == null
      invariant seen <= safe && forall x :: x in seen <==> x in v
      invariant mw.prev == old(mw.prev)
      decreases safe - seen, mw1 != null
    {
      if ChainExcept(head, tail, s, safe, mw) { Onward(head, tail, s, v, safe, mw); }
      if mw1.next == mw {
        EndsOnce(Found, head, v, safe, mw);
        mw.prev := mw1;
        return;
      }
      if mw1.next != null {
        if mw1.next !in safe || mw1.next.prev != mw1 {
          EndsOnce(Fragmented, head, v, safe, mw);
          return Fragmented, v;
        }
        if mw1.next == head {
          EndsOnce(Circular, head, v, safe, mw);
          return Circular, v; // the code goes on
        }
        TrailGrows(head, v, safe, mw, mw1.next);
        v, seen := v + [mw1.next], seen + {mw1.next};
      }
      mw1 := mw1.next;
    }
    if ChainExcept(head, tail, s, safe, mw) { Onward(head, tail, s, v, safe, mw); }
    EndsOnce(NotFound, head, v, safe, mw);
    search := NotFound;
  }

  lemma EndsOnce(how: Search, head: Block, v: seq<Block>, safe: set<Block>, mw: Block)
    requires EndsAs(how, head, v, safe, mw)
    ensures forall other: Search, w: seq<Block> :: EndsAs(other, head, w, safe, mw) ==> other == how
  {
    forall other: Search, w: seq<Block> | EndsAs(other, head, w, safe, mw) ensures other == how {
      OneEnd(how, other, head, v, w, safe, mw);
    }
  }

  /** The next block of a chain of which only mw is in doubt. */
  lemma Onward(head: Block, tail: Block?, s: seq<Block>, v: seq<Block>, safe: set<Block>, mw: Block)
    requires Trail(head, v, safe, mw) && ChainExcept(head, tail, s, safe, mw)
    ensures var nxt := v[|v| - 1].next;
      && (nxt == null <==> |v| == |s|) && (nxt == null ==> mw !in s)
      && (nxt != null ==> nxt in s && nxt in safe && nxt != head)
      && (nxt != null && nxt != mw ==> nxt.prev == v[|v| - 1])
      && (nxt == mw ==> Before(s, Pos(s, mw)) == v[|v| - 1])
  {
    TrailIsPrefix(head, tail, s, v, safe, mw);
    var n := |v|;
    if n < |s| && s[n] != mw { assert s[n].prev == Before(s, n); }
    if n < |s| && s[n] == mw { assert Pos(s, mw) == n; }
  }

  /** The blocks a backward search from tail has passed. */
  ghost predicate TrailBack(tail: Block, v: seq<Block>, safe: set<Block>, mw: Block)
    reads v`prev, v`next
  {
    && v != [] && v[0] == tail && Distinct(v)
    && (forall i :: 0 <= i < |v| ==> v[i] in safe && v[i] != mw)
    && (forall i {:trigger v[i].prev} :: 0 <= i < |v| - 1 ==> v[i].prev == v[i + 1])
    && (forall i {:trigger v[i].next} :: 1 <= i < |v| ==> v[i].next == v[i - 1])
  }

  /** How a backward search from tail ends at the last block of v. */
  ghost predicate EndsBackAs(how: Search, tail: Block, v: seq<Block>, safe: set<Block>, mw: Block)
    reads safe - {mw}
  {
    && (forall i :: 0 <= i < |v| ==> v[i] in safe && v[i] != mw)
    && TrailBack(tail, v, safe, mw)
    && var last := v[|v| - 1];
       match how
       case Found => last.prev == mw
       case NotFound => last.prev == null
       case Fragmented =>
         last.prev != null && last.prev != mw && (last.prev !in safe || last.prev.next != last)
       case Circular => last.prev == tail && tail.next == last
  }

  lemma {:induction false} TrailsBackAgree(tail: Block, v: seq<Block>, w: seq<Block>, safe: set<Block>, mw: Block,
                                           i: nat)
    requires TrailBack(tail, v, safe, mw) && TrailBack(tail, w, safe, mw) && i < |v| && i < |w|
    ensures v[i] == w[i]
  {
    if i > 0 {
      TrailsBackAgree(tail, v, w, safe, mw, i - 1);
      assert v[i - 1].prev == v[i] && w[i - 1].prev == w[i];
    }
  }

  lemma TrailGoesBack(tail: Block, w: seq<Block>, safe: set<Block>, mw: Block, n: nat)
    requires TrailBack(tail, w, safe, mw) && 0 < n < |w|
    ensures w[n - 1].prev == w[n] && w[n].next == w[n - 1] && w[n] in safe && w[n] != mw && w[n] != tail
  {
  }

  lemma NoLongerBack(how: Search, tail: Block, v: seq<Block>, w: seq<Block>, safe: set<Block>, mw: Block)
    requires EndsBackAs(how, tail, v, safe, mw) && TrailBack(tail, w, safe, mw)
    ensures |w| <= |v|
  {
    if |w| > |v| {
      TrailGoesBack(tail, w, safe, mw, |v|);
      TrailsBackAgree(tail, v, w, safe, mw, |v| - 1);
    }
  }

  lemma EndsBackOnce(how: Search, tail: Block, v: seq<Block>, safe: set<Block>, mw: Block)
    requires EndsBackAs(how, tail, v, safe, mw)
    ensures forall other: Search, w: seq<Block> :: EndsBackAs(other, tail, w, safe, mw) ==> other == how
  {
    forall other: Search, w: seq<Block> | EndsBackAs(other, tail, w, safe, mw) ensures other == how {
      NoLongerBack(how, tail, v, w, safe, mw);
      NoLongerBack(other, tail, w, v, safe, mw);
      TrailsBackAgree(tail, v, w, safe, mw, |v| - 1);
    }
  }

  lemma TrailBackGrows(tail: Block, v: seq<Block>, safe: set<Block>, mw: Block, nxt: Block)
    requires TrailBack(tail, v, safe, mw) && v[|v| - 1].prev == nxt && nxt in safe && nxt != mw && nxt != tail
    requires nxt.next == v[|v| - 1]
    ensures nxt !in v && TrailBack(tail, v + [nxt], safe, mw)
  {
    forall j | 0 <= j < |v| ensures v[j] != nxt {
      if j > 0 { assert v[j].next == v[j - 1]; }
    }
  }

  lemma {:induction false} TrailBackIsSuffix(head: Block?, tail: Block, s: seq<Block>, v: seq<Block>, safe: set<Block>,
                                             mw: Block)
    requires TrailBack(tail, v, safe, mw) && ChainExcept(head, tail, s, safe, mw)
    ensures |v| <= |s| && (forall i :: 0 <= i < |v| ==> v[i] == s[|s| - 1 - i])
    ensures v[|v| - 1].prev == if |v| < |s| then s[|s| - 1 - |v|] else null
    decreases |v|
  {
    var n := |v| - 1;
    if n > 0 {
      var w := v[..n];
      assert forall i :: 0 <= i < n ==> w[i] == v[i];
      TrailBackIsSuffix(head, tail, s, w, safe, mw);
      assert v[n - 1].prev == v[n];
    }
    var k := |s| - 1 - n;
    assert v[n] == s[k] && s[k].prev == Before(s, k);
  }

  /** Second half of mwRelink: search backward for the successor of mw. */
  method RepairNext(mw: Block, head: Block?, tail: Block, safe: set<Block>, ghost s: seq<Block>)
    returns (search: Search, ghost v: seq<Block>)
    requires tail in safe
    modifies mw`next
    ensures tail == mw ==> search == Found && mw.next == null
    ensures search != Found ==> mw.next == old(mw.next)
    ensures tail != mw ==> EndsBackAs(search, tail, v, safe, mw) && (search == Found ==> mw.next == v[|v| - 1])
    ensures forall how: Search, w: seq<Block> :: EndsBackAs(how, tail, w, safe, mw) ==> how == search
    ensures old(ChainExcept(head, tail, s, safe, mw)) ==>
              && search == (if mw in s then Found else NotFound) && ChainExcept(head, tail, s, safe, mw)
              && (mw in s ==> mw.next == After(s, Pos(s, mw)))
  {
    search, v := Found, [tail];
    if tail == mw {
      assert s != [] && s[|s| - 1] == mw && Distinct(s) ==> Pos(s, mw) == |s| - 1;
      if mw.next != null { mw.next := null; }
      return;
    }
    var mw1: Block? := tail;
    ghost var seen: set<Block> := {tail};
    while mw1 != null
      invariant mw1 != null ==> TrailBack(tail, v, safe, mw) && v[|v| - 1] == mw1
      invariant mw1 == null ==> TrailBack(tail, v, safe, mw) && v[|v| - 1].prev == null
      invariant seen <= safe && forall x :: x in seen <==> x in v
      invariant mw.next == old(mw.next)
      decreases safe - seen, mw1 != null
    {
      if ChainExcept(head, tail, s, safe, mw) { OnwardBack(head, tail, s, v, safe, mw); }
      if mw1.prev == mw {
        EndsBackOnce(Found, tail, v, safe, mw);
        mw.next := mw1;
        return;
      }
      if mw1.prev != null {
        if mw1.prev !in safe || mw1.prev.next != mw1 {
          EndsBackOnce(Fragmented, tail, v, safe, mw);
          return Fragmented, v;
        }
        if mw1.prev == tail {
          EndsBackOnce(Circular, tail, v, safe, mw);
          return Circular, v; // the code goes on
        }
        TrailBackGrows(tail, v, safe, mw, mw1.prev);
        v, seen := v + [mw1.prev], seen + {mw1.prev};
      }
      mw1 := mw1.prev;
    }
    if ChainExcept(head, tail, s, safe, mw) { OnwardBack(head, tail, s, v, safe, mw); }
    EndsBackOnce(NotFound, tail, v, safe, mw);
    search := NotFound;
  }

  lemma OnwardBack(head: Block?, tail: Block, s: seq<Block>, v: seq<Block>, safe: set<Block>, mw: Block)
    requires TrailBack(tail, v, safe, mw) && ChainExcept(head, tail, s, safe, mw)
    ensures var nxt := v[|v| - 1].prev;
      && (nxt == null <==> |v| == |s|) && (nxt == null ==> mw !in s)
      && (nxt != null ==> nxt in s && nxt in safe && nxt != tail)
      && (nxt != null && nxt != mw ==> nxt.next == v[|v| - 1])
      && (nxt == mw ==> After(s, Pos(s, mw)) == v[|v| - 1])
  {
    TrailBackIsSuffix(head, tail, s, v, safe, mw);
    var k := |s| - 1 - |v|;
    if k >= 0 {
      if s[k] != mw { assert s[k].next == After(s, k); } else { assert Pos(s, mw) == k; }
    }
    assert |v| == |s| ==> forall i :: 0 <= i < |s| ==> s[i] == v[|s| - 1 - i];
  }

  /** The count of the blocks on the chain and of their bytes at the end of mwRelink. */
  method CountChain(head: Block?, tail: Block?, safe: set<Block>, ghost s: seq<Block>) returns (count: nat, size: nat)
    requires Chain(head, tail, s, safe)
    ensures count == |s| && size == TotalBytes(Accounts(s))
  {
    count, size := 0, 0;
    var mw1 := head;
    ghost var a := Accounts(s);
    while mw1 != null
      invariant count <= |s| && mw1 == (if count < |s| then s[count] else null)
      invariant size == TotalBytes(a[..count])
      decreases |s| - count
    {
      assert s[count].next == After(s, count);
      assert a[..count + 1][..count] == a[..count];
      size := size + mw1.size;
      count := count + 1;
      mw1 := mw1.next;
    }
    assert a[..count] == a;
  }

  /** mwRelink: whatever has been written over the header of mw, its links and
      check value are restored, nothing else on the heap is written to, and the
      return value only says whether the chain has numCur blocks. If the byte
      total is off, the size of mw is given up (after its check value was computed).
      On any other graph it returns only if there is a whole chain in the end. */
  method Relink(mw: Block?, head: Block?, tail: Block?, safe: set<Block>, numCur: int, statCur: int,
                ghost s: seq<Block>)
    returns (r: Relinked)
    modifies if mw == null then {} else {mw}
    // any graph
    ensures mw == null || mw !in safe ==> r == Emergency && (mw != null ==> unchanged(mw))
    ensures mw != null ==> mw.count == old(mw.count) && mw.line == old(mw.line) && mw.nml == old(mw.nml)
    ensures r == Repaired ==> exists t: seq<Block> :: ChainHolding(head, tail, t, safe, null) && |t| == numCur
    ensures r == BlocksLost ==> exists t: seq<Block> :: ChainHolding(head, tail, t, safe, null) && |t| != numCur
    ensures r == Aborted ==> forall t: seq<Block> :: !ChainHolding(head, tail, t, safe, null)
    ensures mw == null || mw !in safe || head == null || head !in safe ==> r == Emergency
    ensures mw != null && mw in safe && head != null && head in safe ==>
              (r == Endless <==>
                 (exists w: seq<Block> :: EndsAs(Circular, head, w, safe, mw)) ||
                 ((tail != null && tail in safe && exists w: seq<Block> :: EndsBackAs(Circular, tail, w, safe, mw)) &&
                  !exists w: seq<Block> :: EndsAs(Fragmented, head, w, safe, mw)))
    ensures mw != null && mw in safe && head != null && head in safe ==>
              (r == Emergency <==>
                 (exists w: seq<Block> :: EndsAs(Fragmented, head, w, safe, mw)) ||
                 ((tail == null || tail !in safe ||
                   exists w: seq<Block> :: EndsBackAs(Fragmented, tail, w, safe, mw)) &&
                  !exists w: seq<Block> :: EndsAs(Circular, head, w, safe, mw)))
    // a chain of which only mw is in doubt
    ensures mw != null && s == [] && old(ChainExcept(head, tail, s, safe, mw)) ==> r == Emergency && unchanged(mw)
    ensures mw != null && mw in safe && s != [] && old(ChainExcept(head, tail, s, safe, mw)) ==>
              && r == (if |s| == numCur then Repaired else BlocksLost)
              && mw.size == (if |s| == numCur && old(TotalBytes(Accounts(s))) != statCur then 0 else old(mw.size))
    ensures mw != null && mw in s && old(ChainExcept(head, tail, s, safe, mw)) ==>
              && Chain(head, tail, s, safe)
              && mw.check == CheckValue(mw.count, old(mw.size), mw.line)
    ensures mw != null && mw !in s && old(ChainExcept(head, tail, s, safe, mw)) ==>
              && mw.prev == old(mw.prev) && mw.next == old(mw.next) && mw.check == old(mw.check)
              && (mw.size == old(mw.size) ==> unchanged(mw))
  {
    hide Accounts, TotalBytes, CheckValue, Chain, ChainExcept, ChainHolding, EndsAs, EndsBackAs;
    EndsOf(head, tail, s, safe, mw);
    if mw == null || mw !in safe { return Emergency; }
    ghost var whole := ChainExcept(head, tail, s, safe, mw);
    var fails := 0;
    if head == null || head !in safe { return Emergency; }
    ghost var v, w;
    var forward;
    forward, v := RepairPrev(mw, head, tail, safe, s);
    if forward == Fragmented { return Emergency; }
    if forward == Circular { return Endless; }
    if forward == NotFound { fails := fails + 1; }
    if tail == null || tail !in safe { return Emergency; }
    var backward;
    backward, w := RepairNext(mw, head, tail, safe, s);
    OnlyEnd(forward, head, v, safe, mw);
    if backward == Fragmented { return Emergency; }
    if backward == Circular { return Endless; }
    if backward == NotFound { fails := fails + 1; }
    if fails <= 1 { mw.check := mw.Chkval(); }
    if whole { Relinks(mw, head, tail, safe, s); }
    r := VerifyAndCount(mw, head, tail, safe, numCur, statCur, s);
    OnlyEnd(forward, head, v, safe, mw);
    OnlyEndBack(backward, tail, w, safe, mw);
  }

  lemma OnlyEnd(how: Search, head: Block, v: seq<Block>, safe: set<Block>, mw: Block)
    requires head != mw ==> EndsAs(how, head, v, safe, mw)
    ensures forall other: Search, w: seq<Block> :: EndsAs(other, head, w, safe, mw) ==> other == how
    ensures head == mw ==> forall other: Search, w: seq<Block> :: !EndsAs(other, head, w, safe, mw)
  {
    if head != mw { EndsOnce(how, head, v, safe, mw); }
  }

  lemma OnlyEndBack(how: Search, tail: Block, v: seq<Block>, safe: set<Block>, mw: Block)
    requires tail != mw ==> EndsBackAs(how, tail, v, safe, mw)
    ensures forall other: Search, w: seq<Block> :: EndsBackAs(other, tail, w, safe, mw) ==> other == how
    ensures tail == mw ==> forall other: Search, w: seq<Block> :: !EndsBackAs(other, tail, w, safe, mw)
  {
    if tail != mw { EndsBackOnce(how, tail, v, safe, mw); }
  }

  /** A chain closed to a ring at its head: a search for a third block goes round for ever. */
  method RelinkOnRing() returns (r: Relinked)
    ensures r == Endless
  {
    hide CheckValue, Chain, ChainExcept, EndsAs, EndsBackAs, ChainHolding;
    var x, h, a := Ring();
    ghost var w := [h, a];
    r := Relink(x, h, a, {h, a, x}, 3, 18, []);
    assert EndsAs(Circular, h, w, {h, a, x}, x);
  }

  method Ring() returns (x: Block, h: Block, a: Block)
    ensures fresh(x) && h != x && EndsAs(Circular, h, [h, a], {h, a, x}, x)
  {
    hide CheckValue;
    var mem := new Byte[0];
    x := new Block(mem, 1, 5, 10, null);
    a := new Block(mem, 2, 6, 20, null);
    h := new Block(mem, 3, 7, 30, a);
    h.prev, a.prev, a.next := a, h, h;
  }

  /** The same at its tail; the forward search ends. */
  method RelinkOnRingAtTail() returns (r: Relinked)
    ensures r == Endless
  {
    hide CheckValue, Chain, ChainExcept, EndsAs, EndsBackAs, ChainHolding;
    var x, h, t, a := RingAtTail();
    var safe := {h, a, t, x};
    ghost var v, w := [h], [t, a];
    r := Relink(x, h, t, safe, 4, 26, []);
    assert EndsBackAs(Circular, t, w, safe, x);
    OnlyEnd(NotFound, h, v, safe, x);
  }

  method RingAtTail() returns (x: Block, h: Block, t: Block, a: Block)
    ensures fresh(x) && h != x && EndsAs(NotFound, h, [h], {h, a, t, x}, x)
    ensures EndsBackAs(Circular, t, [t, a], {h, a, t, x}, x)
  {
    hide CheckValue;
    var mem := new Byte[0];
    x := new Block(mem, 1, 5, 10, null);
    h := new Block(mem, 2, 6, 20, null);
    a := new Block(mem, 3, 7, 30, null);
    t := new Block(mem, 4, 8, 40, a);
    t.prev, a.prev, a.next := a, t, t;
  }

  /** The end of mwRelink, from its label verifyok on. */
  method VerifyAndCount(mw: Block, head: Block?, tail: Block?, safe: set<Block>, numCur: int, statCur: int,
                        ghost s: seq<Block>)
    returns (r: Relinked)
    requires head != null
    modifies mw`size
    ensures r == Repaired || r == BlocksLost || r == Aborted
    ensures r == Aborted <==> forall t: seq<Block> :: !ChainHolding(head, tail, t, safe, null)
    ensures r == Repaired ==> exists t: seq<Block> :: ChainHolding(head, tail, t, safe, null) && |t| == numCur
    ensures r == BlocksLost ==> exists t: seq<Block> :: ChainHolding(head, tail, t, safe, null) && |t| != numCur
    ensures Chain(head, tail, s, safe) ==>
              && r == (if |s| == numCur then Repaired else BlocksLost)
              && mw.size == if |s| == numCur && old(TotalBytes(Accounts(s))) != statCur then 0 else old(mw.size)
  {
    hide Accounts, TotalBytes, ChainExcept;
    var ok := IsHeapOK(head, tail, safe, null);
    assert Chain(head, tail, s, safe) ==> ChainHolding(head, tail, s, safe, null);
    if !ok { return Aborted; }
    ghost var t: seq<Block> :| ChainHolding(head, tail, t, safe, null);
    if Chain(head, tail, s, safe) { OneChain(head, tail, s, t, safe); }
    var count, size := CountChain(head, tail, safe, t);
    if count == numCur {
      if size != statCur { mw.size := 0; }
      r := Repaired;
    } else {
      r := BlocksLost;
    }
    assert ChainHolding(head, tail, t, safe, null);
  }

  /** There is at most one chain from a head. */
  lemma OneChain(head: Block, tail: Block?, s: seq<Block>, t: seq<Block>, safe: set<Block>)
    requires Chain(head, tail, s, safe) && Chain(head, tail, t, safe)
    ensures s == t
  {
    ChainThrough(head, tail, s, t, safe, head);
  }

  lemma EndsOf(head: Block?, tail: Block?, s: seq<Block>, safe: set<Block>, x: Block?)
    ensures ChainExcept(head, tail, s, safe, x) && s != [] ==>
              head != null && head in safe && tail != null && tail in safe
    ensures ChainExcept(head, tail, s, safe, x) && s == [] ==> head == null && tail == null
    ensures ChainExcept(head, tail, s, safe, x) && x != null && x in s ==> x in safe
  {
  }

  lemma Relinks(mw: Block, head: Block?, tail: Block?, safe: set<Block>, s: seq<Block>)
    requires ChainExcept(head, tail, s, safe, mw)
    requires mw in s ==> mw.prev == Before(s, Pos(s, mw)) && mw.next == After(s, Pos(s, mw))
    ensures Chain(head, tail, s, safe)
  {
  }

  /** A wild write over the header of a block. */
  method Overwrite(mw: Block, prev: Block?, next: Block?, count: nat, size: nat, line: nat, check: nat, nml: bool)
    modifies mw
    ensures mw.prev == prev && mw.next == next && mw.count == count && mw.size == size
    ensures mw.line == line && mw.check == check && mw.nml == nml
  {
    mw.prev, mw.next, mw.count, mw.size, mw.line, mw.check, mw.nml := prev, next, count, size, line, check, nml;
  }

  /** Self-repair: after any overwriting of the whole header of one block, mwRelink
      restores every link of the chain. It reports success exactly when the chain
      holds no no-man's-land block (numCur and statCur account for the others). */
  method OverwriteAndRelink(mw: Block, prev: Block?, next: Block?, count: nat, size: nat, line: nat, check: nat,
                            nml: bool, head: Block?, tail: Block?, safe: set<Block>, numCur: int, statCur: int,
                            ghost s: seq<Block>)
    returns (r: Relinked)
    requires Chain(head, tail, s, safe) && mw in s
    requires numCur == LiveCount(Accounts(s)) && statCur == LiveBytes(Accounts(s))
    modifies mw
    ensures Chain(head, tail, s, safe)
    ensures forall i :: 0 <= i < |s| ==> s[i].prev == old(s[i].prev) && s[i].next == old(s[i].next)
    ensures r == Repaired <==> forall i :: 0 <= i < |s| ==> !old(s[i].nml)
    ensures r == Repaired || r == BlocksLost
    ensures size == old(mw.size) ==> mw.size == size && mw.check == mw.Chkval()
    ensures size != old(mw.size) ==> mw.size == (if r == Repaired then 0 else size)
    ensures mw.check == mw.Chkval() <==> size == old(mw.size) || size == 0 || exists i :: 0 <= i < |s| && old(s[i].nml)
  {
    hide Accounts, TotalBytes, LiveCount, LiveBytes, Xor;
    ghost var i := Pos(s, mw);
    ghost var a := Accounts(s);
    AllLive(a);
    AccountUpdated(a, i, Account(size, nml));
    Overwrite(mw, prev, next, count, size, line, check, nml);
    assert Accounts(s) == a[i := Account(size, nml)];
    r := Relink(mw, head, tail, safe, numCur, statCur, s);
    assert forall j {:trigger s[j].prev} :: 0 <= j < |s| ==> s[j].prev == Before(s, j);
    assert forall j {:trigger s[j].next} :: 0 <= j < |s| ==> s[j].next == After(s, j);
    CheckValueDetects(count, size, line, 0);
  }

  /** Success is reported, the links are right, and yet the repaired block fails its check:
      its size was hit, and the check value computed, before the size was given up. */
  method RepairedWithWrongCheck() returns (mw: Block, r: Relinked)
    ensures Chain(mw, mw, [mw], {mw}) && r == Repaired && mw.check != mw.Chkval()
  {
    hide Xor, Accounts, TotalBytes, LiveCount, LiveBytes;
    var mem := new Byte[0];
    mw := new Block(mem, 1, 5, 10, null);
    ghost var s := [mw];
    SingleAccount(mw);
    assert Chain(mw, mw, s, {mw});
    r := OverwriteAndRelink(mw, mw, mw, 1, 7, 10, 0, false, mw, mw, {mw}, 1, 5, s);
  }

  lemma SingleAccount(b: Block)
    ensures TotalBytes(Accounts([b])) == b.size
    ensures LiveCount(Accounts([b])) == if b.nml then 0 else 1
    ensures LiveBytes(Accounts([b])) == if b.nml then 0 else b.size
  {
    var a := Accounts([b]);
    assert a[..|a| - 1] == [];
  }

  /** mwUnlink: links that do not lead back are left alone (the code only logs them);
      on a chain it takes the block out. */
  method Unlink(mw: Block, head: Block?, tail: Block?, safe: set<Block>, ghost s: seq<Block>)
    returns (head': Block?, tail': Block?, ghost r: seq<Block>)
    modifies (if mw.prev == null then {} else {mw.prev})`next, (if mw.next == null then {} else {mw.next})`prev
    ensures head' == if old(mw.prev) == null then old(mw.next) else head
    ensures tail' == if old(mw.next) == null then old(mw.prev) else tail
    ensures old(mw.prev != null && mw.prev.next == mw) ==> old(mw.prev).next == old(mw.next)
    ensures old(mw.prev != null && mw.prev.next != mw) ==> old(mw.prev).next == old(mw.prev.next)
    ensures old(mw.next != null && mw.next.prev == mw) ==> old(mw.next).prev == old(mw.prev)
    ensures old(mw.next != null && mw.next.prev != mw) ==> old(mw.next).prev == old(mw.next.prev)
    ensures r == Without(s, mw)
    ensures old(Chain(head, tail, s, safe)) && mw in s ==> Chain(head', tail', r, safe) && |r| == |s| - 1
  {
    hide Without;
    r := Without(s, mw);
    head', tail' := head, tail;
    if Chain(head, tail, s, safe) && mw in s {
      ghost var i := Pos(s, mw);
      WithoutAt(s, mw, i);
      LinkedInChain(head, tail, s, safe, mw);
      assert s[i].prev == Before(s, i) && s[i].next == After(s, i);
    }
    if mw.prev == null { head' := mw.next; } else if mw.prev.next == mw { mw.prev.next := mw.next; }
    if mw.next == null { tail' := mw.prev; } else if mw.next.prev == mw { mw.next.prev := mw.prev; }
  }

  lemma LinkedInChain(head: Block?, tail: Block?, s: seq<Block>, safe: set<Block>, x: Block)
    requires Chain(head, tail, s, safe) && x in s
    ensures LinkTest(x, head, tail)
  {
    var i := Pos(s, x);
    assert s[i].prev == Before(s, i) && s[i].next == After(s, i);
    if i > 0 { assert s[i - 1].next == After(s, i - 1); }
    if i + 1 < |s| { assert s[i + 1].prev == Before(s, i + 1); }
  }

  predicate UnsafeLinks(mw: Block, safe: set<Block>)
    reads mw`prev, mw`next
  {
    (mw.prev != null && mw.prev !in safe) || (mw.next != null && mw.next !in safe)
  }

  lemma LeadsNowhere(mw: Block, safe: set<Block>)
    ensures UnsafeLinks(mw, safe) <==> (mw.prev != null && mw.prev !in safe) || (mw.next != null && mw.next !in safe)
  {
  }

  /** If no block was lost from the chain, the byte total is right. */
  ghost predicate Balanced(s: seq<Block>, numCur: int, statCur: int)
    reads s`size, s`nml
  {
    && (s == [] ==> statCur == 0)
    && (|s| == numCur ==> statCur == TotalBytes(Accounts(s)))
  }

  lemma {:induction false} SamePrefix(head: Block?, tail: Block?, s: seq<Block>, t: seq<Block>,
                                        safe: set<Block>, x: Block, i: nat)
    requires ChainExcept(head, tail, s, safe, x) && Chain(head, tail, t, safe) && t != []
    requires i < |s| && forall k :: 0 <= k < i ==> s[k] != x
    ensures i < |t| && s[i] == t[i] && (i + 1 == |s| && s[i] != x ==> |t| == |s|)
    decreases i
  {
    if i > 0 {
      SamePrefix(head, tail, s, t, safe, x, i - 1);
      assert s[i - 1].next == After(s, i - 1) && t[i - 1].next == After(t, i - 1);
    }
    if i + 1 == |s| && s[i] != x { assert s[i].next == After(s, i) && t[i].next == After(t, i); }
  }

  lemma {:induction false} SameSuffix(head: Block?, tail: Block?, s: seq<Block>, t: seq<Block>,
                                        safe: set<Block>, x: Block, j: nat)
    requires ChainExcept(head, tail, s, safe, x) && Chain(head, tail, t, safe) && t != []
    requires j < |s| && forall k :: |s| - j <= k < |s| ==> s[k] != x
    ensures j < |t| && s[|s| - 1 - j] == t[|t| - 1 - j]
    decreases j
  {
    if j > 0 {
      SameSuffix(head, tail, s, t, safe, x, j - 1);
      assert s[|s| - j].prev == Before(s, |s| - j) && t[|t| - j].prev == Before(t, |t| - j);
    }
  }

  /** A whole chain through x is the very chain of which only x was in doubt. */
  lemma ChainThrough(head: Block?, tail: Block?, s: seq<Block>, t: seq<Block>, safe: set<Block>, x: Block)
    requires ChainExcept(head, tail, s, safe, x) && Chain(head, tail, t, safe) && t != [] && s != []
    requires x in s || x in t
    ensures s == t
  {
    if x in s {
      var k := Pos(s, x);
      var j := |s| - 1 - k;
      SamePrefix(head, tail, s, t, safe, x, k);
      SameSuffix(head, tail, s, t, safe, x, j);
      assert k == |t| - 1 - j;
      forall i | 0 <= i < |s| ensures s[i] == t[i] {
        if i <= k {
          SamePrefix(head, tail, s, t, safe, x, i);
        } else {
          SameSuffix(head, tail, s, t, safe, x, |s| - 1 - i);
        }
      }
    } else {
      SamePrefix(head, tail, s, t, safe, x, |s| - 1);
      forall i | 0 <= i < |s| ensures s[i] == t[i] { SamePrefix(head, tail, s, t, safe, x, i); }
    }
  }

  /** A chain of which at most x may be damaged, with counters that are right. */
  ghost predicate InDoubt(head: Block?, tail: Block?, s: seq<Block>, safe: set<Block>, x: Block?,
                          numCur: int, statCur: int)
    reads s`prev, s`next, s`size, s`nml
  {
    ChainExcept(head, tail, s, safe, x) && Balanced(s, numCur, statCur)
  }

  /** How mwIsOwned ends: with 1, with 0, by going through a pointer that mwIsSafeAddr has
      refused, or not at all, because a call of mwRelink did not return by itself. */
  datatype Verdict = Owned | NotOwned | WildRead | NoReturn

  predicate Returns(r: Relinked) { r == Repaired || r == BlocksLost }

  /** The branch of mwIsOwned for a check value that is wrong. */
  method TrustChain(mw: Block, head: Block?, tail: Block?, safe: set<Block>, ghost s: seq<Block>) returns (owned: bool)
    modifies mw`size, mw`check
    ensures owned <==> exists t: seq<Block> :: ChainHolding(head, tail, t, safe, mw)
    ensures old(ChainExcept(head, tail, s, safe, mw)) ==> (owned <==> Chain(head, tail, s, safe) && mw in s)
    ensures owned ==> mw.size == 0 && mw.check == mw.Chkval()
    ensures !owned ==> mw.size == old(mw.size) && mw.check == old(mw.check)
  {
    hide CheckValue;
    owned := IsHeapOK(head, tail, safe, mw);
    HoldingWhat(head, tail, s, safe, mw);
    assert Chain(head, tail, s, safe) && mw in s ==> ChainHolding(head, tail, s, safe, mw);
    assert owned <==> exists t: seq<Block> :: ChainHolding(head, tail, t, safe, mw);
    if owned {
      ghost var t: seq<Block> :| ChainHolding(head, tail, t, safe, mw);
      mw.size := 0;
      mw.check := mw.Chkval();
      assert ChainHolding(head, tail, t, safe, mw);
    }
  }

  /** What a chain holding x means if there is no head, and if only x was in doubt. */
  lemma HoldingWhat(head: Block?, tail: Block?, s: seq<Block>, safe: set<Block>, x: Block)
    ensures forall t: seq<Block> :: ChainHolding(head, tail, t, safe, x) ==> head != null
    ensures ChainExcept(head, tail, s, safe, x) ==>
              forall t: seq<Block> :: ChainHolding(head, tail, t, safe, x) ==> t == s
  {
    if ChainExcept(head, tail, s, safe, x) {
      forall t: seq<Block> | ChainHolding(head, tail, t, safe, x) ensures t == s {
        if s != [] { ChainThrough(head, tail, s, t, safe, x); }
      }
    }
  }

  /** The two repairs that mwIsOwned tries for links that lead nowhere. */
  method RelinkUnsafe(mw: Block, head: Block?, tail: Block?, safe: set<Block>, numCur: int, statCur: int,
                      ghost s: seq<Block>) returns (back: bool)
    requires mw in safe
    modifies mw
    ensures !old(UnsafeLinks(mw, safe)) ==> unchanged(mw) && back
    ensures mw.count == old(mw.count) && mw.line == old(mw.line) && mw.nml == old(mw.nml)
    ensures s != [] && old(InDoubt(head, tail, s, safe, mw, numCur, statCur)) && old(mw.check == mw.Chkval()) ==>
              && back && InDoubt(head, tail, s, safe, mw, numCur, statCur)
              && mw.size == old(mw.size) && mw.check == old(mw.check)
              && (mw in s && old(UnsafeLinks(mw, safe)) ==> Chain(head, tail, s, safe))
              && (mw !in s ==> unchanged(mw))
  {
    hide Accounts, TotalBytes, CheckValue, EndsAs, EndsBackAs;
    back := true;
    if mw.prev != null && mw.prev !in safe {
      var r := Relink(mw, head, tail, safe, numCur, statCur, s);
      back := Returns(r);
    }
    if back && mw.next != null && mw.next !in safe {
      var r := Relink(mw, head, tail, safe, numCur, statCur, s);
      back := Returns(r);
    }
  }

  /** The rest of mwIsOwned, for a block whose check value is right. */
  method TrustLinks(mw: Block, head: Block?, tail: Block?, safe: set<Block>, numCur: int, statCur: int,
                    ghost s: seq<Block>)
    returns (v: Verdict)
    requires mw in safe
    modifies mw
    // any graph
    ensures mw.count == old(mw.count) && mw.line == old(mw.line) && mw.nml == old(mw.nml)
    ensures v == Owned ==>
              || (LinkTest(mw, head, tail) && mw.check == mw.Chkval())
              || exists t: seq<Block> :: ChainHolding(head, tail, t, safe, null) && |t| == numCur
    ensures old(!UnsafeLinks(mw, safe) && LinkTest(mw, head, tail) && mw.check == mw.Chkval()) ==>
              v == Owned && unchanged(mw)
    ensures v == WildRead ==> UnsafeLinks(mw, safe) && old(UnsafeLinks(mw, safe))
    // a chain of which only mw is in doubt
    ensures s != [] && old(InDoubt(head, tail, s, safe, mw, numCur, statCur)) && old(mw.check == mw.Chkval()) ==>
              && v != NoReturn
              && (v == WildRead <==> mw !in s && old(UnsafeLinks(mw, safe)))
              && (v == Owned <==>
                    && v != WildRead
                    && (old(UnsafeLinks(mw, safe)) || old(LinkTest(mw, head, tail)) || |s| == numCur))
              && (mw in s && (old(UnsafeLinks(mw, safe)) || !old(LinkTest(mw, head, tail))) ==>
                    Chain(head, tail, s, safe))
              && (mw !in s ==> unchanged(mw))
              && mw.size == old(mw.size) && mw.check == old(mw.check)
  {
    hide Accounts, TotalBytes, CheckValue, EndsAs, EndsBackAs;
    ghost var unsafe := UnsafeLinks(mw, safe);
    ghost var whole := s != [] && InDoubt(head, tail, s, safe, mw, numCur, statCur) && mw.check == mw.Chkval();
    var back := RelinkUnsafe(mw, head, tail, safe, numCur, statCur, s);
    if !back { return NoReturn; }
    if UnsafeLinks(mw, safe) { return WildRead; }
    if whole && unsafe { LinkedInChain(head, tail, s, safe, mw); }
    if LinkTest(mw, head, tail) && mw.check == mw.Chkval() { return Owned; }
    v := NotOwned;
    var ok := IsHeapOK(head, tail, safe, mw);
    if !ok {
      var r := Relink(mw, head, tail, safe, numCur, statCur, s);
      v := if r == Repaired then Owned else if Returns(r) then NotOwned else NoReturn;
    }
  }

  /** mwIsOwned. A block whose check value is wrong is believed exactly if there is a whole
      chain that holds it. One whose check value is right is repaired if its links need it;
      but a stranger with a right check value is accepted too, unless there is no-man's-land
      memory on the chain, and makes the code read through a wild pointer if it holds one. */
  method IsOwned(mw: Block?, head: Block?, tail: Block?, safe: set<Block>, numCur: int, statCur: int, errors0: nat,
                 ghost s: seq<Block>)
    returns (v: Verdict, errors: nat)
    modifies if mw == null then {} else {mw}
    // any graph
    ensures mw == null || mw !in safe || (head == null && tail == null && statCur == 0) ==>
              v == NotOwned && (mw != null ==> unchanged(mw))
    ensures mw != null ==> mw.count == old(mw.count) && mw.line == old(mw.line) && mw.nml == old(mw.nml)
    ensures mw != null && mw in safe && old(mw.check != mw.Chkval()) ==>
              && (v == Owned <==> exists t: seq<Block> :: ChainHolding(head, tail, t, safe, mw))
              && (v == Owned || v == NotOwned)
              && mw.prev == old(mw.prev) && mw.next == old(mw.next)
              && (v == Owned ==> mw.size == 0 && mw.check == mw.Chkval())
              && (v == NotOwned ==> unchanged(mw))
    ensures v == Owned ==>
              || (mw != null && LinkTest(mw, head, tail) && mw.check == mw.Chkval())
              || exists t: seq<Block> :: ChainHolding(head, tail, t, safe, null)
    ensures v == WildRead ==> mw != null && old(UnsafeLinks(mw, safe) && mw.check == mw.Chkval())
    ensures errors >= errors0 && (v == Owned && old(mw.check == mw.Chkval()) ==> errors == errors0)
    // a chain of which only mw is in doubt, and the check value is wrong
    ensures s == [] && old(InDoubt(head, tail, s, safe, mw, numCur, statCur)) ==>
              v == NotOwned && (mw != null ==> unchanged(mw))
    ensures mw != null && mw in safe && old(ChainExcept(head, tail, s, safe, mw)) && old(mw.check != mw.Chkval()) ==>
              (v == Owned <==> old(Chain(head, tail, s, safe)) && mw in s)
    // or right, for a block of the chain
    ensures mw != null && mw in s &&
            old(InDoubt(head, tail, s, safe, mw, numCur, statCur) && mw.check == mw.Chkval()) ==>
              && (v == Owned || v == NotOwned) && mw.size == old(mw.size) && mw.check == old(mw.check)
              && (v == Owned <==> old(UnsafeLinks(mw, safe)) || old(LinkTest(mw, head, tail)) || |s| == numCur)
              && (old(UnsafeLinks(mw, safe)) || !old(LinkTest(mw, head, tail)) ==> Chain(head, tail, s, safe))
              && (old(!UnsafeLinks(mw, safe) && LinkTest(mw, head, tail)) ==> unchanged(mw))
    // or for a stranger
    ensures mw != null && mw in safe && mw !in s && s != [] &&
            old(InDoubt(head, tail, s, safe, mw, numCur, statCur) && mw.check == mw.Chkval()) ==>
              && unchanged(mw) && v != NoReturn
              && (v == WildRead <==> (mw.prev != null && mw.prev !in safe) || (mw.next != null && mw.next !in safe))
              && (v == Owned <==> v != WildRead && (LinkTest(mw, head, tail) || |s| == numCur))
  {
    hide Accounts, TotalBytes, CheckValue, ChainExcept, UnsafeLinks, LinkTest;
    errors := errors0;
    v := NotOwned;
    EndsOf(head, tail, s, safe, mw);
    if mw == null || mw !in safe { return; }
    HoldingWhat(head, tail, s, safe, mw);
    if head == null && tail == null && statCur == 0 { return; }
    if mw.check != mw.Chkval() {
      var owned := TrustChain(mw, head, tail, safe, s);
      if owned {
        ghost var t: seq<Block> :| ChainHolding(head, tail, t, safe, mw);
        assert ChainHolding(head, tail, t, safe, null);
        v, errors := Owned, errors + 1;
      }
      return;
    }
    v := TrustLinks(mw, head, tail, safe, numCur, statCur, s);
    LeadsNowhere(mw, safe);
    if v == NotOwned { errors := errors + 1; }
  }

  /** A block that is not on the chain, vouched for by two neighbours that are not either.
      (The chain block is no-man's-land, so the count of live blocks plays no part.) */
  method VouchedForByStrangers() returns (h: Block, x: Block, safe: set<Block>, owned: bool)
    ensures Chain(h, h, [h], safe) && h.nml && x in safe && x != h && owned
  {
    hide Chain, ChainExcept, CheckValue, Accounts, TotalBytes, LinkTest, UnsafeLinks;
    h, x, safe := Strangers();
    SingleAccount(h);
    var v, errors;
    v, errors := IsOwned(x, h, h, safe, 0, 0, 0, [h]);
    owned := v == Owned;
  }

  /** The chain of h alone, and a stranger x between two more. */
  method Strangers() returns (h: Block, x: Block, safe: set<Block>)
    ensures Chain(h, h, [h], safe) && ChainExcept(h, h, [h], safe, x) && h.nml && x in safe && x != h
    ensures fresh(h) && fresh(x) && x.check == x.Chkval() && LinkTest(x, h, h) && !UnsafeLinks(x, safe)
  {
    hide CheckValue;
    var mem := new Byte[0];
    h := new Block(mem, 1, 5, 10, null);
    x := new Block(mem, 2, 6, 20, null);
    var a := new Block(mem, 3, 7, 30, x);
    var b := new Block(mem, 4, 8, 40, null);
    h.nml, x.prev, x.next, b.prev := true, a, b, x;
    safe := {h, x, a, b};
  }

  /** A block that is not on the chain and has no neighbours: the search for it fails, and
      the repair that follows reports success because nothing needed repair. */
  method AcceptedByRepair() returns (h: Block, x: Block, owned: bool)
    ensures Chain(h, h, [h], {h, x}) && x != h && x.prev == x.next == null && owned
  {
    hide CheckValue, Accounts, TotalBytes, LiveCount, LiveBytes;
    var mem := new Byte[0];
    h := new Block(mem, 1, 5, 10, null);
    x := new Block(mem, 2, 6, 20, null);
    ghost var s := [h];
    SingleAccount(h);
    assert Chain(h, h, s, {h, x});
    var v, errors;
    v, errors := IsOwned(x, h, h, {h, x}, 1, 5, 0, s);
    owned := v == Owned;
  }

  /** A stranger with a right check value and a pointer to nowhere: the code follows it. */
  method FollowsWildPointer() returns (v: Verdict)
    ensures v == WildRead
  {
    hide CheckValue, Chain, ChainExcept, Accounts, TotalBytes, LiveCount, LiveBytes, LinkTest, UnsafeLinks;
    var h, x := WildStranger();
    SingleAccount(h);
    LeadsNowhere(x, {h, x});
    var errors;
    v, errors := IsOwned(x, h, h, {h, x}, 1, h.size, 0, [h]);
  }

  method WildStranger() returns (h: Block, x: Block)
    ensures fresh(x) && ChainExcept(h, h, [h], {h, x}, x) && x != h
    ensures x.check == x.Chkval() && UnsafeLinks(x, {h, x})
  {
    hide CheckValue;
    var mem := new Byte[0];
    h := new Block(mem, 1, 5, 10, null);
    var wild := new Block(mem, 3, 7, 30, null);
    x := new Block(mem, 2, 6, 20, wild);
  }

  /** The linking step of mwMalloc. */
  method Prepend(mw: Block, head: Block?, tail: Block?, safe: set<Block>, ghost s: seq<Block>)
    returns (tail': Block)
    requires Chain(head, tail, s, safe) && mw !in safe && mw.prev == null && mw.next == head
    modifies s`prev
    ensures Chain(mw, tail', [mw] + s, safe + {mw})
  {
    assert mw !in s;
    if head != null { head.prev := mw; }
    tail' := if tail == null then mw else tail;
  }

  lemma AccountsPrepend(mw: Block, s: seq<Block>)
    ensures TotalBytes(Accounts([mw] + s)) == TotalBytes(Accounts(s)) + mw.size
    ensures LiveCount(Accounts([mw] + s)) == LiveCount(Accounts(s)) + (if mw.nml then 0 else 1)
    ensures LiveBytes(Accounts([mw] + s)) == LiveBytes(Accounts(s)) + (if mw.nml then 0 else mw.size)
  {
    var a := Account(mw.size, mw.nml);
    assert Accounts([mw] + s) == [a] + Accounts(s);
    LiveConcat([a], Accounts(s));
  }

  lemma AccountsWithout(mw: Block, s: seq<Block>)
    requires Distinct(s) && mw in s
    ensures TotalBytes(Accounts(s)) == TotalBytes(Accounts(Without(s, mw))) + mw.size
    ensures LiveCount(Accounts(s)) == LiveCount(Accounts(Without(s, mw))) + (if mw.nml then 0 else 1)
    ensures LiveBytes(Accounts(s)) == LiveBytes(Accounts(Without(s, mw))) + (if mw.nml then 0 else mw.size)
  {
    hide Without, Accounts, LiveCount, LiveBytes, TotalBytes;
    var i := Pos(s, mw);
    WithoutAt(s, mw, i);
    AccountRemoved(Accounts(s), i);
    assert Accounts(Without(s, mw)) == Accounts(s)[..i] + Accounts(s)[i + 1..];
  }
}
