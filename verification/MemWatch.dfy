/** memwatch.c: allocation, release and their accounting, over the chain of MwChain. */
module MemWatch {
  import opened Bits
  import opened Lists
  import opened Machine
  import opened MwChain

  const ZONE := 8
  const DATA_SIZE := 56 // sizeof(mwData) with 8-byte pointers and longs
  const TEMPLATE: seq<Byte> := [0x6D, 0x45, 0x6D, 0x77, 0x41, 0x74, 0x63, 0x68] // "mEmwAtch"
  const VAL_NEW: Byte := 0xFE
  const VAL_DEL: Byte := 0xFD
  const VAL_NML: Byte := 0xFC
  // The header fields of a block overwritten with VAL_DEL; line is an int, widened to a long.
  const DEL_WORD: nat := 0xFDFD_FDFD_FDFD_FDFD
  const DEL_LINE: nat := 0xFFFF_FFFF_FDFD_FDFD

  /** The cast from size_t to long. */
  function ToLong(size: nat): int {
    if size < SIZE_LIMIT / 2 then size else size - SIZE_LIMIT
  }

  ghost function MaxOf(h: seq<int>): (m: int)
    ensures m >= 0 && (m == 0 || m in h)
    ensures forall i :: 0 <= i < |h| ==> h[i] <= m
  {
    if h == [] then 0
    else
      var m := MaxOf(h[..|h| - 1]);
      if h[|h| - 1] > m then h[|h| - 1] else m
  }

  method WriteOF(mem: array<Byte>, at: nat)
    requires at + ZONE <= mem.Length
    modifies mem
    ensures mem[at..at + ZONE] == TEMPLATE
    ensures forall k :: 0 <= k < mem.Length && (k < at || at + ZONE <= k) ==> mem[k] == old(mem[k])
  {
    for i := 0 to ZONE
      invariant forall j :: 0 <= j < i ==> mem[at + j] == TEMPLATE[j]
      invariant forall k :: 0 <= k < mem.Length && (k < at || at + ZONE <= k) ==> mem[k] == old(mem[k])
    {
      mem[at + i] := TEMPLATE[i % 8];
    }
    assert forall j :: 0 <= j < ZONE ==> mem[at..at + ZONE][j] == TEMPLATE[j];
  }

  method CheckOF(mem: array<Byte>, at: nat) returns (damaged: bool)
    requires at + ZONE <= mem.Length
    ensures damaged <==> mem[at..at + ZONE] != TEMPLATE
  {
    for i := 0 to ZONE
      invariant forall j :: 0 <= j < i ==> mem[at + j] == TEMPLATE[j]
    {
      if mem[at + i] != TEMPLATE[i % 8] {
        assert mem[at..at + ZONE][i] != TEMPLATE[i];
        return true;
      }
    }
    return false;
  }

  /** The memory of a block has room for two guard zones and its user data. */
  predicate Sized(b: Block)
    reads b`size
  {
    b.mem.Length == 2 * ZONE + b.size
  }

  ghost predicate Guarded(b: Block)
    requires Sized(b)
    reads b`size, b.mem
  {
    b.mem[..ZONE] == TEMPLATE && b.mem[ZONE + b.size..] == TEMPLATE
  }

  /** The guard tests of mwTestBuf. */
  method TestGuards(b: Block) returns (damaged: bool, zones: nat)
    requires Sized(b)
    ensures damaged <==> b.mem[..ZONE] != TEMPLATE || b.mem[b.mem.Length - ZONE..] != TEMPLATE
    ensures (damaged <==> !Guarded(b)) && (zones > 0 <==> damaged)
  {
    var under := CheckOF(b.mem, 0);
    var over := CheckOF(b.mem, ZONE + b.size);
    damaged := under || over;
    zones := (if under then 1 else 0) + (if over then 1 else 0);
  }

  /** Fresh memory for size bytes of user data: guard zones at both ends, VAL_NEW between. */
  method NewMemory(size: nat) returns (mem: array<Byte>)
    ensures fresh(mem) && mem.Length == 2 * ZONE + size
    ensures mem[..ZONE] == TEMPLATE && mem[ZONE + size..] == TEMPLATE
    ensures forall i :: ZONE <= i < ZONE + size ==> mem[i] == VAL_NEW
  {
    mem := new Byte[2 * ZONE + size](_ => VAL_NEW);
    WriteOF(mem, 0);
    ghost var under := mem[..ZONE];
    WriteOF(mem, ZONE + size);
    assert mem[..ZONE] == under;
    assert mem[ZONE + size..] == mem[ZONE + size..ZONE + size + ZONE];
  }

  /** A block as mwMalloc hands it out. */
  ghost predicate NewBlock(p: Block, size: nat, line: nat)
    reads p, p.mem
  {
    && p.size == size && p.line == line && !p.nml && Sized(p) && Guarded(p)
    && forall i :: ZONE <= i < ZONE + size ==> p.mem[i] == VAL_NEW
  }

  /** Every byte of such a block, and its header. */
  lemma NewBlockIs(p: Block, size: nat, line: nat)
    requires NewBlock(p, size, line)
    ensures p.size == size && p.line == line && !p.nml && p.mem.Length == 8 + size + 8
    ensures p.mem[..8] == p.mem[8 + size..] == TEMPLATE
    ensures forall i :: 8 <= i < 8 + size ==> p.mem[i] == 0xFE
  {
  }

  /** The template is the text mEmwAtch. */
  lemma TemplateText()
    ensures |TEMPLATE| == ZONE == |"mEmwAtch"| && forall i :: 0 <= i < ZONE ==> TEMPLATE[i] as char == "mEmwAtch"[i]
  {
  }

  ghost predicate Genuine(s: seq<Block>)
    reads s`count, s`size, s`line, s`check
  {
    forall i :: 0 <= i < |s| ==>
      && s[i].check == CheckValue(s[i].count, s[i].size, s[i].line)
      && Sized(s[i]) && s[i].size < SIZE_LIMIT / 2
  }

  /** A block that mwFreeUp has given back keeps its whole header; only the links that led
      to it are gone. */
  ghost predicate GivenBack(b: Block, safe: set<Block>)
    requires b in safe
    reads safe
  {
    b.nml && Sized(b) && !UnsafeLinks(b, safe) && (b.prev != null ==> b.prev.next != b)
  }

  /** Every readable block that is not on the chain (and is not x) fails its check or was
      given back by mwFreeUp. */
  ghost predicate NoImpostor(s: seq<Block>, safe: set<Block>, x: Block?)
    reads safe
  {
    forall b :: b in safe && b !in s && b != x ==>
      b.check != CheckValue(b.count, b.size, b.line) || GivenBack(b, safe)
  }

  /** The no-man's-land blocks of a chain. */
  ghost function NmlOf(s: seq<Block>): (dead: set<Block>)
    reads s`nml
    ensures forall i :: 0 <= i < |s| ==> (s[i] in dead <==> s[i].nml)
  {
    set b | b in s && b.nml
  }

  /** s without the first k of its dead blocks. */
  ghost function Drained(s: seq<Block>, dead: set<Block>, k: nat): (r: seq<Block>) {
    if s == [] || k == 0 then s
    else if s[0] in dead then Drained(s[1..], dead, k - 1)
    else [s[0]] + Drained(s[1..], dead, k)
  }

  /** What draining leaves: an order-keeping part of s with every block that is not dead. */
  lemma {:induction false} DrainedKeeps(s: seq<Block>, dead: set<Block>, k: nat)
    requires Distinct(s)
    ensures var r := Drained(s, dead, k);
      && Distinct(r)
      && (forall i :: 0 <= i < |r| ==> r[i] in s)
      && (forall i :: 0 <= i < |s| && s[i] !in dead ==> s[i] in r)
  {
    if s != [] && k > 0 {
      var rest := s[1..];
      assert forall i :: 0 <= i < |rest| ==> rest[i] == s[i + 1];
      DrainedKeeps(rest, dead, if s[0] in dead then k - 1 else k);
      assert forall i :: 0 < i < |s| ==> s[i] == rest[i - 1];
    }
  }

  /** It takes the first k, or all there are: a dead block that stays stands behind all that
      go, and k less have stayed unless no dead block has. */
  lemma {:induction false} DrainedFromFront(s: seq<Block>, dead: set<Block>, k: nat)
    requires Distinct(s)
    ensures forall i, j :: 0 <= i < j < |s| && s[i] in dead && s[j] in dead && s[i] in Drained(s, dead, k) ==>
              s[j] in Drained(s, dead, k)
    ensures |Drained(s, dead, k)| + k >= |s| && |Drained(s, dead, k)| <= |s|
    ensures |Drained(s, dead, k)| + k > |s| ==> forall x :: x in Drained(s, dead, k) ==> x !in dead
  {
    if s != [] && k > 0 {
      var rest, m := s[1..], if s[0] in dead then k - 1 else k;
      assert forall i :: 0 <= i < |rest| ==> rest[i] == s[i + 1];
      DrainedFromFront(rest, dead, m);
      DrainedKeeps(rest, dead, m);
    }
  }

  /** The blocks that stay are in their old order. */
  lemma {:induction false} DrainedInOrder(s: seq<Block>, dead: set<Block>, k: nat)
    requires Distinct(s)
    ensures forall i, j :: 0 <= i < j < |Drained(s, dead, k)| ==>
              && Drained(s, dead, k)[i] in s && Drained(s, dead, k)[j] in s
              && Pos(s, Drained(s, dead, k)[i]) < Pos(s, Drained(s, dead, k)[j])
  {
    var r := Drained(s, dead, k);
    if s != [] && k > 0 {
      var rest, m := s[1..], if s[0] in dead then k - 1 else k;
      var r' := Drained(rest, dead, m);
      DrainedInOrder(rest, dead, m);
      DrainedKeeps(rest, dead, m);
      Ascending(s, r');
      if s[0] !in dead {
        forall i, j | 0 <= i < j < |r| ensures r[i] in s && r[j] in s && Pos(s, r[i]) < Pos(s, r[j]) {
          assert r[j] == r'[j - 1] && (i > 0 ==> r[i] == r'[i - 1]);
        }
      }
    }
  }

  lemma Ascending(s: seq<Block>, r: seq<Block>)
    requires Distinct(s) && s != [] && forall i :: 0 <= i < |r| ==> r[i] in s[1..]
    requires forall i, j :: 0 <= i < j < |r| ==> Pos(s[1..], r[i]) < Pos(s[1..], r[j])
    ensures forall i :: 0 <= i < |r| ==> r[i] in s && Pos(s, r[i]) > 0 == Pos(s, s[0])
    ensures forall i, j :: 0 <= i < j < |r| ==> Pos(s, r[i]) < Pos(s, r[j])
  {
    forall i | 0 <= i < |r| ensures r[i] in s && Pos(s, r[i]) == Pos(s[1..], r[i]) + 1 {
      assert s[Pos(s[1..], r[i]) + 1] == r[i];
    }
    assert Pos(s, s[0]) == 0;
  }

  /** The k-th block is about to be drained, and the walk stands at i of what is left. */
  ghost predicate DrainedTo(all: seq<Block>, dead: set<Block>, k: nat, s: seq<Block>, i: nat) {
    i <= |s| && forall m: nat :: Drained(all, dead, k + m) == s[..i] + Drained(s[i..], dead, m)
  }

  lemma StartDraining(all: seq<Block>, dead: set<Block>)
    ensures DrainedTo(all, dead, 0, all, 0)
  {
    assert all[0..] == all;
  }

  lemma DrainLive(all: seq<Block>, dead: set<Block>, k: nat, s: seq<Block>, i: nat)
    requires DrainedTo(all, dead, k, s, i) && i < |s| && s[i] !in dead
    ensures DrainedTo(all, dead, k, s, i + 1)
  {
    var t, front := s[i + 1..], s[..i + 1];
    assert s[i..][0] == s[i] && s[i..][1..] == t && s[i..] == [s[i]] + t && front == s[..i] + [s[i]];
    forall m: nat ensures Drained(all, dead, k + m) == front + Drained(t, dead, m) {
      assert Drained(s[i..], dead, m) == [s[i]] + Drained(t, dead, m);
      Associative(s[..i], [s[i]], Drained(t, dead, m));
    }
  }

  lemma DrainDead(all: seq<Block>, dead: set<Block>, k: nat, s: seq<Block>, i: nat)
    requires DrainedTo(all, dead, k, s, i) && i < |s| && s[i] in dead
    ensures DrainedTo(all, dead, k + 1, s[..i] + s[i + 1..], i)
  {
    var t := s[..i] + s[i + 1..];
    assert t[..i] == s[..i] && t[i..] == s[i + 1..] == s[i..][1..];
    forall m: nat ensures Drained(all, dead, k + 1 + m) == t[..i] + Drained(t[i..], dead, m) {
      assert Drained(all, dead, k + (1 + m)) == s[..i] + Drained(s[i..], dead, 1 + m);
    }
  }

  lemma DrainDone(all: seq<Block>, dead: set<Block>, k: nat, s: seq<Block>, i: nat)
    requires DrainedTo(all, dead, k, s, i)
    ensures Drained(all, dead, k) == s
  {
    hide Drained, DrainedTo;
    DrainedBy(all, dead, k, s, i, 0);
    NothingDrained(s[i..], dead);
    Rejoined(s, i);
  }

  lemma DrainedBy(all: seq<Block>, dead: set<Block>, k: nat, s: seq<Block>, i: nat, m: nat)
    requires DrainedTo(all, dead, k, s, i)
    ensures i <= |s| && Drained(all, dead, k + m) == s[..i] + Drained(s[i..], dead, m)
  {
  }

  lemma Rejoined(s: seq<Block>, i: nat)
    requires i <= |s|
    ensures s[..i] + s[i..] == s
  {
  }

  lemma NothingDrained(s: seq<Block>, dead: set<Block>)
    ensures Drained(s, dead, 0) == s
  {
  }

  /** The block at a position, or null past the end. */
  function At(s: seq<Block>, i: nat): Block? {
    if i < |s| then s[i] else null
  }

  lemma WithoutIs(s: seq<Block>, x: Block, i: nat)
    requires Distinct(s) && i < |s| && s[i] == x
    ensures Without(s, x) == s[..i] + s[i + 1..]
  {
    assert Pos(s, x) == i;
  }

  /** The first of the calls i..n of malloc that succeeds, or n + 1. */
  function FirstGrant(grants: nat -> bool, i: nat, n: nat): (k: nat)
    requires i <= n + 1
    ensures i <= k <= n + 1 && (k <= n ==> grants(k)) && (forall j :: i <= j < k ==> !grants(j))
    decreases n + 1 - i
  {
    if i == n + 1 || grants(i) then i else FirstGrant(grants, i + 1, n)
  }

  /** The answers of malloc to requests for a block of size bytes of user data: no object is
      larger than LONG_MAX. */
  function System(grants: nat -> bool, size: nat): nat -> bool {
    if size < SIZE_LIMIT / 2 then grants else (i: nat) => false
  }

  /** How many of n no-man's-land blocks mwMalloc has mwFreeUp give back, and whether it
      gets its memory in the end. */
  function FreedUp(grants: nat -> bool, n: nat): (k: nat)
    ensures k <= n
  {
    if grants(0) || FirstGrant(grants, 1, n) > n then (if grants(0) then 0 else n) else FirstGrant(grants, 1, n)
  }

  /** What malloc's answers come to: granted at once; granted again after the k-th block is
      given back and malloc has succeeded for the first time; or refused to the end. */
  lemma Answers(grants: nat -> bool, n: nat)
    ensures grants(0) ==> Obtained(grants, n) && FreedUp(grants, n) == 0
    ensures forall k: nat :: 1 <= k <= n && grants(k) && (forall j :: 0 <= j < k ==> !grants(j)) ==>
              (Obtained(grants, n) <==> grants(k + 1)) && FreedUp(grants, n) == k
    ensures (forall j :: 0 <= j <= n ==> !grants(j)) ==> !Obtained(grants, n) && FreedUp(grants, n) == n
  {
  }

  /** So many blocks are given back before malloc succeeds, or all, and then one call decides. */
  lemma FreedUpIs(grants: nat -> bool, n: nat)
    ensures var k := FreedUp(grants, n);
      && k <= n && (forall j :: 0 <= j < k ==> !grants(j)) && (k < n ==> grants(k))
      && (Obtained(grants, n) <==> grants(k) && (k > 0 ==> grants(k + 1)))
  {
  }

  lemma SystemAnswers(grants: nat -> bool, size: nat)
    ensures forall i :: System(grants, size)(i) <==> grants(i) && size < SIZE_LIMIT / 2
    ensures size < SIZE_LIMIT / 2 ==> System(grants, size) == grants && ToLong(size) == size
  {
  }

  lemma SmallEnough(size: nat, grants: nat -> bool, n: nat)
    ensures Obtained(System(grants, size), n) ==> size < SIZE_LIMIT / 2
  {
  }

  predicate Obtained(grants: nat -> bool, n: nat) {
    grants(0) || (FirstGrant(grants, 1, n) <= n && grants(FirstGrant(grants, 1, n) + 1))
  }

  class MemWatch {
    var head: Block?
    var tail: Block?
    var safe: set<Block> // the addresses that mwIsSafeAddr accepts
    var numCur: int
    var statCur: int
    var statMax: int
    var statTot: int
    var statNum: int
    var nmlNum: int
    var nmlCur: int
    var useLimit: bool
    var limit: int
    var keepNml: bool
    var counter: nat
    var errors: nat
    ghost var chain: seq<Block>
    ghost var history: seq<int> // every value statCur has taken
    ghost var drained: nat // blocks that mwFreeUp has given back,
    ghost var drainedBytes: nat // and their bytes
    const wild: Block // where the links of a wiped block lead

    /** The bookkeeping agrees with the chain. The no-man's-land counters do not: they still
        count what mwFreeUp has given back. */
    ghost predicate Accounted()
      reads this`chain, this`numCur, this`statCur, this`statMax, this`history, chain`size, chain`nml
      reads this`nmlNum, this`nmlCur, this`drained, this`drainedBytes
    {
      && numCur == LiveCount(Accounts(chain))
      && statCur == LiveBytes(Accounts(chain))
      && nmlNum == |chain| - numCur + drained
      && nmlCur == TotalBytes(Accounts(chain)) - statCur + drainedBytes
      && statMax == MaxOf(history)
      && statCur == (if history == [] then 0 else history[|history| - 1])
    }

    /** Intact memory: the chain is whole, its headers are genuine, and no other
        readable block looks genuine unless mwFreeUp has given it back. */
    ghost predicate Valid()
      reads this`head, this`tail, this`safe, this`chain, this`numCur, this`statCur, this`statMax, this`history
      reads this`nmlNum, this`nmlCur, this`drained, this`drainedBytes
      reads chain, safe
    {
      && Chain(head, tail, chain, safe)
      && Accounted()
      && Genuine(chain)
      && NoImpostor(chain, safe, null) && wild !in safe
    }

    /** A block that mwIsOwned takes for its own although it is not: given back by mwFreeUp,
        and there is no no-man's-land block left on the chain. */
    ghost predicate Mistaken(p: Block)
      reads this`chain, this`safe, this`numCur, p
    {
      p in safe && p !in chain && p.check == p.Chkval() && |chain| == numCur && chain != []
    }

    ghost predicate WithinLimit()
      reads this`useLimit, this`limit, this`statCur
    {
      useLimit ==> statCur <= limit
    }

    constructor ()
      ensures Valid() && chain == [] && history == [] && safe == {} && drained == 0 && !useLimit && !keepNml
      ensures numCur == statCur == statTot == statNum == 0 && fresh(wild)
    {
      head, tail, safe, chain, history := null, null, {}, [], [];
      numCur, statCur, statMax, statTot, statNum, nmlNum, nmlCur := 0, 0, 0, 0, 0, 0, 0;
      drained, drainedBytes := 0, 0;
      var mem := new Byte[0];
      wild := new Block(mem, 0, 0, 0, null);
      useLimit, limit, keepNml, counter, errors := false, 0, false, 0, 0;
    }

    /** mwLimit. */
    method Limit(lim: int)
      requires Valid()
      modifies this`useLimit, this`limit
      ensures Valid() && limit == lim && (useLimit <==> lim != 0)
    {
      hide Valid, Chain, ChainExcept, Genuine, NoImpostor, Accounts, LiveCount, LiveBytes, Accounted;
      useLimit := lim != 0;
      limit := lim;
    }

    /** mwNoMansLand, levels 0 to 2 (other levels change nothing); grabbing is not modelled. */
    method NoMansLand(level: int)
      requires Valid()
      modifies this`keepNml
      ensures Valid() && keepNml == if 0 <= level <= 2 then level != 0 else old(keepNml)
    {
      hide Valid;
      if 0 <= level <= 2 { keepNml := level != 0; }
    }

    /** On intact memory mwIsOwned is membership in the chain, but for blocks given back by
        mwFreeUp, and touches nothing. */
    method Owns(p: Block?) returns (owned: bool)
      requires Valid()
      modifies this`errors, if p == null then {} else {p}
      ensures owned <==> p != null && (p in chain || Mistaken(p))
      ensures Valid() && errors >= old(errors)
      ensures p != null ==> unchanged(p)
    {
      hide Valid, Chain, ChainExcept, LinkTest;
      IntactBut(p);
      var v;
      v, errors := IsOwned(p, head, tail, safe, numCur, statCur, errors, chain);
      owned := v == Owned;
    }

    lemma IntactBut(x: Block?)
      requires Valid()
      ensures ChainExcept(head, tail, chain, safe, x) && Balanced(chain, numCur, statCur) && Distinct(chain)
      ensures x != null && x in chain ==> LinkTest(x, head, tail) && Chain(head, tail, chain, safe)
      ensures x != null && x in chain ==> x in safe && x.check == x.Chkval() && !UnsafeLinks(x, safe) && Sized(x)
      ensures x != null && x in safe && x !in chain ==>
                x.check != x.Chkval() || (x.nml && Sized(x) && !UnsafeLinks(x, safe) && !LinkTest(x, head, tail))
    {
      hide Accounts, LiveCount, MaxOf;
      AllLive(Accounts(chain));
      if x != null && x in chain { LinkedInChain(head, tail, chain, safe, x); }
    }

    /** mwTestBuf, on a block that mwIsOwned has accepted: logs what is wrong with its links
        and guard zones and changes nothing else. */
    method TestBuf(p: Block)
      requires Valid() && (p in chain || Mistaken(p))
      modifies this`errors, p
      ensures Valid() && unchanged(p) && errors >= old(errors)
      ensures p in chain ==> (errors == old(errors) <==> Guarded(p))
    {
      hide Valid;
      IntactBut(p);
      TestLinks(p);
      var damaged, zones := TestGuards(p);
      errors := errors + zones;
    }

    /** The link tests of mwTestBuf; the check value is right, mwIsOwned has seen to that. */
    method TestLinks(p: Block)
      requires Valid() && (p in chain || Mistaken(p))
      modifies this`errors, p
      ensures Valid() && unchanged(p) && errors >= old(errors)
      ensures p in chain ==> errors == old(errors)
    {
      hide Valid, Chain, ChainExcept, Accounts, TotalBytes;
      IntactBut(p);
      if p.prev != null && p.prev.next != p {
        errors := errors + 1;
        var _ := Relink(p, head, tail, safe, numCur, statCur, chain);
      }
      if p.next != null && p.next.prev != p {
        errors := errors + 1;
        var _ := Relink(p, head, tail, safe, numCur, statCur, chain);
      }
    }

    /** mwTestMem. */
    method TestMem(p: Block) returns (damaged: bool)
      requires Sized(p)
      ensures damaged <==> exists i :: ZONE <= i < ZONE + p.size && p.mem[i] != VAL_NML
    {
      for i := ZONE to ZONE + p.size
        invariant forall j :: ZONE <= j < i ==> p.mem[j] == VAL_NML
      {
        if p.mem[i] != VAL_NML { return true; }
      }
      return false;
    }

    /** One round of mwFreeUp: a no-man's-land block is given back as it is. */
    method GiveBack(p: Block)
      requires Valid() && p in chain && p.nml
      modifies this`head, this`tail, this`chain, this`drained, this`drainedBytes, chain`prev, chain`next
      ensures Valid() && chain == Without(old(chain), p) && |chain| == |old(chain)| - 1 && p !in chain
      ensures drained == old(drained) + 1 && drainedBytes == old(drainedBytes) + p.size
    {
      hide Valid, Chain, Genuine, NoImpostor, LiveCount, LiveBytes, TotalBytes, Accounts, Without, MaxOf, Sized;
      SafeAndSized(p);
      Parts();
      ghost var bytes := TotalBytes(Accounts(chain));
      RemoveAsItIs(p);
      drained, drainedBytes := drained + 1, drainedBytes + p.size;
      assert nmlCur == bytes - p.size - statCur + drainedBytes;
      Whole();
    }

    lemma Parts()
      requires Valid()
      ensures Chain(head, tail, chain, safe) && Accounted() && Genuine(chain)
      ensures NoImpostor(chain, safe, null) && wild !in safe
    {
    }

    lemma Whole()
      requires Chain(head, tail, chain, safe) && Accounted() && Genuine(chain)
      requires NoImpostor(chain, safe, null) && wild !in safe
      ensures Valid()
    {
    }

    lemma SafeAndSized(p: Block)
      requires Valid() && p in chain
      ensures p in safe && Sized(p)
    {
      IntactBut(p);
    }

    method RemoveAsItIs(p: Block)
      requires Chain(head, tail, chain, safe) && Genuine(chain) && NoImpostor(chain, safe, null)
      requires p in chain && p.nml && p in safe && Sized(p)
      modifies this`head, this`tail, this`chain, chain`prev, chain`next
      ensures Chain(head, tail, chain, safe) && Genuine(chain) && NoImpostor(chain, safe, null)
      ensures chain == Without(old(chain), p) && |chain| == |old(chain)| - 1 && p !in chain
      ensures LiveCount(Accounts(chain)) == old(LiveCount(Accounts(chain)))
      ensures LiveBytes(Accounts(chain)) == old(LiveBytes(Accounts(chain)))
      ensures TotalBytes(Accounts(chain)) == old(TotalBytes(Accounts(chain))) - p.size
    {
      hide Chain, ChainExcept, Genuine, NoImpostor, LiveCount, LiveBytes, TotalBytes, Accounts, Without, CheckValue;
      IsDistinct(p);
      AccountsWithout(p, chain);
      StillGenuineWithout(p, chain);
      ghost var rest := Without(chain, p);
      ghost var a := Accounts(rest);
      assert Genuine(rest);
      LinkOut(p);
      assert chain == rest && Genuine(rest) && Accounts(rest) == a;
      GivenBackIsNoImpostor(p, chain, safe);
    }

    /** mwFreeUp, not urgent and with nothing grabbed: from the front of the chain, one
        no-man's-land block after the other until malloc succeeds. */
    method FreeUp(grants: nat -> bool, ghost n: nat) returns (ok: bool, calls: nat)
      requires Valid() && n == |chain| - numCur
      modifies this`head, this`tail, this`chain, this`errors, this`drained, this`drainedBytes, chain`prev, chain`next
      ensures Valid() && errors >= old(errors)
      ensures ok <==> FirstGrant(grants, 1, n) <= n
      ensures calls == if ok then FirstGrant(grants, 1, n) else n
      ensures drained == old(drained) + calls && |chain| == |old(chain)| - calls
      ensures chain == Drained(old(chain), old(NmlOf(chain)), calls)
    {
      hide Valid, Chain, ChainExcept, Drained, Draining, Without, NmlOf;
      ghost var all, dead := chain, NmlOf(chain);
      calls := 0;
      ghost var i := 0;
      StartDraining(all, dead);
      StartSweep(dead);
      Walk(i);
      var mw := head;
      while mw != null
        invariant Valid() && errors >= old(errors)
        invariant mw == At(chain, i) && Draining(all, dead, calls, i)
        invariant drained == old(drained) + calls && calls <= n
        invariant forall j :: 1 <= j <= calls ==> !grants(j)
        decreases |chain| - i
      {
        Walk(i);
        Stage(all, dead, calls, i);
        var mw2 := mw.next;
        if !mw.nml {
          Skip(all, dead, calls, i);
          i := i + 1;
        } else {
          Shed(mw, i, all, dead, calls);
          calls := calls + 1;
          Stage(all, dead, calls, i);
          if grants(calls) {
            ok := true;
            return;
          }
        }
        mw := mw2;
      }
      Walk(i);
      Stage(all, dead, calls, i);
      ok := false;
    }

    /** How far mwFreeUp has come: calls blocks are gone, and the walk stands at i. */
    ghost predicate Draining(all: seq<Block>, dead: set<Block>, calls: nat, i: nat)
      reads this`chain, chain`nml
    {
      && i <= |chain| && |chain| == |all| - calls && DrainedTo(all, dead, calls, chain, i)
      && (forall j :: 0 <= j < i ==> !chain[j].nml)
      && (forall j :: 0 <= j < |chain| ==> chain[j] in all && (chain[j].nml <==> chain[j] in dead))
    }

    lemma StartSweep(dead: set<Block>)
      requires dead == NmlOf(chain) && DrainedTo(chain, dead, 0, chain, 0)
      ensures Draining(chain, dead, 0, 0)
    {
    }

    lemma Stage(all: seq<Block>, dead: set<Block>, calls: nat, i: nat)
      requires Draining(all, dead, calls, i)
      ensures i <= |chain| && |chain| == |all| - calls && chain == Drained(all, dead, calls)
      ensures (forall j :: 0 <= j < i ==> !chain[j].nml) && (forall j :: 0 <= j < |chain| ==> chain[j] in all)
    {
      hide Drained;
      DrainDone(all, dead, calls, chain, i);
    }

    lemma Skip(all: seq<Block>, dead: set<Block>, calls: nat, i: nat)
      requires Draining(all, dead, calls, i) && i < |chain| && !chain[i].nml
      ensures Draining(all, dead, calls, i + 1)
    {
      hide DrainedTo;
      DrainLive(all, dead, calls, chain, i);
    }

    /** The body of the loop of mwFreeUp for a no-man's-land block. */
    method Shed(mw: Block, ghost i: nat, ghost all: seq<Block>, ghost dead: set<Block>, ghost calls: nat)
      requires Valid() && Draining(all, dead, calls, i) && i < |chain| && mw == chain[i] && mw.nml
      modifies this`head, this`tail, this`chain, this`errors, this`drained, this`drainedBytes, chain`prev, chain`next
      ensures Valid() && Draining(all, dead, calls + 1, i) && At(chain, i) == old(At(chain, i + 1))
      ensures drained == old(drained) + 1 && errors >= old(errors)
    {
      hide Valid, Chain, ChainExcept, Drained, DrainedTo, Without, NmlOf;
      SafeAndSized(mw);
      Walk(i);
      var damaged := TestMem(mw);
      if damaged { errors := errors + 1; }
      ghost var s := chain;
      WithoutIs(s, mw, i);
      DrainDead(all, dead, calls, s, i);
      GiveBack(mw);
      assert chain == s[..i] + s[i + 1..];
      forall j | 0 <= j < |chain|
        ensures chain[j] in all && (chain[j].nml <==> chain[j] in dead) && (j < i ==> !chain[j].nml)
      {
        assert chain[j] == s[if j < i then j else j + 1];
      }
    }

    lemma Counters()
      requires Valid()
      ensures nmlNum == |chain| - numCur + drained
    {
    }

    /** What a walk along the chain needs to know at position i. */
    lemma Walk(i: nat)
      requires Valid()
      ensures Distinct(chain) && head == At(chain, 0) && (i < |chain| ==> chain[i].next == At(chain, i + 1))
      ensures |chain| >= numCur && (|chain| == numCur <==> forall j :: 0 <= j < |chain| ==> !chain[j].nml)
    {
      hide LiveCount, LiveBytes, TotalBytes, MaxOf;
      AllLive(Accounts(chain));
      assert i < |chain| ==> chain[i].next == After(chain, i);
    }

    /** The size does not overflow with its overhead, and the total would not exceed the limit. */
    predicate Possible(size: nat, total: int)
      reads this`useLimit, this`limit
    {
      DATA_SIZE + 2 * ZONE + size < SIZE_LIMIT && !(useLimit && total > limit)
    }

    /** The number of no-man's-land blocks on the chain. */
    ghost function Spare(): nat
      reads this`chain, this`numCur
    {
      if |chain| >= numCur then |chain| - numCur else 0
    }

    /** A request for size bytes that takes usage to total gets its memory. grants(i) is the
        system's answer to the i-th call of malloc: the first, one after each block that
        mwFreeUp gives back, and a last one. */
    ghost predicate Succeeds(size: nat, total: int, grants: nat -> bool)
      reads this`useLimit, this`limit, this`chain, this`numCur
    {
      Possible(size, total) && Obtained(System(grants, size), Spare())
    }

    /** That in terms of the limit and of malloc's answers alone, for a request that takes usage
        to total. */
    lemma Outcomes(size: nat, total: int, grants: nat -> bool)
      ensures size >= SIZE_LIMIT / 2 || (useLimit && total > limit) ==> !Succeeds(size, total, grants)
      ensures useLimit && total > limit ==> !Possible(size, total)
      ensures size < SIZE_LIMIT / 2 && !(useLimit && total > limit) ==>
                && Possible(size, total) && System(grants, size) == grants
                && var k := FreedUp(grants, Spare());
                   && k <= Spare() && (forall j :: 0 <= j < k ==> !grants(j)) && (k < Spare() ==> grants(k))
                   && (Succeeds(size, total, grants) <==> grants(k) && (k > 0 ==> grants(k + 1)))
      ensures Spare() == if |chain| >= numCur then |chain| - numCur else 0
    {
      hide Obtained, FreedUp;
      SystemAnswers(grants, size);
      SmallEnough(size, grants, Spare());
      FreedUpIs(grants, Spare());
    }

    /** The chain that such a request leaves, but for the block it enters. */
    ghost function Rest(size: nat, total: int, grants: nat -> bool): seq<Block>
      reads this`useLimit, this`limit, this`chain, this`numCur, chain`nml
    {
      Drained(chain, NmlOf(chain), if Possible(size, total) then FreedUp(System(grants, size), Spare()) else 0)
    }

    /** mwMalloc. */
    method Malloc(size: nat, line: nat, grants: nat -> bool) returns (p: Block?)
      requires Valid() && size < SIZE_LIMIT
      modifies this`head, this`tail, this`chain, this`safe, this`counter, this`errors, chain`prev, chain`next
      modifies this`numCur, this`statCur, this`statMax, this`statTot, this`statNum, this`history
      modifies this`drained, this`drainedBytes
      ensures Valid()
      ensures p != null <==> old(Succeeds(size, ToLong(size) + statCur, grants))
      ensures chain == (if p == null then [] else [p]) + old(Rest(size, ToLong(size) + statCur, grants))
      ensures |chain| == |old(chain)| + (if p == null then 0 else 1) - (drained - old(drained))
      ensures drained == old(drained) + if old(Possible(size, ToLong(size) + statCur))
                                        then FreedUp(System(grants, size), old(Spare())) else 0
      ensures p == null ==>
                statCur == old(statCur) && numCur == old(numCur) && safe == old(safe) && history == old(history)
      ensures p == null ==> statTot == old(statTot) && statNum == old(statNum)
      ensures p != null ==>
                && fresh(p) && fresh(p.mem) && safe == old(safe) + {p} && NewBlock(p, size, line)
                && numCur == old(numCur) + 1 && statCur == old(statCur) + size && history == old(history) + [statCur]
                && statTot == old(statTot) + size && statNum == old(statNum) + 1
      ensures old(WithinLimit()) ==> WithinLimit()
      // the same in terms of the limit and of malloc's answers alone
      ensures size >= SIZE_LIMIT / 2 || old(useLimit && size + statCur > limit) ==> p == null
      ensures size < SIZE_LIMIT / 2 && !old(useLimit && size + statCur > limit) ==>
                var k := drained - old(drained);
                && 0 <= k <= old(|chain| - numCur) && (forall j :: 0 <= j < k ==> !grants(j))
                && (k < old(|chain| - numCur) ==> grants(k))
                && (p != null <==> grants(k) && (k > 0 ==> grants(k + 1)))
      ensures old(useLimit ==> statCur <= limit) ==> useLimit ==> statCur <= limit
    {
      hide Valid, Rest, Succeeds, Possible, FreedUp, System, NewBlock;
      Walk(0);
      Outcomes(size, ToLong(size) + statCur, grants);
      SystemAnswers(grants, size);
      p := Request(size, line, grants);
    }

    /** The body of mwMalloc. */
    method Request(size: nat, line: nat, grants: nat -> bool) returns (p: Block?)
      requires Valid() && size < SIZE_LIMIT
      modifies this`head, this`tail, this`chain, this`safe, this`counter, this`errors, chain`prev, chain`next
      modifies this`numCur, this`statCur, this`statMax, this`statTot, this`statNum, this`history
      modifies this`drained, this`drainedBytes
      ensures Valid()
      ensures p != null <==> old(Succeeds(size, ToLong(size) + statCur, grants))
      ensures chain == (if p == null then [] else [p]) + old(Rest(size, ToLong(size) + statCur, grants))
      ensures |chain| == |old(chain)| + (if p == null then 0 else 1) - (drained - old(drained))
      ensures drained == old(drained) + if old(Possible(size, ToLong(size) + statCur))
                                        then FreedUp(System(grants, size), old(Spare())) else 0
      ensures p == null ==>
                statCur == old(statCur) && numCur == old(numCur) && safe == old(safe) && history == old(history)
      ensures p == null ==> statTot == old(statTot) && statNum == old(statNum)
      ensures p != null ==>
                && fresh(p) && fresh(p.mem) && safe == old(safe) + {p} && NewBlock(p, size, line)
                && numCur == old(numCur) + 1 && statCur == old(statCur) + size && history == old(history) + [statCur]
                && statTot == old(statTot) + size && statNum == old(statNum) + 1
      ensures old(WithinLimit()) ==> WithinLimit()
    {
      hide Valid, Drained, NmlOf, Obtained, FreedUp, System, NewBlock;
      NothingDrained(chain, NmlOf(chain));
      SmallEnough(size, grants, Spare());
      counter := counter + 1;
      var needed := (DATA_SIZE + 2 * ZONE + size) % SIZE_LIMIT;
      if needed < size { return null; }
      if useLimit && ToLong(size) + statCur > limit {
        errors := errors + 1;
        return null;
      }
      var got := Allocate(System(grants, size));
      if !got { return null; }
      p := Create(size, line);
    }

    /** The second half of mwMalloc, once it has its memory. */
    method Create(size: nat, line: nat) returns (p: Block)
      requires Valid() && size < SIZE_LIMIT / 2
      modifies this`head, this`tail, this`safe, this`chain, chain`prev
      modifies this`numCur, this`statCur, this`statMax, this`statTot, this`statNum, this`history
      ensures Valid() && fresh(p) && fresh(p.mem) && NewBlock(p, size, line)
      ensures chain == [p] + old(chain) && safe == old(safe) + {p}
      ensures numCur == old(numCur) + 1 && statCur == old(statCur) + size && history == old(history) + [statCur]
      ensures statTot == old(statTot) + size && statNum == old(statNum) + 1
    {
      hide Valid;
      var mem := NewMemory(size);
      p := new Block(mem, counter, size, line, head);
      Enter(p);
    }

    /** The calls of the system's malloc, with mwFreeUp in between. */
    method Allocate(grants: nat -> bool) returns (got: bool)
      requires Valid()
      modifies this`head, this`tail, this`chain, this`errors, this`drained, this`drainedBytes, chain`prev, chain`next
      ensures Valid() && (got <==> Obtained(grants, old(Spare())))
      ensures chain == old(Drained(chain, NmlOf(chain), FreedUp(grants, Spare())))
      ensures drained == old(drained) + FreedUp(grants, old(Spare()))
      ensures |chain| == |old(chain)| - (drained - old(drained))
      ensures forall i :: 0 <= i < |chain| ==> chain[i] in old(chain)
    {
      hide Valid, Drained, NmlOf;
      Walk(0);
      NothingDrained(chain, NmlOf(chain));
      DrainedKeeps(chain, NmlOf(chain), FreedUp(grants, Spare()));
      got := grants(0);
      if !got {
        var ok, calls := FreeUp(grants, Spare());
        got := ok && grants(calls + 1);
        if !got { errors := errors + if ok then 2 else 1; }
      }
    }

    /** The books when usage changes by n blocks and by delta bytes. */
    method Book(n: int, delta: int)
      requires statMax == MaxOf(history) && (n > 0 || delta <= 0)
      requires statCur == (if history == [] then 0 else history[|history| - 1])
      modifies this`numCur, this`statCur, this`statMax, this`statTot, this`statNum, this`history
      ensures numCur == old(numCur) + n && statCur == old(statCur) + delta
      ensures history == old(history) + [statCur] && statMax == MaxOf(history)
      ensures statTot == old(statTot) + (if n > 0 then delta else 0)
      ensures statNum == old(statNum) + (if n > 0 then n else 0)
    {
      numCur := numCur + n;
      statCur := statCur + delta;
      if n > 0 {
        statTot := statTot + delta;
        if statCur > statMax { statMax := statCur; }
        statNum := statNum + n;
      }
      history := history + [statCur];
      assert history[..|history| - 1] == old(history);
    }

    /** The end of mwMalloc: the new block p goes on the chain and into the books. */
    method Enter(p: Block)
      requires Valid() && p !in safe && p !in chain && p.prev == null && p.next == head && p != wild
      requires p.check == p.Chkval() && Sized(p) && p.size < SIZE_LIMIT / 2 && !p.nml
      modifies this`head, this`tail, this`safe, this`chain, chain`prev
      modifies this`numCur, this`statCur, this`statMax, this`statTot, this`statNum, this`history
      ensures Valid() && chain == [p] + old(chain) && safe == old(safe) + {p}
      ensures numCur == old(numCur) + 1 && statCur == old(statCur) + p.size && history == old(history) + [statCur]
      ensures statTot == old(statTot) + p.size && statNum == old(statNum) + 1
    {
      hide Chain, Accounts, LiveCount, LiveBytes, TotalBytes, NoImpostor, MaxOf, Genuine, CheckValue;
      AccountsPrepend(p, chain);
      StillGenuine(p, chain);
      ghost var s := [p] + chain;
      LinkIn(p);
      assert chain == s && Genuine(s);
      assert LiveCount(Accounts(s)) == numCur + 1 && LiveBytes(Accounts(s)) == statCur + p.size;
      Book(1, p.size);
    }

    method LinkIn(p: Block)
      requires Chain(head, tail, chain, safe) && NoImpostor(chain, safe, null)
      requires p !in safe && p.prev == null && p.next == head && p != wild && wild !in safe
      modifies this`head, this`tail, this`safe, this`chain, chain`prev
      ensures Chain(head, tail, chain, safe) && NoImpostor(chain, safe, null) && wild !in safe
      ensures chain == [p] + old(chain) && safe == old(safe) + {p}
    {
      hide Chain, CheckValue;
      tail := Prepend(p, head, tail, safe, chain);
      head, safe, chain := p, safe + {p}, [p] + chain;
    }

    /** mwRealloc. */
    method Realloc(p: Block?, size: nat, line: nat, grants: nat -> bool) returns (q: Block?)
      requires Valid() && size < SIZE_LIMIT
      modifies this`head, this`tail, this`chain, this`safe, this`counter, this`errors, this`nmlNum, this`nmlCur
      modifies this`numCur, this`statCur, this`statMax, this`statTot, this`statNum, this`history, this`useLimit
      modifies this`drained, this`drainedBytes
      modifies chain`prev, chain`next, if p == null then {} else {p}, if p == null then {} else {p.mem}
      ensures Valid() && useLimit == old(useLimit)
      ensures old(WithinLimit()) ==> WithinLimit()
      ensures statTot == old(statTot) + (if q == null then 0 else size)
      ensures statNum == old(statNum) + (if q == null then 0 else 1)
      // no old block: malloc
      ensures p == null ==>
                && (q != null <==> old(Succeeds(size, ToLong(size) + statCur, grants)))
                && chain == (if q == null then [] else [q]) + old(Rest(size, ToLong(size) + statCur, grants))
                && numCur == old(numCur) + (if q == null then 0 else 1)
                && statCur == old(statCur) + (if q == null then 0 else size)
                && (q != null ==> fresh(q) && NewBlock(q, size, line))
      ensures p == null || (size > 0 && p in old(chain) && !old(p.nml)) ==>
                var total := old(ToLong(size) + if p == null then statCur else statCur - p.size);
                drained == old(drained) + if old(Possible(size, total))
                                          then FreedUp(System(grants, size), old(Spare())) else 0
      // no new size: free
      ensures p != null && size == 0 ==> q == null
      ensures p != null && size == 0 && p in old(chain) && !old(p.nml) ==>
                && numCur == old(numCur) - 1 && statCur == old(statCur - p.size)
                && chain == (if keepNml then old(chain) else Without<Block>(old(chain), p))
      ensures p != null && size == 0 && (p !in old(chain) || old(p.nml)) ==>
                && chain == old(chain) && numCur == old(numCur) && statCur == old(statCur) && history == old(history)
                && unchanged(p) && unchanged(p.mem) && errors > old(errors)
      // both
      ensures p != null && size > 0 && (p !in old(chain) || old(p.nml)) ==> q == null && chain == old(chain)
      ensures p != null && size > 0 && p in old(chain) && !old(p.nml) ==>
                && (q != null <==> old(Succeeds(size, ToLong(size) + statCur - p.size, grants)))
                && var rest := old(Rest(size, ToLong(size) + statCur - p.size, grants));
                   chain == if q == null then rest else [q] + if keepNml then rest else Without<Block>(rest, p)
      ensures p != null && size > 0 && q != null ==>
                && MovedTo(q, size, line) && numCur == old(numCur)
                && statCur == old(statCur - p.size) + size && history == old(history) + [old(statCur) + size, statCur]
      ensures p != null && size > 0 && q != null ==>
                && fresh(q) && p.mem.Length == 2 * ZONE + old(p.size)
                && forall i :: ZONE <= i < ZONE + size && i < ZONE + old(p.size) ==> q.mem[i] == old(p.mem[i])
      ensures p != null && size > 0 && q == null ==>
                && statCur == old(statCur) && numCur == old(numCur)
                && history == old(history) && p.size == old(p.size) && p.nml == old(p.nml) && unchanged(p.mem)
      // when it succeeds, in terms of the limit and of malloc's answers alone
      ensures p == null || (size > 0 && p in old(chain) && !old(p.nml)) ==>
                var total := size + old(if p == null then statCur else statCur - p.size);
                && (size >= SIZE_LIMIT / 2 || old(useLimit && total > limit) ==> q == null)
                && (size < SIZE_LIMIT / 2 && !old(useLimit && total > limit) ==>
                      var k := drained - old(drained);
                      && 0 <= k <= old(|chain| - numCur) && (forall j :: 0 <= j < k ==> !grants(j))
                      && (k < old(|chain| - numCur) ==> grants(k))
                      && (q != null <==> grants(k) && (k > 0 ==> grants(k + 1))))
    {
      hide Valid, Rest, Succeeds, FreedUp, System, MovedTo, NewBlock, Without, Possible, Sized, Guarded;
      Walk(0);
      SystemAnswers(grants, size);
      Outcomes(size, ToLong(size) + if p == null then statCur else statCur - p.size, grants);
      q := Dispatch(p, size, line, grants);
    }

    /** The three branches of mwRealloc. */
    method Dispatch(p: Block?, size: nat, line: nat, grants: nat -> bool) returns (q: Block?)
      requires Valid() && size < SIZE_LIMIT
      modifies this`head, this`tail, this`chain, this`safe, this`counter, this`errors, this`nmlNum, this`nmlCur
      modifies this`numCur, this`statCur, this`statMax, this`statTot, this`statNum, this`history, this`useLimit
      modifies this`drained, this`drainedBytes
      modifies chain`prev, chain`next, if p == null then {} else {p}, if p == null then {} else {p.mem}
      ensures Valid() && useLimit == old(useLimit)
      ensures old(WithinLimit()) ==> WithinLimit()
      ensures statTot == old(statTot) + (if q == null then 0 else size)
      ensures statNum == old(statNum) + (if q == null then 0 else 1)
      // no old block: malloc
      ensures p == null ==>
                && (q != null <==> old(Succeeds(size, ToLong(size) + statCur, grants)))
                && chain == (if q == null then [] else [q]) + old(Rest(size, ToLong(size) + statCur, grants))
                && numCur == old(numCur) + (if q == null then 0 else 1)
                && statCur == old(statCur) + (if q == null then 0 else size)
                && (q != null ==> fresh(q) && NewBlock(q, size, line))
      ensures p == null || (size > 0 && p in old(chain) && !old(p.nml)) ==>
                var total := old(ToLong(size) + if p == null then statCur else statCur - p.size);
                drained == old(drained) + if old(Possible(size, total))
                                          then FreedUp(System(grants, size), old(Spare())) else 0
      // no new size: free
      ensures p != null && size == 0 ==> q == null
      ensures p != null && size == 0 && p in old(chain) && !old(p.nml) ==>
                && numCur == old(numCur) - 1 && statCur == old(statCur - p.size)
                && chain == (if keepNml then old(chain) else Without<Block>(old(chain), p))
      ensures p != null && size == 0 && (p !in old(chain) || old(p.nml)) ==>
                && chain == old(chain) && numCur == old(numCur) && statCur == old(statCur) && history == old(history)
                && unchanged(p) && unchanged(p.mem) && errors > old(errors)
      // both
      ensures p != null && size > 0 && (p !in old(chain) || old(p.nml)) ==> q == null && chain == old(chain)
      ensures p != null && size > 0 && p in old(chain) && !old(p.nml) ==>
                && (q != null <==> old(Succeeds(size, ToLong(size) + statCur - p.size, grants)))
                && var rest := old(Rest(size, ToLong(size) + statCur - p.size, grants));
                   chain == if q == null then rest else [q] + if keepNml then rest else Without<Block>(rest, p)
      ensures p != null && size > 0 && q != null ==>
                && MovedTo(q, size, line) && numCur == old(numCur)
                && statCur == old(statCur - p.size) + size && history == old(history) + [old(statCur) + size, statCur]
      ensures p != null && size > 0 && q != null ==>
                && fresh(q) && p.mem.Length == 2 * ZONE + old(p.size)
                && forall i :: ZONE <= i < ZONE + size && i < ZONE + old(p.size) ==> q.mem[i] == old(p.mem[i])
      ensures p != null && size > 0 && q == null ==>
                && statCur == old(statCur) && numCur == old(numCur)
                && history == old(history) && p.size == old(p.size) && p.nml == old(p.nml) && unchanged(p.mem)
    {
      hide Valid, Without, Succeeds, Rest, MovedTo, NewBlock, CheckValue;
      if p == null {
        q := Request(size, line, grants);
      } else if size == 0 {
        Free(p);
        q := null;
      } else {
        IntactBut(p);
        var owned := Owns(p);
        if owned && !p.nml {
          q := Reallocate(p, size, line, grants);
        } else {
          errors := errors + (if owned then 2 else 1);
          q := null;
        }
      }
    }

    /** mwRealloc with a live block of its own and a new size. It turns the limit off while both blocks
        are live; the peak counts them both. */
    method Resize(p: Block, size: nat, line: nat, grants: nat -> bool) returns (q: Block?)
      requires Valid() && p in chain && !p.nml && 0 < size < SIZE_LIMIT
      modifies this`head, this`tail, this`chain, this`safe, this`counter, this`errors, this`useLimit
      modifies this`nmlNum, this`nmlCur
      modifies this`numCur, this`statCur, this`statMax, this`statTot, this`statNum, this`history, this`drained
      modifies this`drainedBytes, chain`prev, chain`next, p, p.mem
      ensures Valid() && useLimit == old(useLimit)
      ensures old(WithinLimit()) ==> WithinLimit()
      ensures statTot == old(statTot) + (if q == null then 0 else size)
      ensures statNum == old(statNum) + (if q == null then 0 else 1)
      ensures q != null <==> old(Succeeds(size, ToLong(size) + statCur - p.size, grants))
      ensures var rest := old(Rest(size, ToLong(size) + statCur - p.size, grants));
                chain == if q == null then rest else [q] + if keepNml then rest else Without<Block>(rest, p)
      ensures q != null ==>
                && MovedTo(q, size, line) && numCur == old(numCur)
                && statCur == old(statCur - p.size) + size && history == old(history) + [old(statCur) + size, statCur]
      ensures q != null ==>
                && fresh(q) && p.mem.Length == 2 * ZONE + old(p.size)
                && forall i :: ZONE <= i < ZONE + size && i < ZONE + old(p.size) ==> q.mem[i] == old(p.mem[i])
      ensures q == null ==>
                && statCur == old(statCur) && numCur == old(numCur)
                && history == old(history) && p.size == old(p.size) && p.nml == old(p.nml) && unchanged(p.mem)
      // when it succeeds, in terms of the limit and of malloc's answers alone
      ensures size >= SIZE_LIMIT / 2 || old(useLimit && size + statCur - p.size > limit) ==> q == null
      ensures size < SIZE_LIMIT / 2 && !old(useLimit && size + statCur - p.size > limit) ==>
                var k := drained - old(drained);
                && 0 <= k <= old(|chain| - numCur) && (forall j :: 0 <= j < k ==> !grants(j))
                && (k < old(|chain| - numCur) ==> grants(k))
                && (q != null <==> grants(k) && (k > 0 ==> grants(k + 1)))
      ensures old(useLimit ==> statCur <= limit) ==> useLimit ==> statCur <= limit
    {
      hide Valid, Rest, Succeeds, Possible, FreedUp, System, MovedTo, Without;
      Walk(0);
      Outcomes(size, ToLong(size) + statCur - p.size, grants);
      SystemAnswers(grants, size);
      q := Reallocate(p, size, line, grants);
    }

    /** The branch of mwRealloc for a block of its own. */
    method Reallocate(p: Block, size: nat, line: nat, grants: nat -> bool) returns (q: Block?)
      requires Valid() && p in chain && !p.nml && 0 < size < SIZE_LIMIT
      modifies this`head, this`tail, this`chain, this`safe, this`counter, this`errors, this`useLimit
      modifies this`nmlNum, this`nmlCur
      modifies this`numCur, this`statCur, this`statMax, this`statTot, this`statNum, this`history, this`drained
      modifies this`drainedBytes, chain`prev, chain`next, p, p.mem
      ensures Valid() && useLimit == old(useLimit)
      ensures old(WithinLimit()) ==> WithinLimit()
      ensures statTot == old(statTot) + (if q == null then 0 else size)
      ensures statNum == old(statNum) + (if q == null then 0 else 1)
      ensures q != null <==> old(Succeeds(size, ToLong(size) + statCur - p.size, grants))
      ensures var rest := old(Rest(size, ToLong(size) + statCur - p.size, grants));
                chain == if q == null then rest else [q] + if keepNml then rest else Without<Block>(rest, p)
      ensures q != null ==>
                && MovedTo(q, size, line) && numCur == old(numCur)
                && statCur == old(statCur - p.size) + size && history == old(history) + [old(statCur) + size, statCur]
      ensures q != null ==>
                && fresh(q) && p.mem.Length == 2 * ZONE + old(p.size)
                && forall i :: ZONE <= i < ZONE + size && i < ZONE + old(p.size) ==> q.mem[i] == old(p.mem[i])
      ensures q == null ==>
                && statCur == old(statCur) && numCur == old(numCur)
                && history == old(history) && p.size == old(p.size) && p.nml == old(p.nml) && unchanged(p.mem)
      ensures drained == old(drained) + if old(Possible(size, ToLong(size) + statCur - p.size))
                                        then FreedUp(System(grants, size), old(Spare())) else 0
    {
      hide Valid, Without, Drained, NmlOf, Obtained, FreedUp, System, MovedTo;
      NothingDrained(chain, NmlOf(chain));
      SmallEnough(size, grants, Spare());
      if useLimit && ToLong(size) + statCur - p.size > limit {
        counter, errors := counter + 1, errors + 1;
        return null;
      }
      var oldUseLimit := useLimit;
      useLimit := false;
      q := MoveData(p, size, line, grants);
      useLimit := oldUseLimit;
    }

    lemma MovedToIs(q: Block, size: nat, line: nat)
      requires MovedTo(q, size, line)
      ensures q.size == size && q.line == line && !q.nml && q.mem.Length == 8 + size + 8
      ensures q.mem[..8] == q.mem[8 + size..] == TEMPLATE
    {
    }

    ghost predicate MovedTo(q: Block, size: nat, line: nat)
      reads q, q.mem
    {
      q.size == size && q.line == line && Sized(q) && Guarded(q) && !q.nml
    }

    /** The heart of mwRealloc, with the limit off: a new block, the old data, then the old
        block is freed. */
    method MoveData(p: Block, size: nat, line: nat, grants: nat -> bool) returns (q: Block?)
      requires Valid() && !useLimit && p in chain && !p.nml && size < SIZE_LIMIT
      modifies this`head, this`tail, this`chain, this`safe, this`counter, this`errors, this`nmlNum, this`nmlCur
      modifies this`numCur, this`statCur, this`statMax, this`statTot, this`statNum, this`history, this`drained
      modifies this`drainedBytes, chain`prev, chain`next, p, p.mem
      ensures Valid()
      ensures statTot == old(statTot) + (if q == null then 0 else size)
      ensures statNum == old(statNum) + (if q == null then 0 else 1)
      ensures q != null <==> old(Succeeds(size, 0, grants))
      ensures drained ==
              old(drained) + if old(Possible(size, 0)) then FreedUp(System(grants, size), old(Spare())) else 0
      ensures var rest := old(Rest(size, 0, grants));
                chain == if q == null then rest else [q] + if keepNml then rest else Without<Block>(rest, p)
      ensures q != null ==>
                && MovedTo(q, size, line) && numCur == old(numCur)
                && statCur == old(statCur - p.size) + size && history == old(history) + [old(statCur) + size, statCur]
      ensures q != null ==>
                && fresh(q) && p.mem.Length == 2 * ZONE + old(p.size)
                && forall i :: ZONE <= i < ZONE + size && i < ZONE + old(p.size) ==> q.mem[i] == old(p.mem[i])
      ensures q == null ==>
                && statCur == old(statCur) && numCur == old(numCur)
                && history == old(history) && p.size == old(p.size) && p.nml == old(p.nml) && unchanged(p.mem)
    {
      hide Valid, Without, Guarded, Distinct, ChainExcept, Chain, Drained, Obtained, FreedUp, System;
      IntactBut(p);
      ghost var rest := Rest(size, 0, grants);
      DrainedKeepsLive(chain, NmlOf(chain), rest, p);
      q := Request(size, line, grants);
      if q != null {
        IntactBut(p);
        WithoutBehind<Block>(q, rest, p);
        Replace(p, q);
      }
    }

    /** Both blocks are live: copy the data over, then free the old one. */
    method Replace(p: Block, q: Block)
      requires Valid() && p in chain && !p.nml && q in chain && q != p && q.mem != p.mem
      requires Sized(p) && Sized(q) && Guarded(q)
      modifies this`head, this`tail, this`chain, this`counter, this`errors, this`nmlNum, this`nmlCur
      modifies this`numCur, this`statCur, this`statMax, this`statTot, this`statNum, this`history
      modifies chain`prev, chain`next, p, p.mem, q.mem
      ensures Valid() && Guarded(q)
      ensures numCur == old(numCur) - 1 && statCur == old(statCur - p.size) && history == old(history) + [statCur]
      ensures statTot == old(statTot) && statNum == old(statNum)
      ensures chain == if keepNml then old(chain) else Without(old(chain), p)
      ensures forall i :: ZONE <= i < ZONE + q.size && i < ZONE + old(p.size) ==> q.mem[i] == old(p.mem[i])
    {
      hide Valid, Without;
      CopyUserData(p, q);
      Free(p);
    }

    /** mwFree. A pointer that is null, wild or already freed only costs a log line and an error. */
    method Free(p: Block?)
      requires Valid()
      modifies this`head, this`tail, this`chain, this`counter, this`errors, this`nmlNum, this`nmlCur
      modifies this`numCur, this`statCur, this`statMax, this`statTot, this`statNum, this`history
      modifies chain`prev, chain`next, if p == null then {} else {p}, if p == null then {} else {p.mem}
      ensures Valid()
      ensures p == null || p !in old(chain) || old(p.nml) ==>
                && chain == old(chain) && numCur == old(numCur) && statCur == old(statCur) && history == old(history)
                && nmlNum == old(nmlNum) && nmlCur == old(nmlCur)
                && (p != null ==> unchanged(p) && unchanged(p.mem) && errors > old(errors))
      ensures p != null && p in old(chain) && !old(p.nml) ==>
                && numCur == old(numCur) - 1 && statCur == old(statCur - p.size) && history == old(history) + [statCur]
                && (keepNml ==> chain == old(chain) && p.nml && p.size == old(p.size)
                                && nmlNum == old(nmlNum) + 1 && nmlCur == old(nmlCur) + p.size
                                && forall i :: ZONE <= i < ZONE + p.size ==> p.mem[i] == VAL_NML)
                && (!keepNml ==> chain == Without<Block>(old(chain), p) && p !in chain
                                 && nmlNum == old(nmlNum) && nmlCur == old(nmlCur)
                                 && forall i :: 0 <= i < p.mem.Length ==> p.mem[i] == VAL_DEL)
      ensures statTot == old(statTot) && statNum == old(statNum)
      ensures old(WithinLimit()) ==> WithinLimit()
    {
      hide Valid, Guarded, Without, CheckValue, LinkTest, UnsafeLinks, Balanced, Sized;
      counter := counter + 1;
      if p == null { return; }
      IntactBut(p);
      var owned := Owns(p);
      if owned {
        TestBuf(p);
        if !p.nml {
          Release(p);
          return;
        }
      }
      errors := errors + 1;
    }

    /** The rest of mwFree for a live block: update the books, then keep it or give it back. */
    method Release(p: Block)
      requires Valid() && p in chain && !p.nml
      modifies this`head, this`tail, this`chain, this`nmlNum, this`nmlCur
      modifies this`numCur, this`statCur, this`statMax, this`statTot, this`statNum, this`history
      modifies chain`prev, chain`next, p, p.mem
      ensures Valid() && statTot == old(statTot) && statNum == old(statNum)
      ensures numCur == old(numCur) - 1 && statCur == old(statCur - p.size) && history == old(history) + [statCur]
      ensures keepNml ==> chain == old(chain) && p.nml && p.size == old(p.size)
                          && nmlNum == old(nmlNum) + 1 && nmlCur == old(nmlCur) + p.size
                          && forall i :: ZONE <= i < ZONE + p.size ==> p.mem[i] == VAL_NML
      ensures !keepNml ==> chain == Without(old(chain), p) && p !in chain
                           && nmlNum == old(nmlNum) && nmlCur == old(nmlCur)
                           && forall i :: 0 <= i < p.mem.Length ==> p.mem[i] == VAL_DEL
    {
      hide Valid;
      IntactBut(p);
      if keepNml { Shelve(p); } else { Retire(p); }
    }

    /** Freed memory kept on the chain as no-man's-land. */
    method Shelve(p: Block)
      requires Valid() && p in chain && !p.nml && Sized(p)
      modifies this`numCur, this`statCur, this`statMax, this`statTot, this`statNum, this`history
      modifies this`nmlNum, this`nmlCur, p`nml, p.mem
      ensures Valid() && p.nml && statTot == old(statTot) && statNum == old(statNum)
      ensures numCur == old(numCur) - 1 && statCur == old(statCur) - p.size && history == old(history) + [statCur]
      ensures nmlNum == old(nmlNum) + 1 && nmlCur == old(nmlCur) + p.size
      ensures forall i :: ZONE <= i < ZONE + p.size ==> p.mem[i] == VAL_NML
    {
      hide Chain, Genuine, NoImpostor, LiveCount, LiveBytes, TotalBytes, Accounts, MaxOf;
      Mark(p);
      nmlNum, nmlCur := nmlNum + 1, nmlCur + p.size;
      Book(-1, 0 - p.size);
    }

    method Mark(p: Block)
      requires Valid() && p in chain && !p.nml
      modifies p`nml, p.mem
      ensures Chain(head, tail, chain, safe) && Genuine(chain) && NoImpostor(chain, safe, null) && p.nml
      ensures TotalBytes(Accounts(chain)) == old(TotalBytes(Accounts(chain)))
      ensures LiveCount(Accounts(chain)) == old(LiveCount(Accounts(chain))) - 1
      ensures LiveBytes(Accounts(chain)) == old(LiveBytes(Accounts(chain))) - p.size
      ensures forall i :: ZONE <= i < ZONE + p.size ==> p.mem[i] == VAL_NML
    {
      hide Chain, Genuine, CheckValue, LiveCount, LiveBytes, TotalBytes, Accounts;
      IntactBut(p);
      ghost var i := Pos(chain, p);
      ghost var a := Accounts(chain);
      AccountUpdated(a, i, Account(p.size, true));
      MakeNml(p);
      assert Accounts(chain) == a[i := Account(p.size, true)];
    }

    /** Freed memory given back: off the chain, header and data overwritten, then free. */
    method Retire(p: Block)
      requires Valid() && p in chain && !p.nml
      modifies this`head, this`tail, this`chain, chain`prev, chain`next, p, p.mem
      modifies this`numCur, this`statCur, this`statMax, this`statTot, this`statNum, this`history
      ensures Valid() && chain == Without(old(chain), p) && p !in chain
      ensures statTot == old(statTot) && statNum == old(statNum)
      ensures numCur == old(numCur) - 1 && statCur == old(statCur) - old(p.size) && history == old(history) + [statCur]
      ensures forall i :: 0 <= i < p.mem.Length ==> p.mem[i] == VAL_DEL
    {
      hide Chain, Genuine, NoImpostor, LiveCount, LiveBytes, TotalBytes, Accounts, MaxOf, Without;
      var size: int := p.size;
      Remove(p);
      Book(-1, 0 - size);
    }

    method Remove(p: Block)
      requires Chain(head, tail, chain, safe) && Genuine(chain) && NoImpostor(chain, safe, null) && wild !in safe
      requires p in chain && !p.nml
      modifies this`head, this`tail, this`chain, chain`prev, chain`next, p, p.mem
      ensures Chain(head, tail, chain, safe) && Genuine(chain) && NoImpostor(chain, safe, null)
      ensures chain == Without(old(chain), p) && |chain| == |old(chain)| - 1 && p !in chain
      ensures LiveCount(Accounts(chain)) == old(LiveCount(Accounts(chain))) - 1
      ensures LiveBytes(Accounts(chain)) == old(LiveBytes(Accounts(chain))) - old(p.size)
      ensures TotalBytes(Accounts(chain)) == old(TotalBytes(Accounts(chain))) - old(p.size)
      ensures forall i :: 0 <= i < p.mem.Length ==> p.mem[i] == VAL_DEL
    {
      hide Chain, ChainExcept, Genuine, NoImpostor, LiveCount, LiveBytes, TotalBytes, Accounts, Without, CheckValue;
      IsDistinct(p);
      AccountsWithout(p, chain);
      StillGenuineWithout(p, chain);
      ghost var rest := Without(chain, p);
      ghost var a := Accounts(rest);
      assert Genuine(rest);
      LinkOut(p);
      assert chain == rest && Genuine(rest) && Accounts(rest) == a;
      WipeStranger(p);
      assert Chain(head, tail, rest, safe) && Genuine(rest) && Accounts(rest) == a;
    }

    /** The wiped block leaves no link of a readable block leading back where it came from. */
    method WipeStranger(p: Block)
      requires NoImpostor(chain, safe, p) && wild !in safe && p !in chain
      modifies p, p.mem
      ensures NoImpostor(chain, safe, null)
      ensures forall i :: 0 <= i < p.mem.Length ==> p.mem[i] == VAL_DEL
    {
      hide CheckValue;
      Wipe(p, wild);
    }

    method LinkOut(p: Block)
      requires Chain(head, tail, chain, safe) && NoImpostor(chain, safe, null) && p in chain
      modifies this`head, this`tail, this`chain, chain`prev, chain`next
      ensures Chain(head, tail, chain, safe) && NoImpostor(chain, safe, p) && chain == Without(old(chain), p)
      ensures |chain| == |old(chain)| - 1 && forall i :: 0 <= i < |chain| ==> chain[i] != p
      ensures p.prev == old(p.prev) && p.next == old(p.next) && !UnsafeLinks(p, safe)
      ensures p.prev != null ==> p.prev.next != p
    {
      hide Without, CheckValue, Chain, ChainExcept;
      IsDistinct(p);
      WithoutMembers(chain, p);
      Neighbours(p);
      head, tail, chain := Unlink(p, head, tail, safe, chain);
    }

    lemma Neighbours(p: Block)
      requires Chain(head, tail, chain, safe) && p in chain
      ensures p in safe && (forall i :: 0 <= i < |chain| ==> chain[i] in safe) && p.prev != p && p.next != p
      ensures p.prev != null ==> p.prev in chain && p.prev in safe && p.prev.next == p
      ensures p.next != null ==> p.next in chain && p.next in safe && p.next.prev == p
      ensures p.prev == null || p.prev != p.next
    {
      var i := Pos(chain, p);
      LinkedInChain(head, tail, chain, safe, p);
      assert p.prev == Before(chain, i) && p.next == After(chain, i);
    }

    lemma IsDistinct(p: Block)
      requires Chain(head, tail, chain, safe) && p in chain
      ensures Distinct(chain) && forall i :: 0 <= i < |Without(chain, p)| ==> Without(chain, p)[i] != p
    {
      WithoutAt(chain, p, Pos(chain, p));
    }
  }

  /** memcpy of as much of the old user data as the new block has room for. */
  method CopyUserData(p: Block, q: Block)
    requires Sized(p) && Sized(q) && p.mem != q.mem
    modifies q.mem
    ensures forall i :: ZONE <= i < ZONE + q.size && i < ZONE + p.size ==> q.mem[i] == p.mem[i]
    ensures q.mem[..ZONE] == old(q.mem[..ZONE]) && q.mem[ZONE + q.size..] == old(q.mem[ZONE + q.size..])
  {
    var n := if q.size < p.size then q.size else p.size;
    forall i | ZONE <= i < ZONE + n { q.mem[i] := p.mem[i]; }
  }

  method MakeNml(p: Block)
    requires Sized(p)
    modifies p`nml, p.mem
    ensures p.nml && forall i :: ZONE <= i < ZONE + p.size ==> p.mem[i] == VAL_NML
  {
    p.nml := true;
    forall k | ZONE <= k < ZONE + p.size { p.mem[k] := VAL_NML; }
  }

  /** memset over the whole block: its links lead to the address made of the fill byte, and
      the bit for no-man's-land memory is set. */
  method Wipe(p: Block, wild: Block)
    modifies p, p.mem
    ensures p.count == p.size == p.check == DEL_WORD && p.line == DEL_LINE && p.prev == p.next == wild && p.nml
    ensures p.check != p.Chkval()
    ensures forall i :: 0 <= i < p.mem.Length ==> p.mem[i] == VAL_DEL
  {
    p.prev, p.next, p.nml := wild, wild, true;
    p.count, p.size, p.check, p.line := DEL_WORD, DEL_WORD, DEL_WORD, DEL_LINE;
    forall k | 0 <= k < p.mem.Length { p.mem[k] := VAL_DEL; }
    WipedLooksWrong();
  }

  /** A wiped header fails the check: bit 7 of its check value cannot be right. */
  lemma WipedLooksWrong()
    ensures CheckValue(DEL_WORD, DEL_WORD, DEL_LINE) != DEL_WORD
  {
    hide Xor;
    XorCancels(0xFE0180, DEL_WORD);
    XorShifted(0xFE0180, DEL_LINE, 7);
    XorHalf(Shifted(0xFE0180, 7), Shifted(DEL_LINE, 7));
  }

  lemma GivenBackIsNoImpostor(p: Block, s: seq<Block>, safe: set<Block>)
    requires NoImpostor(s, safe, p) && p in safe && GivenBack(p, safe)
    ensures NoImpostor(s, safe, null)
  {
  }

  lemma StillGenuineWithout(p: Block, s: seq<Block>)
    requires Genuine(s) && Distinct(s) && p in s
    ensures Genuine(Without(s, p))
  {
    WithoutMembers(s, p);
    WithoutAt(s, p, Pos(s, p));
  }

  lemma StillGenuine(p: Block, s: seq<Block>)
    requires Genuine(s) && p.check == p.Chkval() && Sized(p) && p.size < SIZE_LIMIT / 2
    ensures Genuine([p] + s)
  {
  }

  /** A live block is among what draining leaves. */
  lemma DrainedKeepsLive(all: seq<Block>, dead: set<Block>, rest: seq<Block>, p: Block)
    requires Distinct(all) && p in all && p !in dead && exists k: nat :: rest == Drained(all, dead, k)
    ensures p in rest && Distinct(rest) && forall i :: 0 <= i < |rest| ==> rest[i] in all
  {
    var k: nat :| rest == Drained(all, dead, k);
    DrainedKeeps(all, dead, k);
    assert all[Pos(all, p)] == p;
  }

  lemma Refused(grants: nat -> bool, size: nat, n: nat)
    requires forall i :: !grants(i)
    ensures !Obtained(System(grants, size), n) && FreedUp(System(grants, size), n) == n
  {
  }

  lemma GrantedAtOnce(grants: nat -> bool, size: nat, n: nat)
    requires grants(0) && size < SIZE_LIMIT / 2
    ensures Obtained(System(grants, size), n) && FreedUp(System(grants, size), n) == 0
  {
  }

  /** When malloc fails for good, mwFreeUp has given back all no-man's-land memory, yet any
      block of it is still owned, and counted. */
  method GivenBackIsOwned(m: MemWatch, p: Block, size: nat) returns (owned: bool)
    requires m.Valid() && p in m.chain && p.nml && m.numCur > 0 && size < SIZE_LIMIT / 2
    requires m.Possible(size, size + m.statCur)
    modifies m, m.chain, p
    ensures m.Valid() && p !in m.chain && owned
    ensures m.nmlNum == m.drained > old(m.drained) && |m.chain| == m.numCur
  {
    hide MemWatch.Valid;
    Exhaust(m, p, size);
    owned := m.Owns(p);
  }

  method Exhaust(m: MemWatch, p: Block, size: nat)
    requires m.Valid() && p in m.chain && p.nml && m.numCur > 0 && size < SIZE_LIMIT / 2
    requires m.Possible(size, size + m.statCur)
    modifies m, m.chain
    ensures m.Valid() && p !in m.chain && m.Mistaken(p)
    ensures m.nmlNum == m.drained > old(m.drained) && |m.chain| == m.numCur
  {
    hide MemWatch.Valid, CheckValue, Chain, ChainExcept, Drained, NmlOf;
    hide Obtained, FreedUp, System, LinkTest, UnsafeLinks, Balanced;
    m.Walk(Pos(m.chain, p));
    m.IntactBut(p);
    var never: nat -> bool := _ => false;
    Refused(never, size, m.Spare());
    var q := m.Malloc(size, 0, never);
    m.Walk(0);
    m.Counters();
  }

  /** How it comes about. */
  method TwoBlocks() returns (m: MemWatch, p: Block)
    ensures fresh(m) && fresh(m.chain) && fresh(p)
    ensures m.Valid() && p in m.chain && p.nml && m.numCur == 1 && m.Possible(7, 7 + m.statCur)
    ensures |m.chain| == 2 && m.drained == 0 && !m.useLimit
  {
    hide MemWatch.Valid, Guarded, Sized;
    m := new MemWatch();
    m.NoMansLand(1);
    p := NewAllocation(m, 5);
    var q := NewAllocation(m, 6);
    m.Free(p);
  }

  /** A request that malloc refuses once: a block is given back, and then it is granted. */
  method GrantedAfterGivingBack() returns (m: MemWatch, q: Block?)
    ensures q != null && q.size == 7 && m.drained == 1 && |m.chain| == 2
  {
    hide MemWatch.Valid, Guarded, Sized, Obtained, FreedUp, System, Drained, NmlOf;
    var p;
    m, p := TwoBlocks();
    var once: nat -> bool := i => i > 0;
    q := m.Malloc(7, 1, once);
    assert once(1) && once(2) && forall j :: 0 <= j < 1 ==> !once(j);
  }

  method NewAllocation(m: MemWatch, size: nat) returns (p: Block)
    requires m.Valid() && size < 100 && !m.useLimit
    modifies m, m.chain`prev, m.chain`next
    ensures m.Valid() && fresh(p) && fresh(p.mem) && !p.nml && m.chain == [p] + old(m.chain)
    ensures m.numCur == old(m.numCur) + 1 && !m.useLimit && m.keepNml == old(m.keepNml)
    ensures m.drained == old(m.drained)
  {
    hide MemWatch.Valid, Drained, Obtained, FreedUp, System, Guarded, Sized;
    var always: nat -> bool := _ => true;
    GrantedAtOnce(always, size, m.Spare());
    NothingDrained(m.chain, NmlOf(m.chain));
    var q := m.Malloc(size, 1, always);
    p := q;
  }
}
