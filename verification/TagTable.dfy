/** tag.c: the table that ties command tags to sockets, on top of uthash. */
module TagTable {
  import opened Lists
  import opened UtList
  import opened UtHash

  const TIMEOUT := 10

  datatype Assoc = Assoc(cmdTag: int, socket: int, time: int)

  /** The table hashes sizeof(int) bytes of a long: the low 32 bits of the tag (little-endian). */
  function LowWord(tag: int): nat { tag % 0x1_0000_0000 }

  /** A tag that fits into 32 bits is its own key, and tags that agree in these bits share one. */
  lemma LowWords(tag: int, other: int)
    ensures 0 <= tag < 0x1_0000_0000 ==> LowWord(tag) == tag
    ensures LowWord(tag) == LowWord(other) <==> (tag - other) % 0x1_0000_0000 == 0
  {
  }

  type Table = Hash<nat, Assoc>

  /** What a call did: a failed search is followed by a dereference of NULL. */
  datatype Outcome = Done | NullDereference

  method NewTable(hash: nat -> nat) returns (t: Table)
    ensures fresh(t) && fresh(t.buckets) && fresh(t.counts)
    ensures t.Valid() && t.items == [] && TagKeyed(t)
  {
    t := new Hash((a: Assoc) => LowWord(a.cmdTag), hash);
  }

  ghost predicate TagKeyed(t: Table) {
    forall a: Assoc :: t.keyOf(a) == LowWord(a.cmdTag)
  }

  /** The association that a search for a key leads to. */
  ghost function Found(t: Table, key: nat): Node?<Assoc>
    reads t
  {
    if t.items == [] then null else t.Scan(t.Bucket(key), key)
  }

  /** tie_tag_2_socket: no check for a tag that is tied already. */
  method Tie(t: Table, cmdTag: int, socket: int, now: int, expand: bool) returns (s: Node<Assoc>)
    requires t.Valid() && TagKeyed(t)
    modifies t, t.buckets, t.counts, t.items
    ensures t.Valid() && fresh(s) && s.data == Assoc(cmdTag, socket, now)
    ensures t.items == old(t.items) + [s]
    ensures t.buckets == old(t.buckets) || fresh(t.buckets)
    ensures t.counts == old(t.counts) || fresh(t.counts)
    ensures !expand ==> Found(t, LowWord(cmdTag)) == s
  {
    s := new Node(Assoc(cmdTag, socket, now));
    t.Add(s, expand);
  }

  /** get_socket_in_hash: 0 stands for "not tied". */
  method Get(t: Table, cmdTag: nat) returns (socket: int)
    requires t.Valid() && TagKeyed(t) && cmdTag < 0x1_0000_0000
    ensures (forall x :: x in t.items ==> LowWord(x.data.cmdTag) != cmdTag) ==> socket == 0
    ensures (exists x :: x in t.items && LowWord(x.data.cmdTag) == cmdTag) ==>
              exists x :: x in t.items && LowWord(x.data.cmdTag) == cmdTag && socket == x.data.socket
    ensures socket == if Found(t, cmdTag) == null then 0 else Found(t, cmdTag).data.socket
  {
    var s := t.Find(cmdTag);
    if s == null { return 0; }
    return s.data.socket;
  }

  /** untie_tag_2_socket. */
  method Untie(t: Table, cmdTag: nat) returns (r: Outcome)
    requires t.Valid() && TagKeyed(t) && cmdTag < 0x1_0000_0000
    modifies t, t.buckets, t.counts, t.items
    ensures r == NullDereference <==> forall x :: x in old(t.items) ==> LowWord(x.data.cmdTag) != cmdTag
    ensures r == NullDereference ==> t.items == old(t.items)
    ensures r == Done ==> exists x :: x in old(t.items) && LowWord(x.data.cmdTag) == cmdTag &&
                            t.items == Without(old(t.items), x)
    ensures r == Done ==>
              && old(Found(t, cmdTag)) != null
              && t.items == Without<Node<Assoc>>(old(t.items), old(Found(t, cmdTag)))
    ensures t.Valid() && t.buckets == old(t.buckets) && t.counts == old(t.counts)
  {
    var s := t.Find(cmdTag);
    if s == null { return NullDereference; }
    t.Delete(s);
    return Done;
  }

  /** The elements of s that are not dead, in order. */
  ghost function Alive(s: seq<Node<Assoc>>, dead: Assoc -> bool): seq<Node<Assoc>> {
    if s == [] then []
    else if dead(s[|s| - 1].data) then Alive(s[..|s| - 1], dead)
    else Alive(s[..|s| - 1], dead) + [s[|s| - 1]]
  }

  /** Alive keeps exactly the elements that are not dead, in their order. */
  lemma {:induction false} AliveIsFilter(s: seq<Node<Assoc>>, dead: Assoc -> bool)
    requires Distinct(s)
    ensures var r := Alive(s, dead);
      && Distinct(r)
      && (forall i :: 0 <= i < |r| ==> r[i] in s && !dead(r[i].data))
      && (forall x :: x in r <==> x in s && !dead(x.data))
      && (forall i, j :: 0 <= i < j < |r| ==> r[i] in s && r[j] in s && Pos(s, r[i]) < Pos(s, r[j]))
  {
    if s != [] {
      var front, x := s[..|s| - 1], s[|s| - 1];
      var r, f := Alive(s, dead), Alive(front, dead);
      AliveIsFilter(front, dead);
      forall y | y in front ensures Pos(front, y) == Pos(s, y) < |front| { }
      forall i, j | 0 <= i < j < |r| ensures r[i] in s && r[j] in s && Pos(s, r[i]) < Pos(s, r[j]) {
        assert r[i] == f[i] && r[i] in front;
        if j < |f| { assert r[j] == f[j] && r[j] in front; } else { assert r[j] == x && Pos(s, x) == |front|; }
      }
    }
  }

  /** The list when everything before all[i] has been looked at, and all[i] is next. */
  ghost predicate Swept(items: seq<Node<Assoc>>, all: seq<Node<Assoc>>, i: nat, dead: Assoc -> bool) {
    i <= |all| && items == Alive(all[..i], dead) + all[i..]
  }

  lemma AliveNext(all: seq<Node<Assoc>>, i: nat, dead: Assoc -> bool)
    requires i < |all|
    ensures Alive(all[..i + 1], dead) == Alive(all[..i], dead) + if dead(all[i].data) then [] else [all[i]]
  {
    assert all[..i + 1][..i] == all[..i];
  }

  lemma SweptStep(items: seq<Node<Assoc>>, all: seq<Node<Assoc>>, i: nat, dead: Assoc -> bool)
    returns (k: nat)
    requires Distinct(all) && Distinct(items) && Swept(items, all, i, dead) && i < |all|
    ensures forall j :: 0 <= j < |items| ==> items[j] in all
    ensures k < |items| && items[k] == all[i]
    ensures At(items, k + 1) == if i + 1 < |all| then all[i + 1] else null
    ensures Swept(if dead(all[i].data) then Without(items, all[i]) else items, all, i + 1, dead)
  {
    hide Alive, Without, Distinct;
    var x, front, rest := all[i], Alive(all[..i], dead), all[i + 1..];
    k := |front|;
    AliveNext(all, i, dead);
    AliveMembers(all, i, dead);
    assert all[i..] == [x] + rest;
    Associative(front, [x], rest);
    assert items == (front + [x]) + rest;
    WithoutMiddle(items, front, x, rest);
    forall j | 0 <= j < |items| ensures items[j] in all {
      if j < k { assert items[j] == front[j]; } else { assert items[j] == all[i + (j - k)]; }
    }
  }

  lemma AliveMembers(all: seq<Node<Assoc>>, i: nat, dead: Assoc -> bool)
    requires Distinct(all) && i <= |all|
    ensures forall j :: 0 <= j < |Alive(all[..i], dead)| ==> Alive(all[..i], dead)[j] in all
  {
    AliveIsFilter(all[..i], dead);
  }

  lemma WithoutMiddle(s: seq<Node<Assoc>>, front: seq<Node<Assoc>>, x: Node<Assoc>, rest: seq<Node<Assoc>>)
    requires Distinct(s) && s == (front + [x]) + rest
    ensures Without(s, x) == front + rest
  {
    assert s[|front|] == x;
    assert Pos(s, x) == |front|;
  }

  lemma ListOf(t: Table)
    requires t.Valid()
    ensures t.head == At(t.items, 0) && Distinct(t.items)
    ensures forall k {:trigger t.items[k].next} :: 0 <= k < |t.items| ==> t.items[k].next == At(t.items, k + 1)
  {
  }

  /** The body of the loop: s is looked at, perhaps removed, and then left through its next field. */
  method Visit(t: Table, s: Node<Assoc>, dead: Assoc -> bool, ghost all: seq<Node<Assoc>>, ghost i: nat)
    returns (next: Node?<Assoc>)
    requires t.Valid() && Distinct(all) && i < |all| && s == all[i] && Swept(t.items, all, i, dead)
    modifies t, t.buckets, t.counts, all
    ensures t.Valid() && Swept(t.items, all, i + 1, dead)
    ensures next == if i + 1 < |all| then all[i + 1] else null
    ensures t.buckets == old(t.buckets) && t.counts == old(t.counts)
  {
    hide Alive, Swept, Without, Distinct, Hash.Valid;
    ListOf(t);
    ghost var k := SweptStep(t.items, all, i, dead);
    if dead(s.data) { t.Delete(s); }
    next := s.next;
  }

  /** The loop shared by delete_tags_assocs_to_socket and purge_hash: it goes on
      from an element it has just removed from the table. */
  method DeleteWhere(t: Table, dead: Assoc -> bool)
    requires t.Valid()
    modifies t, t.buckets, t.counts, t.items
    ensures t.Valid() && t.items == Alive(old(t.items), dead)
    ensures t.buckets == old(t.buckets) && t.counts == old(t.counts)
  {
    hide Alive, Swept, Distinct, Hash.Valid;
    ghost var all := t.items;
    ghost var i := 0;
    SweepEnds(all, all, dead);
    ListOf(t);
    var s := t.head;
    while s != null
      invariant i <= |all| && s == (if i < |all| then all[i] else null)
      invariant t.Valid() && Swept(t.items, all, i, dead)
      invariant t.buckets == old(t.buckets) && t.counts == old(t.counts)
      decreases |all| - i
    {
      s := Visit(t, s, dead, all, i);
      i := i + 1;
    }
    SweepEnds(t.items, all, dead);
  }

  lemma SweepEnds(items: seq<Node<Assoc>>, all: seq<Node<Assoc>>, dead: Assoc -> bool)
    ensures Swept(all, all, 0, dead)
    ensures Swept(items, all, |all|, dead) ==> items == Alive(all, dead)
  {
    assert all[..|all|] == all;
  }

  method DeleteTagsAssocsToSocket(t: Table, socket: int)
    requires t.Valid()
    modifies t, t.buckets, t.counts, t.items
    ensures t.Valid() && t.items == Alive(old(t.items), (a: Assoc) => a.socket == socket)
    ensures forall x :: x in t.items <==> x in old(t.items) && x.data.socket != socket
  {
    hide Hash.Valid, Alive;
    ListOf(t);
    ghost var all := t.items;
    DeleteWhere(t, (a: Assoc) => a.socket == socket);
    AliveIsFilter(all, (a: Assoc) => a.socket == socket);
  }

  method PurgeHash(t: Table, now: int)
    requires t.Valid()
    modifies t, t.buckets, t.counts, t.items
    ensures t.Valid() && t.items == Alive(old(t.items), (a: Assoc) => a.time + TIMEOUT <= now)
    ensures forall x :: x in t.items <==> x in old(t.items) && now < x.data.time + 10
  {
    hide Hash.Valid, Alive;
    ListOf(t);
    ghost var all := t.items;
    DeleteWhere(t, (a: Assoc) => a.time + TIMEOUT <= now);
    AliveIsFilter(all, (a: Assoc) => a.time + TIMEOUT <= now);
  }

  /** Round trip: a tag (its low word, which is all that get and untie take) leads to its socket
      right after it is tied, and untying it restores the table. If the tag is tied already,
      that holds as long as the table does not expand. */
  method TieGetUntie(t: Table, cmdTag: int, socket: int, now: int, expand: bool) returns (got: int, r: Outcome)
    requires t.Valid() && TagKeyed(t)
    requires expand ==> forall x :: x in t.items ==> LowWord(x.data.cmdTag) != LowWord(cmdTag)
    modifies t, t.buckets, t.counts, t.items
    ensures got == socket && r == Done && t.Valid() && t.items == old(t.items)
  {
    hide Without, Hash.Valid, Found;
    ghost var before := t.items;
    var s := Tie(t, cmdTag, socket, now, expand);
    assert s in t.items;
    got := Get(t, LowWord(cmdTag));
    r := Untie(t, LowWord(cmdTag));
    if expand { OnlyOne(before, s, LowWord(cmdTag)); }
    WithoutAt(before + [s], s, |before|);
  }

  lemma OnlyOne(before: seq<Node<Assoc>>, s: Node<Assoc>, key: nat)
    requires forall x :: x in before ==> LowWord(x.data.cmdTag) != key
    ensures forall x :: x in before + [s] && LowWord(x.data.cmdTag) == key ==> x == s
  {
  }
}
