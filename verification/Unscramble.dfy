/** unscrambla.c: the table that maps pixels as they arrive to pixels in place. The panel
    has g groups of 2h channels in its upper and in its lower half, so the table has
    4gh rows and columns (g = 4, h = 64 in the program). */
module Unscramble {
  import opened Arith

  datatype Panel = Panel(g: nat, h: nat) {
    predicate Valid() { g > 0 && h > 0 }
    function Channels(): nat { 2 * h }
    function Half(): nat { Channels() * g }
    function Side(): nat { 2 * Half() }
  }

  /** The loop counters at one assignment: column pair p, first or second inner loop,
      channel k within group s, upper or lower half, left or right column. */
  datatype Turn = Turn(p: int, second: bool, k: int, s: int, lower: bool, right: bool)

  function Bit(b: bool): nat { if b then 1 else 0 }

  predicate InRange(x: Panel, t: Turn) {
    0 <= t.p < x.Half() && 0 <= t.k < x.h && 0 <= t.s < x.g
  }

  /** The value of cntr at a turn. */
  function Counter(x: Panel, t: Turn): int {
    4 * (((2 * t.p + Bit(t.second)) * x.h + t.k) * x.g + t.s) + 2 * Bit(t.lower) + Bit(t.right)
  }

  /** The cell assigned at a turn. */
  function Row(x: Panel, t: Turn): int {
    (if t.lower then x.Half() else 0) + x.Channels() * t.s +
    if t.second then (if t.right then x.h + t.k else x.h - 1 - t.k)
    else (if t.right then t.k else 2 * x.h - 1 - t.k)
  }

  function Col(x: Panel, t: Turn): int {
    if t.right then x.Half() + t.p else x.Half() - 1 - t.p
  }

  /** Which cells get the first values of either inner loop. */
  lemma FirstCells(x: Panel)
    requires x.Valid()
    ensures var t := Turn(0, false, 0, 0, false, false); Counter(x, t) == 0 && Row(x, t) == 2 * x.h - 1
    ensures var t := Turn(0, false, 0, 0, false, true); Counter(x, t) == 1 && Row(x, t) == 0
    ensures var t := Turn(0, false, 0, 0, true, false); Counter(x, t) == 2 && Row(x, t) == x.Half() + 2 * x.h - 1
    ensures var t := Turn(0, true, 0, 0, false, false); Counter(x, t) == 4 * (x.h * x.g) && Row(x, t) == x.h - 1
    ensures var t := Turn(0, true, 0, 0, false, true); Counter(x, t) == 4 * (x.h * x.g) + 1 && Row(x, t) == x.h
    ensures Col(x, Turn(0, false, 0, 0, false, false)) == x.Half() - 1
    ensures Col(x, Turn(0, false, 0, 0, false, true)) == x.Half()
  {
    assert x.Channels() * 0 == 0;
  }

  /** From a channel to the next: the first inner loop goes down from the end of a group on the
      left and up from its start on the right, the second away from its middle. */
  lemma NextChannel(x: Panel, t: Turn)
    requires x.Valid()
    ensures Row(x, t.(k := t.k + 1)) == Row(x, t) + if t.right then 1 else -1
    ensures Row(x, t.(s := t.s + 1)) == Row(x, t) + x.Channels()
    ensures Row(x, t.(lower := true)) == Row(x, t.(lower := false)) + x.Half()
    ensures t.k == 0 && !t.second ==> Row(x, t.(right := false)) == Row(x, t.(right := true)) + x.Channels() - 1
    ensures t.k == 0 && t.second ==> Row(x, t.(right := true)) == Row(x, t.(right := false)) + 1
    ensures Col(x, t.(p := t.p + 1)) == Col(x, t) + if t.right then 1 else -1
  {
    Distribute(x.Channels(), t.s);
  }

  /** The counter from one assignment to the next: left to right, upper to lower half, group to
      group, and after the last group on to the next channel. */
  lemma NextTurn(x: Panel, t: Turn)
    requires x.Valid()
    ensures Counter(x, t.(right := true)) == Counter(x, t.(right := false)) + 1
    ensures Counter(x, t.(lower := true)) == Counter(x, t.(lower := false)) + 2
    ensures Counter(x, t.(s := t.s + 1)) == Counter(x, t) + 4
    ensures Counter(x, t.(k := t.k + 1)) == Counter(x, t) + 4 * x.g
  {
    Spread(2 * t.p + Bit(t.second), x.h, t.k, x.g);
  }

  /** From an inner loop to the second one, and from a column pair to the next. */
  lemma NextPair(x: Panel, t: Turn)
    requires x.Valid()
    ensures Counter(x, t.(second := true)) == Counter(x, t.(second := false)) + 4 * (x.h * x.g)
    ensures Counter(x, t.(p := t.p + 1)) == Counter(x, t) + 8 * (x.h * x.g)
  {
    var z := 2 * t.p;
    Spread(z, x.h, t.k, x.g);
    Spread(z + 1, x.h, t.k, x.g);
    Spread(z + 2, x.h, t.k, x.g);
  }

  lemma Spread(z: int, h: int, k: int, g: int)
    ensures (z * h + (k + 1)) * g == (z * h + k) * g + g
    ensures ((z + 1) * h + k) * g == (z * h + k) * g + h * g
  {
    var a := z * h + k;
    assert (z + 1) * h + k == a + h;
    assert (a + h) * g == a * g + h * g;
    assert (a + 1) * g == a * g + g;
  }

  /** The turn at which the counter has value v. */
  function TurnOf(x: Panel, v: nat): Turn
    requires x.Valid()
  {
    var u := v / 4;
    var w := u / x.g;
    var z := w / x.h;
    Turn(z / 2, z % 2 == 1, w % x.h, u % x.g, (v / 2) % 2 == 1, v % 2 == 1)
  }

  /** The turn at which a cell is assigned. */
  function TurnAt(x: Panel, r: nat, c: nat): Turn
    requires x.Valid() && r < x.Side() && c < x.Side()
  {
    var right, lower := c >= x.Half(), r >= x.Half();
    var y := if lower then r - x.Half() else r;
    var o := y % x.Channels();
    var second := if right then o >= x.h else o < x.h;
    Turn(if right then c - x.Half() else x.Half() - 1 - c, second,
         if right then (if second then o - x.h else o) else (if second then x.h - 1 - o else 2 * x.h - 1 - o),
         y / x.Channels(), lower, right)
  }

  lemma CounterDecodes(x: Panel, t: Turn)
    requires x.Valid() && InRange(x, t)
    ensures Counter(x, t) >= 0 && TurnOf(x, Counter(x, t)) == t
  {
    var z := 2 * t.p + Bit(t.second);
    NonNegativeProduct(z, x.h);
    var w := z * x.h + t.k;
    NonNegativeProduct(w, x.g);
    LowBits(w * x.g + t.s, Bit(t.lower), Bit(t.right), Counter(x, t));
    LastDigit(w, x.g, t.s);
    LastDigit(z, x.h, t.k);
    LastDigit(t.p, 2, Bit(t.second));
  }

  lemma LowBits(u: nat, a: nat, b: nat, v: int)
    requires a < 2 && b < 2 && v == 4 * u + 2 * a + b
    ensures v >= 0 && v / 4 == u && (v / 2) % 2 == a && v % 2 == b
  {
    RemainderIs(v, 4, u, 2 * a + b);
    RemainderIs(v, 2, 2 * u + a, b);
    RemainderIs(2 * u + a, 2, u, a);
  }

  lemma LastDigit(q: nat, n: nat, r: nat)
    requires r < n
    ensures q * n + r >= 0 && (q * n + r) / n == q && (q * n + r) % n == r
  {
    NonNegativeProduct(q, n);
    Commutes(q, n);
    RemainderIs(q * n + r, n, q, r);
  }

  lemma DigitsOf(g: nat, h: nat, n: nat, u: nat)
    requires g > 0 && h > 0 && u < g * (h * n)
    ensures var w := u / g; var z := w / h;
      z < n && 0 <= w % h < h && 0 <= u % g < g && (z * h + w % h) * g + u % g == u
  {
    var w := u / g;
    DivisionOf(u, g);
    DivisionOf(w, h);
    QuotientBelow(u, g, h * n);
    QuotientBelow(w, h, n);
    Commutes(w / h, h);
    Commutes(w, g);
  }

  lemma TurnOfInRange(x: Panel, v: nat)
    requires x.Valid() && v < x.Side() * x.Side()
    ensures InRange(x, TurnOf(x, v)) && Counter(x, TurnOf(x, v)) == v
  {
    Squared(x);
    DigitsOf(x.g, x.h, 2 * x.Half(), v / 4);
    var w := v / 4 / x.g;
    TurnOfDigits(x, v, w, w / x.h);
  }

  lemma TurnOfDigits(x: Panel, v: nat, w: nat, z: nat)
    requires x.Valid() && w == v / 4 / x.g && z == w / x.h
    requires z < 2 * x.Half() && 0 <= w % x.h < x.h && 0 <= v / 4 % x.g < x.g
    requires (z * x.h + w % x.h) * x.g + v / 4 % x.g == v / 4
    ensures InRange(x, TurnOf(x, v)) && Counter(x, TurnOf(x, v)) == v
  {
    assert 2 * (z / 2) + Bit(z % 2 == 1) == z;
    assert v == 4 * (v / 4) + 2 * Bit((v / 2) % 2 == 1) + Bit(v % 2 == 1);
  }

  lemma Squared(x: Panel)
    ensures x.Side() * x.Side() == 4 * (x.g * (x.h * (2 * x.Half())))
  {
    var a, b := x.g, x.h;
    assert x.Half() == 2 * b * a == 2 * (a * b);
    assert x.Side() == 4 * (a * b);
    assert (4 * (a * b)) * (4 * (a * b)) == 4 * ((a * b) * (4 * (a * b)));
    assert a * (b * (4 * (a * b))) == (a * b) * (4 * (a * b));
  }

  /** Where the row falls within its half, and within its group of channels. */
  lemma CellInRange(x: Panel, t: Turn)
    requires x.Valid() && InRange(x, t)
    ensures 0 <= Row(x, t) < x.Side() && 0 <= Col(x, t) < x.Side()
    ensures TurnAt(x, Row(x, t), Col(x, t)) == t
  {
    RowFits(t.s, x.g, x.Channels());
    NonNegativeProduct(x.Channels(), t.s);
    var o := if t.second then (if t.right then x.h + t.k else x.h - 1 - t.k)
             else (if t.right then t.k else x.Channels() - 1 - t.k);
    RemainderIs(x.Channels() * t.s + o, x.Channels(), t.s, o);
  }

  lemma TurnAtInRange(x: Panel, r: nat, c: nat)
    requires x.Valid() && r < x.Side() && c < x.Side()
    ensures var t := TurnAt(x, r, c); InRange(x, t) && Row(x, t) == r && Col(x, t) == c
  {
    var y := if r >= x.Half() then r - x.Half() else r;
    DivisionOf(y, x.Channels());
    QuotientBelow(y, x.Channels(), x.g);
  }

  ghost predicate TableOf(m: array2<int>, x: Panel) {
    x.Valid() && m.Length0 == m.Length1 == x.Side()
  }

  /** Every cell whose turn has come holds the counter of its turn. */
  ghost predicate Filled(m: array2<int>, x: Panel, cntr: int)
    requires TableOf(m, x)
    reads m
  {
    forall r, c :: 0 <= r < x.Side() && 0 <= c < x.Side() && Counter(x, TurnAt(x, r, c)) < cntr ==>
      m[r, c] == Counter(x, TurnAt(x, r, c))
  }

  /** The cells assigned so far, in order: the v-th one is the cell of turn v. */
  ghost predicate Logged(order: seq<(int, int)>, x: Panel, cntr: int)
    requires x.Valid()
  {
    && |order| == cntr
    && forall v :: 0 <= v < cntr ==> order[v] == (Row(x, TurnOf(x, v)), Col(x, TurnOf(x, v)))
  }

  /** One assignment `matrix[row][col] = cntr++`. */
  method Put(m: array2<int>, ghost x: Panel, ghost t: Turn, row: int, col: int, cntr: int,
             ghost order0: seq<(int, int)>)
    returns (next: int, ghost order: seq<(int, int)>)
    requires TableOf(m, x) && InRange(x, t) && Filled(m, x, cntr) && Logged(order0, x, cntr)
    requires row == Row(x, t) && col == Col(x, t) && cntr == Counter(x, t)
    modifies m
    ensures next == cntr + 1 && Filled(m, x, next) && Logged(order, x, next)
  {
    CellInRange(x, t);
    CounterDecodes(x, t);
    label L:
    m[row, col] := cntr;
    next := cntr + 1;
    order := order0 + [(row, col)];
    forall r, c | 0 <= r < x.Side() && 0 <= c < x.Side() && Counter(x, TurnAt(x, r, c)) < next
      ensures m[r, c] == Counter(x, TurnAt(x, r, c))
    {
      if (r, c) != (row, col) {
        TurnAtInRange(x, r, c);
        CounterDecodes(x, TurnAt(x, r, c));
        assert old@L(m[r, c]) == m[r, c];
      }
    }
  }

  /** How i counts through groups and channels in an inner loop. */
  ghost predicate Counting(x: Panel, i: int, k: int, s: int) {
    && 0 <= i <= x.Half() && 0 <= k <= x.h && 0 <= s < x.g
    && i == 2 * (k * x.g + s) + i % 2
  }

  lemma CountingInRange(x: Panel, i: int, k: int, s: int)
    requires x.Valid() && Counting(x, i, k, s)
    ensures i < x.Half() ==> k < x.h
    ensures i == x.Half() ==> k == x.h && s == 0
  {
    HalfIs(x);
    CountingEnds(x.g, x.h, i, k, s, i % 2);
  }

  lemma CountingEnds(g: nat, h: nat, i: int, k: nat, s: nat, odd: nat)
    requires k <= h && s < g && odd < 2 && i == 2 * (k * g + s) + odd
    ensures i < 2 * (h * g) ==> k < h
    ensures i >= 2 * (h * g) ==> k == h
    ensures i == 2 * (h * g) ==> s == 0
  {
    if k < h {
      RowFits(k, h, g);
      Commutes(g, k);
      Commutes(g, h);
    }
  }

  /** `(i+1) % (2g) == 0` holds exactly after the last group. */
  lemma LastGroup(x: Panel, i: int, k: int, s: int)
    requires x.Valid() && Counting(x, i, k, s) && i % 2 == 1 && i < x.Half()
    ensures (i + 1) % (2 * x.g) == 0 <==> s + 1 == x.g
    ensures s + 1 < x.g ==> Counting(x, i + 1, k, s + 1)
    ensures s + 1 == x.g ==> Counting(x, i + 1, k + 1, 0)
  {
    CountingInRange(x, i, k, s);
    PassNumber(x.g, k, s, i);
    if s + 1 < x.g {
      RemainderIs(i + 1, 2 * x.g, k, 2 * (s + 1));
    } else {
      NextRow(k, x.g);
      Distribute(2 * x.g, k);
      RemainderIs(i + 1, 2 * x.g, k + 1, 0);
    }
  }

  /** The number of passes so far in terms of channels and groups. */
  lemma PassNumber(g: int, k: int, s: int, i: int)
    requires i == 2 * (k * g + s) + 1
    ensures i + 1 == (2 * g) * k + 2 * (s + 1)
  {
    MulAssociates(2, g, k);
    Commutes(k, g);
    assert g * (2 * k) == 2 * (k * g);
  }

  ghost predicate CountedTo(x: Panel, p: int, second: bool, i: int, k: int, s: int, cntr: int) {
    Counting(x, i, k, s) && cntr == Counter(x, Turn(p, second, k, s, i % 2 == 1, false))
  }

  /** The counter after the last turn of an inner loop is that of the first turn of the next. */
  lemma NextLoop(x: Panel, p: int, k: int, cntr: int)
    requires k == x.h
    ensures CountedTo(x, p, false, x.Half(), k, 0, cntr) ==> cntr == Counter(x, Turn(p, true, 0, 0, false, false))
    ensures CountedTo(x, p, true, x.Half(), k, 0, cntr) ==> cntr == Counter(x, Turn(p + 1, false, 0, 0, false, false))
  {
    HalfIs(x);
    NextRow(2 * p, x.h);
    NextRow(2 * p + 1, x.h);
  }

  lemma NextRow(z: int, h: int)
    ensures z * h + h == (z + 1) * h
  {
  }

  lemma HalfIs(x: Panel)
    ensures x.Half() == 2 * (x.h * x.g) && x.Half() % 2 == 0
  {
    MulAssociates(2, x.h, x.g);
    var y := x.h * x.g;
    assert x.h * (2 * x.g) == 2 * y;
  }

  /** One step of an inner loop after the two assignments of pass i. */
  method Advance(x: Panel, ghost p: int, ghost second: bool, i: int, k0: int, s0: int, ghost cntr: int)
    returns (k: int, s: int)
    requires x.Valid() && i < x.Half()
    requires CountedTo(x, p, second, i, k0, s0, cntr - 2)
    ensures CountedTo(x, p, second, i + 1, k, s, cntr)
  {
    k, s := k0, s0;
    if i % 2 != 0 {
      LastGroup(x, i, k0, s0);
      s := s + 1;
      if (i + 1) % (2 * x.g) == 0 {
        s := 0;
        k := k + 1;
        var w := (2 * p + Bit(second)) * x.h + k0;
        Distribute(x.g, w);
        Commutes(x.g, w);
        Commutes(x.g, w + 1);
      }
    }
  }

  /** The inner loops of one column pair; the first takes each group's channels from its
      ends inwards, the second from its middle outwards. */
  method InnerLoop(m: array2<int>, x: Panel, ghost p: int, second: bool, left: int, right: int,
                   k0: int, s0: int, cntr0: int, ghost order0: seq<(int, int)>)
    returns (k: int, s: int, cntr: int, ghost order: seq<(int, int)>)
    requires TableOf(m, x) && 0 <= p < x.Half() && left == x.Half() - 1 - p && right == x.Half() + p
    requires k0 == s0 == 0 && cntr0 == Counter(x, Turn(p, second, 0, 0, false, false))
    requires Filled(m, x, cntr0) && Logged(order0, x, cntr0)
    modifies m
    ensures k == x.h && s == 0 && CountedTo(x, p, second, x.Half(), k, s, cntr)
    ensures Filled(m, x, cntr) && Logged(order, x, cntr)
  {
    k, s, cntr, order := k0, s0, cntr0, order0;
    var i := 0;
    while i < x.Half()
      invariant CountedTo(x, p, second, i, k, s, cntr)
      invariant Filled(m, x, cntr) && Logged(order, x, cntr)
    {
      CountingInRange(x, i, k, s);
      ghost var t := Turn(p, second, k, s, i % 2 == 1, false);
      var base := if i % 2 == 0 then 0 else x.Half();
      var row := if second then base + x.h - 1 - k + x.Channels() * s else base + x.Channels() * (s + 1) - 1 - k;
      Distribute(x.Channels(), s);
      cntr, order := Put(m, x, t, row, left, cntr, order);
      row := if second then base + x.h + k + x.Channels() * s else base + x.Channels() * s + k;
      cntr, order := Put(m, x, t.(right := true), row, right, cntr, order);
      k, s := Advance(x, p, second, i, k, s, cntr);
      i := i + 1;
    }
    CountingInRange(x, i, k, s);
  }

  /** The whole program up to the file it prints; a cell never assigned would keep the
      background value. */
  method FillTable(x: Panel) returns (m: array2<int>, ghost order: seq<(int, int)>)
    requires x.Valid()
    ensures fresh(m) && TableOf(m, x)
    ensures forall r, c :: 0 <= r < x.Side() && 0 <= c < x.Side() ==> m[r, c] == CounterAt(x, r, c)
    ensures Logged(order, x, x.Side() * x.Side())
  {
    m := new int[x.Side(), x.Side()]((r, c) => 0x11111111);
    order := [];
    var k, s, cntr := 0, 0, 0;
    var left, right := x.Half() - 1, x.Half();
    var p := 0;
    FirstTurn(x);
    while p < x.Half()
      invariant 0 <= p <= x.Half() && left == x.Half() - 1 - p && right == x.Half() + p
      invariant k == s == 0 && cntr == Counter(x, Turn(p, false, 0, 0, false, false))
      invariant Filled(m, x, cntr) && Logged(order, x, cntr)
    {
      k, s, cntr, order := InnerLoop(m, x, p, false, left, right, k, s, cntr, order);
      NextLoop(x, p, k, cntr);
      k, s := 0, 0;
      k, s, cntr, order := InnerLoop(m, x, p, true, left, right, k, s, cntr, order);
      NextLoop(x, p, k, cntr);
      left, right := left - 1, right + 1;
      k := 0;
      p := p + 1;
    }
    LastTurn(x);
    forall r, c | 0 <= r < x.Side() && 0 <= c < x.Side()
      ensures m[r, c] == Counter(x, TurnAt(x, r, c))
    {
      TurnAtInRange(x, r, c);
      CounterBelow(x, TurnAt(x, r, c));
    }
  }

  lemma FirstTurn(x: Panel)
    requires x.Valid()
    ensures Counter(x, Turn(0, false, 0, 0, false, false)) == 0
    ensures forall r, c :: 0 <= r < x.Side() && 0 <= c < x.Side() ==> Counter(x, TurnAt(x, r, c)) >= 0
  {
    forall r, c | 0 <= r < x.Side() && 0 <= c < x.Side()
      ensures Counter(x, TurnAt(x, r, c)) >= 0
    {
      TurnAtInRange(x, r, c);
      CounterDecodes(x, TurnAt(x, r, c));
    }
  }

  lemma LastTurn(x: Panel)
    ensures Counter(x, Turn(x.Half(), false, 0, 0, false, false)) == x.Side() * x.Side()
  {
    Squared(x);
    var a, b, n := x.g, x.h, 2 * x.Half();
    Commutes(b, n);
    Commutes(a, b * n);
  }

  /** The counter runs up to the number of cells. */
  lemma CounterBelow(x: Panel, t: Turn)
    requires x.Valid() && InRange(x, t)
    ensures 0 <= Counter(x, t) < x.Side() * x.Side()
  {
    CounterDecodes(x, t);
    Squared(x);
    var z, n := 2 * t.p + Bit(t.second), 2 * x.Half();
    RowFits(z, n, x.h);
    Commutes(x.h, z);
    var w := z * x.h + t.k;
    RowFits(w, x.h * n, x.g);
    Commutes(x.g, w);
  }

  /** The table is a permutation of 0 .. Side*Side-1: its values are in range, no two cells
      share one, and every value occurs. */
  lemma TableIsPermutation(x: Panel, m: array2<int>)
    requires TableOf(m, x)
    requires forall r, c :: 0 <= r < x.Side() && 0 <= c < x.Side() ==> m[r, c] == CounterAt(x, r, c)
    ensures forall r, c :: 0 <= r < x.Side() && 0 <= c < x.Side() ==> 0 <= m[r, c] < x.Side() * x.Side()
    ensures forall r, c, r', c' ::
              0 <= r < x.Side() && 0 <= c < x.Side() && 0 <= r' < x.Side() && 0 <= c' < x.Side() ==>
              m[r, c] == m[r', c'] ==> r == r' && c == c'
    ensures forall v :: 0 <= v < x.Side() * x.Side() ==>
              var t := TurnOf(x, v);
              0 <= Row(x, t) < x.Side() && 0 <= Col(x, t) < x.Side() && m[Row(x, t), Col(x, t)] == v
  {
    forall r, c | 0 <= r < x.Side() && 0 <= c < x.Side()
      ensures 0 <= m[r, c] < x.Side() * x.Side()
      ensures TurnOf(x, m[r, c]) == TurnAt(x, r, c)
      ensures Row(x, TurnAt(x, r, c)) == r && Col(x, TurnAt(x, r, c)) == c
    {
      TurnAtInRange(x, r, c);
      CounterBelow(x, TurnAt(x, r, c));
      CounterDecodes(x, TurnAt(x, r, c));
    }
    forall v | 0 <= v < x.Side() * x.Side()
      ensures var t := TurnOf(x, v);
        0 <= Row(x, t) < x.Side() && 0 <= Col(x, t) < x.Side() && m[Row(x, t), Col(x, t)] == v
    {
      TurnOfInRange(x, v);
      CellInRange(x, TurnOf(x, v));
    }
  }

  /** Each cell is assigned exactly once. */
  lemma AssignedOnce(x: Panel, order: seq<(int, int)>)
    requires x.Valid() && Logged(order, x, x.Side() * x.Side())
    ensures forall i, j :: 0 <= i < j < |order| ==> order[i] != order[j]
    ensures forall r, c :: 0 <= r < x.Side() && 0 <= c < x.Side() ==> (r, c) in order
  {
    forall i, j | 0 <= i < j < |order|
      ensures order[i] != order[j]
    {
      AssignedAt(x, i);
      AssignedAt(x, j);
    }
    forall r, c | 0 <= r < x.Side() && 0 <= c < x.Side()
      ensures (r, c) in order
    {
      AssignedAt(x, CounterAt(x, r, c));
      assert order[CounterAt(x, r, c)] == (r, c);
    }
  }

  lemma AssignedAt(x: Panel, v: nat)
    requires x.Valid() && v < x.Side() * x.Side()
    ensures var t := TurnOf(x, v);
      0 <= Row(x, t) < x.Side() && 0 <= Col(x, t) < x.Side() && CounterAt(x, Row(x, t), Col(x, t)) == v
  {
    TurnOfInRange(x, v);
    CellInRange(x, TurnOf(x, v));
  }

  /** The value a cell receives. */
  function CounterAt(x: Panel, r: nat, c: nat): (v: nat)
    requires x.Valid() && r < x.Side() && c < x.Side()
    ensures v < x.Side() * x.Side() && Row(x, TurnOf(x, v)) == r && Col(x, TurnOf(x, v)) == c
  {
    TurnAtInRange(x, r, c);
    CounterBelow(x, TurnAt(x, r, c));
    CounterDecodes(x, TurnAt(x, r, c));
    Counter(x, TurnAt(x, r, c))
  }
}
