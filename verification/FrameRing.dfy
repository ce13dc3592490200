/** pthreads.c: one writer thread and one reader thread share a ring of frames
    through wp and rp, without a lock. Every statement that touches shared
    memory is a step of its own, and the steps interleave in any order. */
module FrameRing {
  import opened Arith

  /** Where the writer stands (line 36, which reads rp up to twice, then 48, 54 and 55), and
      the reader (155, 159, 168 and 172). */
  datatype WriterAt = CheckFull | CheckFullAgain | Store | Increment | WrapWp
  datatype ReaderAt = WrapRp | CheckEmpty | Take | Release

  /** The shared memory, the two program counters, and what has been written and
      delivered so far: a frame counts as written when wp is incremented. */
  datatype State<F> = State(buf: seq<F>, wp: nat, rp: nat, w: WriterAt, r: ReaderAt,
                            written: seq<F>, delivered: seq<F>) {
    function Cap(): nat { |buf| }

    /** Frames whose slot the reader has given back. */
    function Released(): int { |delivered| - (if r == Release then 1 else 0) }

    function Pending(): int { |written| - Released() }

    /** The test of line 159. */
    predicate Empty() { rp == wp }
  }

  datatype Action<F> = Writer(frame: F) | Reader

  function Step<F>(s: State<F>, a: Action<F>): State<F> {
    match a
    case Writer(frame) => WriterStep(s, frame)
    case Reader => ReaderStep(s)
  }

  function WriterStep<F>(s: State<F>, frame: F): State<F> {
    match s.w
    case CheckFull => if s.wp + 1 == s.rp then s else s.(w := if s.wp + 1 == s.Cap() then CheckFullAgain else Store)
    case CheckFullAgain => s.(w := if s.rp == 0 then CheckFull else Store)
    case Store => if s.wp < s.Cap() then s.(buf := s.buf[s.wp := frame], w := Increment) else s
    case Increment =>
      if s.wp < s.Cap() then s.(wp := s.wp + 1, written := s.written + [s.buf[s.wp]], w := WrapWp) else s
    case WrapWp => s.(wp := if s.wp == s.Cap() then 0 else s.wp, w := CheckFull)
  }

  function ReaderStep<F>(s: State<F>): State<F> {
    match s.r
    case WrapRp => s.(rp := if s.rp == s.Cap() then 0 else s.rp, r := CheckEmpty)
    case CheckEmpty => if s.Empty() then s.(r := WrapRp) else s.(r := Take)
    case Take => if s.rp < s.Cap() then s.(delivered := s.delivered + [s.buf[s.rp]], r := Release) else s
    case Release => s.(rp := s.rp + 1, r := WrapRp)
  }

  function Initial<F>(buf: seq<F>): State<F> {
    State(buf, 0, 0, CheckFull, WrapRp, [], [])
  }

  /** The state after each action of a schedule. */
  function Run<F>(s: State<F>, schedule: seq<Action<F>>): (t: State<F>) {
    if schedule == [] then s
    else Step(Run(s, schedule[..|schedule| - 1]), schedule[|schedule| - 1])
  }

  /** The frames handed to the writer in a run, as its stores take them. */
  function Handed<F>(s: State<F>, schedule: seq<Action<F>>): seq<F> {
    if schedule == [] then []
    else
      var front, last := schedule[..|schedule| - 1], schedule[|schedule| - 1];
      Handed(s, front) + if last.Writer? && Run(s, front).w == Store then [last.frame] else []
  }

  /** One action: what is written, with a frame that is stored and not yet published, grows by
      what is handed in. */
  lemma HandedStep<F>(s: State<F>, action: Action<F>)
    requires 0 < s.Cap() && s.wp <= s.Cap() && (s.w != WrapWp ==> s.wp < s.Cap())
    ensures var t := Step(s, action);
      && t.Cap() == s.Cap() && t.wp <= t.Cap() && (t.w != WrapWp ==> t.wp < t.Cap())
      && t.written + (if t.w == Increment then [t.buf[t.wp]] else []) ==
         s.written + (if s.w == Increment then [s.buf[s.wp]] else []) +
         if action.Writer? && s.w == Store then [action.frame] else []
  {
  }

  /** In every run, what counts as written is what was handed in, but for a frame that is
      stored and not yet published; and wp never leaves the ring. */
  lemma {:induction false} WrittenIsHanded<F>(buf: seq<F>, schedule: seq<Action<F>>)
    requires |buf| > 0
    ensures var t := Run(Initial(buf), schedule);
      && t.Cap() == |buf| && t.wp <= t.Cap() && (t.w != WrapWp ==> t.wp < t.Cap())
      && Handed(Initial(buf), schedule) == t.written + if t.w == Increment then [t.buf[t.wp]] else []
  {
    hide Step;
    if schedule != [] {
      var front := schedule[..|schedule| - 1];
      WrittenIsHanded(buf, front);
      HandedStep(Run(Initial(buf), front), schedule[|schedule| - 1]);
    }
  }

  /** What the ring promises: frames come out in the order they went in, none is
      lost or seen twice, at most Cap - 1 wait, and the reader is past its test
      only when there is something to take. */
  ghost predicate Safe<F>(s: State<F>) {
    && s.delivered <= s.written
    && 0 <= s.Pending() <= s.Cap() - 1
    && (s.r == Take ==> s.Pending() > 0)
  }

  ghost predicate Inv<F>(s: State<F>) {
    && s.Cap() > 0
    && Safe(s)
    && WriterIndex(s) && ReaderIndex(s)
    && (s.w == Store || s.w == Increment ==> s.Pending() <= s.Cap() - 2)
    && (s.w == CheckFullAgain ==> s.wp + 1 == s.Cap() && (s.rp == s.Cap() ==> s.Pending() <= s.Cap() - 2))
    && forall i :: s.Released() <= i < |s.written| ==> s.buf[i % s.Cap()] == s.written[i]
  }

  ghost predicate WriterIndex<F>(s: State<F>)
    requires s.Cap() > 0
  {
    if s.w == WrapWp then 0 < s.wp <= s.Cap() && |s.written| > 0 && s.wp - 1 == (|s.written| - 1) % s.Cap()
    else s.wp == |s.written| % s.Cap()
  }

  /** rp is wrapped lazily: it may stand at Cap until the reader's next round. */
  ghost predicate ReaderIndex<F>(s: State<F>)
    requires s.Cap() > 0
  {
    var released := s.Released();
    released >= 0 &&
    if s.r == WrapRp then
      (s.rp == released % s.Cap()) || (s.rp == s.Cap() && released % s.Cap() == 0)
    else s.rp == released % s.Cap()
  }

  /** The one bad moment: the ring is drained, wp stands at Cap between its
      increment and its wrap, and the reader, already wrapped to 0, is about to compare. */
  predicate BadMoment<F>(s: State<F>) {
    s.r == CheckEmpty && s.w == WrapWp && s.wp == s.Cap() && s.rp == 0
  }

  lemma WrittenIndex<F>(s: State<F>)
    requires Inv(s)
    ensures s.w != WrapWp ==> s.wp < s.Cap()
    ensures s.wp % s.Cap() == |s.written| % s.Cap()
    ensures s.w == WrapWp && s.wp < s.Cap() ==> s.wp == |s.written| % s.Cap()
    ensures s.w == WrapWp && s.wp == s.Cap() ==> |s.written| % s.Cap() == 0
  {
    if s.w == WrapWp {
      NextRemainder(|s.written| - 1, s.Cap());
      if s.wp == s.Cap() { RemainderIs(s.wp, s.Cap(), 1, 0); } else { RemainderIs(s.wp, s.Cap(), 0, s.wp); }
    } else {
      RemainderIs(s.wp, s.Cap(), 0, s.wp);
    }
  }

  /** The full test is exact, also while rp stands at Cap, and although the reader may move on
      between its two reads of rp: whenever it decides, it decides right for that moment. */
  lemma FullTestIsExact<F>(s: State<F>)
    requires Inv(s)
    ensures s.w == CheckFull && s.wp + 1 == s.rp ==> s.Pending() == s.Cap() - 1
    ensures s.w == CheckFull && s.wp + 1 != s.rp && s.wp + 1 != s.Cap() ==> s.Pending() < s.Cap() - 1
    ensures s.w == CheckFullAgain ==> (s.rp == 0 <==> s.Pending() == s.Cap() - 1)
  {
    var n, w, r := s.Cap(), |s.written|, s.Released();
    NextRemainder(w, n);
    if s.Pending() < n - 1 {
      if r < w + 1 { RemaindersDiffer(r, w + 1, n); }
    } else {
      DivisionOf(r, n);
      Distribute(n, r / n);
      RemainderIs(w + 1, n, r / n + 1, r % n);
    }
  }

  /** The empty test is exact at every moment but the bad one, when it always takes an empty ring for a full one. */
  lemma EmptyTestIsExact<F>(s: State<F>)
    requires Inv(s) && s.r == CheckEmpty
    ensures !BadMoment(s) ==> (s.Empty() <==> s.Pending() == 0)
    ensures BadMoment(s) ==> !s.Empty() && s.Pending() == 0
  {
    var n, w, r := s.Cap(), |s.written|, s.Released();
    WrittenIndex(s);
    if r < w { RemaindersDiffer(r, w, n); }
  }

  /** The slot the writer stores into holds no frame that is still to be read. */
  lemma StoreHitsFreeSlot<F>(s: State<F>)
    requires Inv(s) && s.w == Store
    ensures s.wp < s.Cap()
    ensures forall i :: s.Released() <= i < |s.written| ==> i % s.Cap() != s.wp
  {
    WrittenIndex(s);
    forall i | s.Released() <= i < |s.written| ensures i % s.Cap() != s.wp {
      RemaindersDiffer(i, |s.written|, s.Cap());
    }
  }

  lemma StoreKeeps<F>(s: State<F>, frame: F)
    requires Inv(s) && s.w == Store
    ensures Inv(WriterStep(s, frame))
  {
    StoreHitsFreeSlot(s);
    var t := WriterStep(s, frame);
    forall i | t.Released() <= i < |t.written| ensures t.buf[i % t.Cap()] == t.written[i] {
      assert i % s.Cap() != s.wp;
    }
  }

  lemma IncrementKeeps<F>(s: State<F>, frame: F)
    requires Inv(s) && s.w == Increment
    ensures Inv(WriterStep(s, frame))
  {
    WrittenIndex(s);
    var t := WriterStep(s, frame);
    PrefixOfMore(s.delivered, s.written, s.buf[s.wp]);
    forall i | t.Released() <= i < |t.written| ensures t.buf[i % t.Cap()] == t.written[i] {
      if i < |s.written| { assert t.written[i] == s.written[i]; }
    }
  }

  lemma PrefixOfMore<F>(p: seq<F>, s: seq<F>, x: F)
    requires p <= s
    ensures p <= s + [x]
  {
  }

  lemma WriterKeeps<F>(s: State<F>, frame: F)
    requires Inv(s)
    ensures Inv(WriterStep(s, frame))
  {
    match s.w
    case CheckFull | CheckFullAgain => FullTestIsExact(s);
    case Store => StoreKeeps(s, frame);
    case Increment => IncrementKeeps(s, frame);
    case WrapWp => WrittenIndex(s);
  }

  lemma ReaderKeeps<F>(s: State<F>)
    requires Inv(s) && !BadMoment(s)
    ensures Inv(ReaderStep(s))
  {
    match s.r
    case WrapRp =>
    case CheckEmpty => EmptyTestIsExact(s);
    case Take =>
      var t := ReaderStep(s);
      assert s.written[..|t.delivered|] == s.written[..|s.delivered|] + [s.written[|s.delivered|]];
    case Release => NextRemainder(s.Released(), s.Cap());
  }

  /** No reader action of the schedule falls into a bad moment. */
  ghost predicate Avoids<F>(s: State<F>, schedule: seq<Action<F>>) {
    schedule == [] || (
      var front := schedule[..|schedule| - 1];
      Avoids(s, front) && !(schedule[|schedule| - 1].Reader? && BadMoment(Run(s, front))))
  }

  lemma {:induction false} RunKeeps<F>(s: State<F>, schedule: seq<Action<F>>)
    requires Inv(s) && Avoids(s, schedule)
    ensures Inv(Run(s, schedule))
  {
    if schedule != [] {
      var front := schedule[..|schedule| - 1];
      RunKeeps(s, front);
      match schedule[|schedule| - 1]
      case Writer(frame) => WriterKeeps(Run(s, front), frame);
      case Reader => ReaderKeeps(Run(s, front));
    }
  }

  ghost predicate AlwaysSafe<F>(s: State<F>, schedule: seq<Action<F>>) {
    forall k :: 0 <= k <= |schedule| ==> Safe(Run(s, schedule[..k]))
  }

  lemma {:induction false} AvoidsPrefix<F>(s: State<F>, schedule: seq<Action<F>>, k: nat)
    requires k <= |schedule| && Avoids(s, schedule)
    ensures Avoids(s, schedule[..k])
    decreases |schedule|
  {
    if k < |schedule| {
      var front := schedule[..|schedule| - 1];
      AvoidsPrefix(s, front, k);
      assert front[..k] == schedule[..k];
    } else {
      assert schedule[..k] == schedule;
    }
  }

  lemma {:induction false} UnsafeUnlessAvoided<F>(s: State<F>, schedule: seq<Action<F>>)
    requires Inv(s) && !Avoids(s, schedule)
    ensures !AlwaysSafe(s, schedule)
  {
    var front := schedule[..|schedule| - 1];
    if Avoids(s, front) {
      RunKeeps(s, front);
      EmptyTestIsExact(Run(s, front));
      assert schedule[..|schedule|] == schedule;
      assert !Safe(Run(s, schedule[..|schedule|]));
    } else {
      UnsafeUnlessAvoided(s, front);
      var k :| 0 <= k <= |front| && !Safe(Run(s, front[..k]));
      assert front[..k] == schedule[..k];
    }
  }

  /** What has come out is the beginning of what was handed in, and whatever is missing is in
      the ring, of which one slot stays free. */
  ghost predicate InOrder<F>(buf: seq<F>, schedule: seq<Action<F>>) {
    var t := Run(Initial(buf), schedule);
    && t.delivered <= Handed(Initial(buf), schedule)
    && |Handed(Initial(buf), schedule)| <= |t.delivered| + |buf|
    && |t.written| <= |t.delivered| + |buf| - 1
  }

  /** The same without the names of this module's predicates. */
  lemma SafeIsInOrder<F>(buf: seq<F>, schedule: seq<Action<F>>)
    requires |buf| > 0 && Avoids(Initial(buf), schedule)
    ensures InOrder(buf, schedule)
    ensures var t := Run(Initial(buf), schedule);
      && t.delivered <= Handed(Initial(buf), schedule)
      && |t.written| - |t.delivered| <= |buf| - 1
      // whoever waits does so only for the other
      && (t.r == CheckEmpty && !BadMoment(t) && ReaderStep(t).r != Take ==> |t.delivered| == |t.written|)
      && (forall f :: t.w == CheckFull && WriterStep(t, f).w == CheckFull ==> |t.written| - t.Released() == |buf| - 1)
      && (forall f :: t.w == CheckFullAgain && WriterStep(t, f).w != Store ==> |t.written| - t.Released() == |buf| - 1)
  {
    var t := Run(Initial(buf), schedule);
    StartsWell(buf);
    RunKeeps(Initial(buf), schedule);
    WrittenIsHanded(buf, schedule);
    FullTestIsExact(t);
    if t.r == CheckEmpty { EmptyTestIsExact(t); }
  }

  lemma StartsWell<F>(buf: seq<F>)
    requires |buf| > 0
    ensures Inv(Initial(buf))
  {
    RemainderIs(0, |buf|, 0, 0);
  }

  /** Safety of the ring over every schedule: it holds at all times exactly when
      the reader never compares in the bad moment. */
  lemma SafeIffBadMomentAvoided<F>(buf: seq<F>, schedule: seq<Action<F>>)
    requires |buf| > 0
    ensures AlwaysSafe(Initial(buf), schedule) <==> Avoids(Initial(buf), schedule)
    ensures Avoids(Initial(buf), schedule) ==> forall k :: 0 <= k <= |schedule| ==> InOrder(buf, schedule[..k])
  {
    var s := Initial(buf);
    StartsWell(buf);
    if Avoids(s, schedule) {
      forall k | 0 <= k <= |schedule| ensures Safe(Run(s, schedule[..k])) {
        AvoidsPrefix(s, schedule, k);
        RunKeeps(s, schedule[..k]);
      }
      forall k | 0 <= k <= |schedule| ensures InOrder(buf, schedule[..k]) {
        AvoidsPrefix(s, schedule, k);
        SafeIsInOrder(buf, schedule[..k]);
      }
    } else {
      UnsafeUnlessAvoided(s, schedule);
    }
  }

  /** The writer's increment and its wrap are one step: the reader never runs between them. */
  ghost predicate PublishesAtomically<F>(s: State<F>, schedule: seq<Action<F>>) {
    forall k :: 0 <= k < |schedule| && schedule[k].Reader? ==> Run(s, schedule[..k]).w != WrapWp
  }

  lemma {:induction false} AtomicPublishAvoids<F>(s: State<F>, schedule: seq<Action<F>>)
    requires PublishesAtomically(s, schedule)
    ensures Avoids(s, schedule)
  {
    if schedule != [] {
      var front := schedule[..|schedule| - 1];
      forall k | 0 <= k < |front| && front[k].Reader? ensures Run(s, front[..k]).w != WrapWp {
        assert front[..k] == schedule[..k];
      }
      AtomicPublishAvoids(s, front);
    }
  }

  /** With publishing atomic the ring is safe under every interleaving. */
  lemma AtomicPublishIsSafe<F>(buf: seq<F>, schedule: seq<Action<F>>)
    requires |buf| > 0
    requires forall k :: 0 <= k < |schedule| && schedule[k].Reader? ==> Run(Initial(buf), schedule[..k]).w != WrapWp
    ensures AlwaysSafe(Initial(buf), schedule)
    ensures forall k :: 0 <= k <= |schedule| ==>
              var t := Run(Initial(buf), schedule[..k]);
              && t.delivered <= Handed(Initial(buf), schedule[..k])
              && |t.written| - |t.delivered| <= |buf| - 1
  {
    AtomicPublishAvoids(Initial(buf), schedule);
    SafeIffBadMomentAvoided(buf, schedule);
    forall k | 0 <= k <= |schedule| ensures InOrder(buf, schedule[..k]) { }
  }

  /** In the bad moment the reader goes on to deliver a frame that nobody has written for it. */
  lemma BadMomentDeliversTooMuch<F>(s: State<F>)
    requires Inv(s) && BadMoment(s)
    ensures |ReaderStep(ReaderStep(s)).delivered| == |s.written| + 1
  {
    EmptyTestIsExact(s);
  }

  function Times<F>(a: Action<F>, n: nat): seq<Action<F>> {
    if n == 0 then [] else Times(a, n - 1) + [a]
  }

  lemma {:induction false} RunTimes<F>(s: State<F>, schedule: seq<Action<F>>, a: Action<F>, n: nat)
    ensures n > 0 ==> Run(s, schedule + Times(a, n)) == Step(Run(s, schedule + Times(a, n - 1)), a)
    ensures Run(s, schedule + Times(a, 0)) == Run(s, schedule)
  {
    assert schedule + Times(a, 0) == schedule;
    if n > 0 {
      var t := schedule + Times(a, n);
      assert t[..|t| - 1] == schedule + Times(a, n - 1);
    }
  }

  /** A whole round of the writer followed by one of the reader leaves the ring empty, one slot further on. */
  lemma RoundFrom<F>(s: State<F>, schedule: seq<Action<F>>, frame: F)
    requires var t := Run(s, schedule);
      t.w == CheckFull && t.r == WrapRp && t.wp == t.rp && t.wp + 1 < t.Cap()
    ensures var t := Run(s, schedule);
      var u := Run(s, (schedule + Times(Writer(frame), 4)) + Times(Reader, 4));
      u.w == CheckFull && u.r == WrapRp && u.wp == u.rp == t.wp + 1 && u.Cap() == t.Cap()
  {
    var a, b := Writer(frame), Reader;
    var half := schedule + Times(a, 4);
    RunTimes(s, schedule, a, 0); RunTimes(s, schedule, a, 1); RunTimes(s, schedule, a, 2);
    RunTimes(s, schedule, a, 3); RunTimes(s, schedule, a, 4);
    RunTimes(s, half, b, 0); RunTimes(s, half, b, 1); RunTimes(s, half, b, 2);
    RunTimes(s, half, b, 3); RunTimes(s, half, b, 4);
  }

  lemma {:induction false} Rounds<F>(buf: seq<F>, frame: F, k: nat) returns (schedule: seq<Action<F>>)
    requires k < |buf|
    ensures var t := Run(Initial(buf), schedule);
      t.w == CheckFull && t.r == WrapRp && t.wp == t.rp == k && t.Cap() == |buf|
    decreases k
  {
    if k == 0 {
      schedule := [];
    } else {
      schedule := Rounds(buf, frame, k - 1);
      RoundFrom(Initial(buf), schedule, frame);
      schedule := (schedule + Times(Writer(frame), 4)) + Times(Reader, 4);
    }
  }

  /** The writer stops between increment and wrap at the top of the ring while the reader drains it and wraps. */
  lemma IntoBadMoment<F>(s: State<F>, schedule: seq<Action<F>>, frame: F)
    requires var t := Run(s, schedule);
      t.w == CheckFull && t.r == WrapRp && t.wp == t.rp > 0 && t.wp + 1 == t.Cap()
    ensures BadMoment(Run(s, (schedule + Times(Writer(frame), 4)) + Times(Reader, 5)))
  {
    var a, b := Writer(frame), Reader;
    var half := schedule + Times(a, 4);
    RunTimes(s, schedule, a, 0); RunTimes(s, schedule, a, 1); RunTimes(s, schedule, a, 2);
    RunTimes(s, schedule, a, 3); RunTimes(s, schedule, a, 4);
    RunTimes(s, half, b, 0); RunTimes(s, half, b, 1); RunTimes(s, half, b, 2);
    RunTimes(s, half, b, 3); RunTimes(s, half, b, 4); RunTimes(s, half, b, 5);
  }

  /** With two slots or more the bad moment can come about, so the ring as written is not always safe. */
  lemma BadMomentIsReachable<F>(buf: seq<F>, frame: F) returns (schedule: seq<Action<F>>)
    requires |buf| >= 2
    ensures BadMoment(Run(Initial(buf), schedule))
    ensures !AlwaysSafe(Initial(buf), schedule + [Reader])
  {
    hide Run, BadMoment, AlwaysSafe;
    schedule := Rounds(buf, frame, |buf| - 1);
    IntoBadMoment(Initial(buf), schedule, frame);
    schedule := (schedule + Times(Writer(frame), 4)) + Times(Reader, 5);
    var longer := schedule + [Reader];
    assert longer[..|longer| - 1] == schedule;
    SafeIffBadMomentAvoided(buf, longer);
  }

  /** The shared variables themselves; each method is one step of its thread. */
  class Ring<F> {
    const arrays: array<F>
    var wp: nat
    var rp: nat
    var w: WriterAt
    var r: ReaderAt
    ghost var written: seq<F>
    ghost var delivered: seq<F>

    ghost function View(): State<F>
      reads this, arrays
    {
      State(arrays[..], wp, rp, w, r, written, delivered)
    }

    /** No step, in whatever interleaving, indexes outside the array. */
    ghost predicate InBounds()
      reads this
    {
      && arrays.Length > 0
      && wp <= arrays.Length && (w != WrapWp ==> wp < arrays.Length)
      && rp <= arrays.Length && (r != WrapRp ==> rp < arrays.Length)
    }

    constructor (arrays: array<F>)
      requires arrays.Length > 0
      ensures this.arrays == arrays && InBounds() && View() == Initial(arrays[..])
    {
      this.arrays, wp, rp, w, r := arrays, 0, 0, CheckFull, WrapRp;
      written, delivered := [], [];
    }

    method WriterStep(frame: F)
      requires InBounds()
      modifies this, arrays
      ensures InBounds() && View() == Step(old(View()), Writer(frame))
    {
      match w
      case CheckFull =>
        if wp + 1 != rp { w := if wp + 1 == arrays.Length then CheckFullAgain else Store; }
      case CheckFullAgain =>
        w := if rp == 0 then CheckFull else Store;
      case Store =>
        arrays[wp] := frame;
        w := Increment;
      case Increment =>
        written := written + [arrays[wp]];
        wp := wp + 1;
        w := WrapWp;
      case WrapWp =>
        if wp == arrays.Length { wp := 0; }
        w := CheckFull;
    }

    method ReaderStep() returns (sent: seq<F>)
      requires InBounds()
      modifies this
      ensures InBounds() && View() == Step(old(View()), Reader)
      ensures delivered == old(delivered) + sent
    {
      sent := [];
      match r
      case WrapRp =>
        if rp == arrays.Length { rp := 0; }
        r := CheckEmpty;
      case CheckEmpty =>
        r := if rp == wp then WrapRp else Take;
      case Take =>
        sent := [arrays[rp]];
        delivered := delivered + sent;
        r := Release;
      case Release =>
        rp := rp + 1;
        r := WrapRp;
    }
  }
}
