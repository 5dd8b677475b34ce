/**
 The store-buffering litmus test of gcc/barrier/runtime_barrier.cpp: a main thread and two workers that meet
 at two pthread barriers round after round.  Every thread takes its steps one memory access or barrier
 action at a time, in any interleaving.
 */
module Litmus {
  import opened Machine

  datatype Loc = X | Y | R1 | R2

  datatype Who = Main | One | Two

  // Where a thread is: Zeroing(n) has n of start()'s four assignments behind it; a thread at a barrier
  // remembers the generation it arrived in.
  datatype Pc =
    | Zeroing(n: nat)
    | ArriveStart | AtStart(gen: nat)
    | StoreOne | LoadOther | StoreResult(v: int)
    | ArriveEnd | AtEnd(gen: nat)
    | CheckFirst | CheckSecond | Failed

  datatype Store = Store(loc: Loc, v: int)

  // A pthread barrier for three: arrivals of the current generation.
  datatype Barrier = Barrier(arrived: nat, gen: nat)

  datatype State = State(
    x: int, y: int, r1: int, r2: int,
    main: Pc, one: Pc, two: Pc,
    start: Barrier, end: Barrier,
    bufMain: seq<Store>, bufOne: seq<Store>, bufTwo: seq<Store>)

  // Sequentially consistent memory, or stores that wait in a buffer of the processor that made them.
  datatype Model = Sequential | Buffered

  const INIT := State(0, 0, 0, 0, Zeroing(0), ArriveStart, ArriveStart, Barrier(0, 0), Barrier(0, 0), [], [], [])

  function PcOf(s: State, w: Who): Pc {
    match w case Main => s.main case One => s.one case Two => s.two
  }

  function AtPc(s: State, w: Who, pc: Pc): State {
    match w case Main => s.(main := pc) case One => s.(one := pc) case Two => s.(two := pc)
  }

  function BufOf(s: State, w: Who): seq<Store> {
    match w case Main => s.bufMain case One => s.bufOne case Two => s.bufTwo
  }

  function WithBuf(s: State, w: Who, b: seq<Store>): State {
    match w case Main => s.(bufMain := b) case One => s.(bufOne := b) case Two => s.(bufTwo := b)
  }

  function Memory(s: State, l: Loc): int {
    match l case X => s.x case Y => s.y case R1 => s.r1 case R2 => s.r2
  }

  function Put(s: State, l: Loc, v: int): State {
    match l case X => s.(x := v) case Y => s.(y := v) case R1 => s.(r1 := v) case R2 => s.(r2 := v)
  }

  // The newest buffered value of a location, or what memory holds.
  function Newest(b: seq<Store>, l: Loc, memory: int): int {
    if b == [] then memory
    else if b[|b| - 1].loc == l then b[|b| - 1].v
    else Newest(b[..|b| - 1], l, memory)
  }

  function Read(s: State, w: Who, l: Loc): int {
    Newest(BufOf(s, w), l, Memory(s, l))
  }

  function Write(m: Model, s: State, w: Who, l: Loc, v: int): State {
    if m == Sequential then Put(s, l, v) else WithBuf(s, w, BufOf(s, w) + [Store(l, v)])
  }

  // start() assigns from right to left.
  function ZeroedBy(n: nat): Loc {
    match n case 0 => R2 case 1 => R1 case 2 => Y case _ => X
  }

  function AfterStart(w: Who): Pc {
    if w == Main then ArriveEnd else StoreOne
  }

  function AfterEnd(w: Who): Pc {
    if w == Main then CheckFirst else ArriveStart
  }

  // One step of a thread; None where it has to wait.  A barrier is a full fence: the thread's stores are out.
  function Next(m: Model, s: State, w: Who): Option<State> {
    match PcOf(s, w)
    case Zeroing(n) =>
      Some(AtPc(Write(m, s, w, ZeroedBy(n), 0), w, if n >= 3 then ArriveStart else Zeroing(n + 1)))
    case ArriveStart =>
      if BufOf(s, w) != [] then None
      else if s.start.arrived == 2 then
        Some(AtPc(s.(start := Barrier(0, s.start.gen + 1)), w, AfterStart(w)))
      else
        Some(AtPc(s.(start := s.start.(arrived := s.start.arrived + 1)), w, AtStart(s.start.gen)))
    case AtStart(gen) =>
      if gen < s.start.gen then Some(AtPc(s, w, AfterStart(w))) else None
    case StoreOne =>
      Some(AtPc(Write(m, s, w, if w == One then X else Y, 1), w, LoadOther))
    case LoadOther =>
      Some(AtPc(s, w, StoreResult(Read(s, w, if w == One then Y else X))))
    case StoreResult(v) =>
      Some(AtPc(Write(m, s, w, if w == One then R1 else R2, v), w, ArriveEnd))
    case ArriveEnd =>
      if BufOf(s, w) != [] then None
      else if s.end.arrived == 2 then
        Some(AtPc(s.(end := Barrier(0, s.end.gen + 1)), w, AfterEnd(w)))
      else
        Some(AtPc(s.(end := s.end.(arrived := s.end.arrived + 1)), w, AtEnd(s.end.gen)))
    case AtEnd(gen) =>
      if gen < s.end.gen then Some(AtPc(s, w, AfterEnd(w))) else None
    case CheckFirst =>
      Some(AtPc(s, w, if Read(s, w, R1) == 0 then CheckSecond else Zeroing(0)))
    case CheckSecond =>
      Some(AtPc(s, w, if Read(s, w, R2) == 0 then Failed else Zeroing(0)))
    case Failed => None
  }

  // The oldest buffered store of a processor reaches memory.
  function Drain(s: State, w: Who): Option<State> {
    var b := BufOf(s, w);
    if b == [] then None else Some(WithBuf(Put(s, b[0].loc, b[0].v), w, b[1..]))
  }

  datatype Event = Act(who: Who) | Flush(who: Who)

  function Step(m: Model, s: State, e: Event): Option<State> {
    match e
    case Act(w) => Next(m, s, w)
    case Flush(w) => Drain(s, w)
  }

  function Run(m: Model, s: State, es: seq<Event>): Option<State>
    decreases |es|
  {
    if es == [] then Some(s)
    else
      var t :- Step(m, s, es[0]);
      Run(m, t, es[1..])
  }

  // ----- Sequential consistency: what every round keeps -----

  predicate InRun(pc: Pc) {
    pc.StoreOne? || pc.LoadOther? || pc.StoreResult?
  }

  // 1 if the thread is waiting in the given generation.
  function Waits(pc: Pc, here: Pc): nat {
    if pc == here then 1 else 0
  }

  // Between the end barrier of one round and the start barrier of the next.
  ghost predicate Between(s: State) {
    && s.start.gen == s.end.gen && s.end.arrived == 0
    && s.start.arrived == Waits(s.main, AtStart(s.start.gen)) + Waits(s.one, AtStart(s.start.gen))
                          + Waits(s.two, AtStart(s.start.gen)) < 3
    && (s.main.Zeroing? || s.main.ArriveStart? || s.main == AtStart(s.start.gen) || s.main.CheckFirst?
        || s.main.CheckSecond? || (s.main.AtEnd? && s.main.gen < s.end.gen))
    && RestsBetween(s, s.one) && RestsBetween(s, s.two)
    && Prepared(s)
  }

  ghost predicate RestsBetween(s: State, pc: Pc) {
    pc.ArriveStart? || pc == AtStart(s.start.gen) || (pc.AtEnd? && pc.gen < s.end.gen)
  }

  // What start() has zeroed so far; before it, the outcome of the round.
  ghost predicate Prepared(s: State) {
    && (s.main.Zeroing? ==> Zeroed(s, s.main.n))
    && (s.main.ArriveStart? || s.main.AtStart? ==> s.x == s.y == s.r1 == s.r2 == 0)
    && (s.main.AtEnd? || s.main.CheckFirst? ==> s.r1 != 0 || s.r2 != 0)
    && (s.main.CheckSecond? ==> s.r2 != 0)
  }

  ghost predicate Zeroed(s: State, n: nat) {
    n <= 3 && (n > 0 ==> s.r2 == 0) && (n > 1 ==> s.r1 == 0) && (n > 2 ==> s.y == 0)
  }

  // Between the start barrier and the end barrier of a round.
  ghost predicate Within(s: State) {
    && s.start.gen == s.end.gen + 1 && s.start.arrived == 0
    && s.end.arrived == Waits(s.main, AtEnd(s.end.gen)) + Waits(s.one, AtEnd(s.end.gen))
                        + Waits(s.two, AtEnd(s.end.gen)) < 3
    && (s.main.ArriveEnd? || s.main == AtEnd(s.end.gen) || (s.main.AtStart? && s.main.gen < s.start.gen))
    && WorksWithin(s, s.one) && WorksWithin(s, s.two)
    && s.x == Stored(s.one) && s.y == Stored(s.two)
    && !(Loaded(s.one, s.r1) == Some(0) && Loaded(s.two, s.r2) == Some(0))
  }

  ghost predicate WorksWithin(s: State, pc: Pc) {
    InRun(pc) || pc.ArriveEnd? || pc == AtEnd(s.end.gen) || (pc.AtStart? && pc.gen < s.start.gen)
  }

  // What a worker's own variable holds.
  function Stored(pc: Pc): int {
    if pc.AtStart? || pc.StoreOne? then 0 else 1
  }

  // The value a worker has loaded, once it has.
  function Loaded(pc: Pc, r: int): Option<int> {
    if pc.StoreResult? then Some(pc.v)
    else if pc.ArriveEnd? || pc.AtEnd? then Some(r)
    else None
  }

  ghost predicate Inv(s: State) {
    s.bufMain == s.bufOne == s.bufTwo == [] && (Between(s) || Within(s))
  }

  lemma StepKeepsInv(s: State, e: Event)
    requires Inv(s) && Step(Sequential, s, e).Some?
    ensures Inv(Step(Sequential, s, e).value)
  {
    if Between(s) {
      if e.who == Main { MainBetween(s); } else { WorkerBetween(s, e.who); }
    } else {
      if e.who == Main { MainWithin(s); } else { WorkerWithin(s, e.who); }
    }
  }

  lemma MainBetween(s: State)
    requires Inv(s) && Between(s) && Next(Sequential, s, Main).Some?
    ensures Inv(Next(Sequential, s, Main).value)
  {
  }

  lemma MainWithin(s: State)
    requires Inv(s) && Within(s) && Next(Sequential, s, Main).Some?
    ensures Inv(Next(Sequential, s, Main).value)
  {
  }

  lemma WorkerBetween(s: State, w: Who)
    requires Inv(s) && Between(s) && w != Main && Next(Sequential, s, w).Some?
    ensures Inv(Next(Sequential, s, w).value)
  {
  }

  lemma WorkerWithin(s: State, w: Who)
    requires Inv(s) && Within(s) && w != Main && Next(Sequential, s, w).Some?
    ensures Inv(Next(Sequential, s, w).value)
  {
    if w == One { OneWithin(s); } else { TwoWithin(s); }
  }

  lemma OneWithin(s: State)
    requires Inv(s) && Within(s) && Next(Sequential, s, One).Some?
    ensures Inv(Next(Sequential, s, One).value)
  {
  }

  lemma TwoWithin(s: State)
    requires Inv(s) && Within(s) && Next(Sequential, s, Two).Some?
    ensures Inv(Next(Sequential, s, Two).value)
  {
  }

  lemma {:induction false} RunKeepsInv(s: State, es: seq<Event>)
    requires Inv(s) && Run(Sequential, s, es).Some?
    ensures Inv(Run(Sequential, s, es).value)
    decreases |es|
  {
    if es != [] {
      StepKeepsInv(s, es[0]);
      RunKeepsInv(Step(Sequential, s, es[0]).value, es[1..]);
    }
  }

  // start() and the two run functions never overlap.
  ghost predicate Exclusive(s: State) {
    s.main.Zeroing? ==> !InRun(s.one) && !InRun(s.two)
  }

  /** However the three threads are interleaved, for however many rounds: start() never overlaps run1 or run2,
      end() always sees r1 or r2 set and so never fails, and some thread can always go on. */
  lemma SequentialNeverFails(s: State, es: seq<Event>)
    requires s == INIT && Run(Sequential, s, es).Some?
    ensures var t := Run(Sequential, s, es).value;
            && Exclusive(t) && t.main != Failed
            && (t.main.CheckFirst? ==> t.r1 != 0 || t.r2 != 0)
            && exists w :: Next(Sequential, t, w).Some?
  {
    StartsSound();
    hide Run, Next, Inv;
    RunKeepsInv(s, es);
    SoundStates(Run(Sequential, s, es).value);
  }

  lemma StartsSound()
    ensures Inv(INIT)
  {
  }

  lemma SoundStates(s: State)
    requires Inv(s)
    ensures Exclusive(s) && s.main != Failed && (s.main.CheckFirst? ==> s.r1 != 0 || s.r2 != 0)
    ensures exists w :: Next(Sequential, s, w).Some?
  {
    NeverStuck(s);
  }

  lemma NeverStuck(s: State)
    requires Inv(s)
    ensures exists w :: Next(Sequential, s, w).Some?
  {
    assert Next(Sequential, s, Main).Some? || Next(Sequential, s, One).Some? || Next(Sequential, s, Two).Some?;
  }

  // ----- Store buffers: the outcome the test looks for -----

  lemma {:induction false} RunThen(m: Model, s: State, es: seq<Event>, fs: seq<Event>)
    requires Run(m, s, es).Some?
    ensures Run(m, s, es + fs) == Run(m, Run(m, s, es).value, fs)
    decreases |es|
  {
    if es == [] {
      assert es + fs == fs;
    } else {
      assert (es + fs)[1..] == es[1..] + fs;
      RunThen(m, Step(m, s, es[0]).value, es[1..], fs);
    }
  }

  // One more event of a run with store buffers.
  lemma Go(es: seq<Event>, s: State, e: Event) returns (fs: seq<Event>, t: State)
    requires Run(Buffered, INIT, es) == Some(s) && Step(Buffered, s, e).Some?
    ensures fs == es + [e] && Run(Buffered, INIT, fs) == Some(t) && Some(t) == Step(Buffered, s, e)
  {
    fs, t := es + [e], Step(Buffered, s, e).value;
    RunThen(Buffered, INIT, es, [e]);
    assert Run(Buffered, t, []) == Some(t);
  }

  // One round up to the point where both workers are about to store.
  lemma BothReady() returns (es: seq<Event>, s: State)
    ensures Run(Buffered, INIT, es) == Some(s)
    ensures s == State(0, 0, 0, 0, ArriveEnd, StoreOne, StoreOne, Barrier(0, 1), Barrier(0, 0), [], [], [])
  {
    hide Run;
    es, s := StartFlushed();
    es, s := Go(es, s, Act(Main));
    es, s := Go(es, s, Act(One));
    es, s := Go(es, s, Act(Two));
    es, s := Go(es, s, Act(Main));
    es, s := Go(es, s, Act(One));
  }

  lemma StartFlushed() returns (es: seq<Event>, s: State)
    ensures Run(Buffered, INIT, es) == Some(s)
    ensures s == INIT.(main := ArriveStart)
  {
    es, s := [], INIT;
    assert Run(Buffered, INIT, es) == Some(s);
    hide Run;
    es, s := Go(es, s, Act(Main));
    es, s := Go(es, s, Flush(Main));
    es, s := Go(es, s, Act(Main));
    es, s := Go(es, s, Flush(Main));
    es, s := Go(es, s, Act(Main));
    es, s := Go(es, s, Flush(Main));
    es, s := Go(es, s, Act(Main));
    es, s := Go(es, s, Flush(Main));
  }

  // A buffered store is no help to a load of the other variable.
  lemma OtherBuffered(stored: Loc, loaded: Loc, v: int, memory: int)
    requires stored != loaded
    ensures Newest([Store(stored, v)], loaded, memory) == memory
  {
  }

  lemma BothMissed() returns (es: seq<Event>, s: State)
    ensures Run(Buffered, INIT, es) == Some(s)
    ensures s == State(1, 1, 0, 0, ArriveEnd, ArriveEnd, ArriveEnd, Barrier(0, 1), Barrier(0, 0), [], [], [])
  {
    hide Run;
    es, s := BothReady();
    es, s := Go(es, s, Act(One));
    es, s := Go(es, s, Act(Two));
    OtherBuffered(X, Y, 1, 0);
    OtherBuffered(Y, X, 1, 0);
    es, s := Go(es, s, Act(One));
    es, s := Go(es, s, Act(Two));
    es, s := Go(es, s, Act(One));
    es, s := Go(es, s, Act(Two));
    assert s.bufOne == [Store(X, 1), Store(R1, 0)] && s.bufTwo == [Store(Y, 1), Store(R2, 0)];
    es, s := Go(es, s, Flush(One));
    es, s := Go(es, s, Flush(Two));
    assert s.bufOne == [Store(R1, 0)] && s.bufTwo == [Store(R2, 0)];
    es, s := Go(es, s, Flush(One));
    es, s := Go(es, s, Flush(Two));
  }

  /** The same three threads on processors with store buffers have a run in which both workers read 0, and
      end() fails. */
  lemma BufferedCanFail() returns (es: seq<Event>)
    ensures Run(Buffered, INIT, es).Some?
    ensures var t := Run(Buffered, INIT, es).value; t.main == Failed && t.r1 == 0 && t.r2 == 0
  {
    hide Run;
    var s;
    es, s := BothMissed();
    es, s := Go(es, s, Act(One));
    es, s := Go(es, s, Act(Two));
    es, s := Go(es, s, Act(Main));
    es, s := Go(es, s, Act(Main));
    es, s := Go(es, s, Act(Main));
  }
}
