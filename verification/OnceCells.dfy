/**
 The once-initialized timing cells of pxr/base/arch/timing.cpp: three atomics, each filled
 by the first caller of GetAtomicVar that claims it, while the others spin.  Computing one
 cell calls GetAtomicVar for others.

 The protocol is a state machine over the atomic operations of any number of threads,
 interleaved in any order.
 */
module OnceCells {

  /** TickQuantum, IntervalTimerTickOverhead and NanosecondsPerTick, in this order. */
  type Cell = c: nat | c < 3
  const TICK_QUANTUM: Cell := 0
  const TIMER_OVERHEAD: Cell := 1
  const NANOSECONDS_PER_TICK: Cell := 2

  const UNINITIALIZED := -1
  const INITIALIZING := -2

  /** The cells that computing c asks for, in order.  Arch_MeasureExecutionTime asks for the tick quantum. */
  function Nested(c: Cell): seq<Cell> {
    if c == TICK_QUANTUM then []
    else if c == TIMER_OVERHEAD then [TICK_QUANTUM]
    else [TICK_QUANTUM, TIMER_OVERHEAD]
  }

  /** Where a call of GetAtomicVar stands. */
  datatype Pc =
    | Load                 // about to read the atomic for the first time
    | Claim                // read UNINITIALIZED, about to compare and exchange
    | Compute(next: nat)   // won: inside computeVal, about to make nested call number next, or inside it
    | Store(value: int)    // computeVal returned
    | Wait(state: int)     // in the loop, with the value last read

  datatype Frame = Frame(cell: Cell, pc: Pc)

  /**
   A thread: the calls it has still to make, its call stack (innermost last), what its own calls
   returned, and what all calls returned, those inside compute functions included.
   */
  datatype Thread = Thread(todo: seq<Cell>, stack: seq<Frame>, got: seq<(Cell, int)>, returned: seq<(Cell, int)>)

  /** started counts the runs of each compute function; claimant is the thread that started the last one. */
  datatype State = State(cells: seq<int>, threads: seq<Thread>, started: seq<nat>, claimant: seq<nat>)

  /** A thread, and the value computeVal returns if this step ends one. */
  datatype Move = Move(thread: nat, value: int)

  function Top(t: Thread): Frame
    requires t.stack != []
  {
    t.stack[|t.stack| - 1]
  }

  function WithTop(t: Thread, pc: Pc): Thread
    requires t.stack != []
  {
    t.(stack := t.stack[|t.stack| - 1 := Frame(Top(t).cell, pc)])
  }

  /** The innermost call returns v: to the compute function below it, or to the thread's own code. */
  function Return(t: Thread, v: int): Thread
    requires t.stack != []
  {
    var below := t.(stack := t.stack[..|t.stack| - 1], returned := t.returned + [(Top(t).cell, v)]);
    if below.stack == [] then below.(got := t.got + [(Top(t).cell, v)])
    else if Top(below).pc.Compute? then WithTop(below, Compute(Top(below).pc.next + 1))
    else below
  }

  predicate Finished(t: Thread) {
    t.stack == [] && t.todo == []
  }

  predicate WellFormed(s: State) {
    |s.cells| == |s.started| == |s.claimant| == 3
  }

  /** One atomic operation of one thread; a finished thread does nothing. */
  function Next(s: State, m: Move): (s': State)
    requires WellFormed(s)
    ensures WellFormed(s') && |s'.threads| == |s.threads|
  {
    if m.thread >= |s.threads| || Finished(s.threads[m.thread]) then s
    else
      var t := s.threads[m.thread];
      if t.stack == [] then
        WithThread(s, m.thread, t.(todo := t.todo[1..], stack := [Frame(t.todo[0], Load)]))
      else
        var c := Top(t).cell;
        var now := s.cells[c];
        match Top(t).pc
        case Load =>
          WithThread(s, m.thread,
                     if now >= 0 then Return(t, now)
                     else WithTop(t, if now == UNINITIALIZED then Claim else Wait(now)))
        case Claim =>
          if now == UNINITIALIZED then
            WithThread(s, m.thread, WithTop(t, Compute(0))).(
              cells := s.cells[c := INITIALIZING],
              started := s.started[c := s.started[c] + 1],
              claimant := s.claimant[c := m.thread])
          else
            WithThread(s, m.thread, WithTop(t, Wait(now)))
        case Compute(next) =>
          WithThread(s, m.thread,
                     if next < |Nested(c)| then t.(stack := t.stack + [Frame(Nested(c)[next], Load)])
                     else WithTop(t, Store(m.value)))
        case Store(v) =>
          WithThread(s, m.thread, Return(t, v)).(cells := s.cells[c := v])
        case Wait(state) =>
          WithThread(s, m.thread, if state >= 0 then Return(t, state) else WithTop(t, Wait(now)))
  }

  function WithThread(s: State, i: nat, t: Thread): State
    requires i < |s.threads|
  {
    s.(threads := s.threads[i := t])
  }

  function Run(s: State, moves: seq<Move>): State
    requires WellFormed(s)
    ensures WellFormed(Run(s, moves)) && |Run(s, moves).threads| == |s.threads|
    decreases |moves|
  {
    if moves == [] then s else Run(Next(s, moves[0]), moves[1..])
  }

  /** Any number of threads, each with any list of calls to make. */
  function Initial(todos: seq<seq<Cell>>): State {
    State([UNINITIALIZED, UNINITIALIZED, UNINITIALIZED],
          seq(|todos|, i requires 0 <= i < |todos| => Thread(todos[i], [], [], [])),
          [0, 0, 0], [0, 0, 0])
  }

  // ---------------------------------------------------------------- invariant

  predicate Owning(f: Frame) {
    f.pc.Compute? || f.pc.Store?
  }

  /** A call stack: every frame but the innermost is inside the nested call that the next frame is. */
  ghost predicate StackOk(stack: seq<Frame>) {
    forall d | 0 <= d < |stack| - 1 ::
      stack[d].pc.Compute? && stack[d].pc.next < |Nested(stack[d].cell)| &&
      stack[d + 1].cell == Nested(stack[d].cell)[stack[d].pc.next]
  }

  ghost predicate OwnedBy(stack: seq<Frame>, c: Cell) {
    exists d | 0 <= d < |stack| :: stack[d].cell == c && Owning(stack[d])
  }

  /** What a frame has read or computed agrees with the cell. */
  ghost predicate FrameOk(f: Frame, cells: seq<int>)
    requires |cells| == 3
  {
    match f.pc
    case Store(v) => v >= 0
    case Wait(state) => cells[f.cell] != UNINITIALIZED && (state >= 0 ==> state == cells[f.cell])
    case _ => true
  }

  ghost predicate ThreadOk(t: Thread, i: nat, s: State)
    requires WellFormed(s)
  {
    && StackOk(t.stack)
    && (forall d | 0 <= d < |t.stack| :: FrameOk(t.stack[d], s.cells))
    && (forall c: Cell :: OwnedBy(t.stack, c) <==> s.cells[c] == INITIALIZING && s.claimant[c] == i)
    && (forall g | g in t.returned :: g.1 >= 0 && g.1 == s.cells[g.0])
    && (forall g | g in t.got :: g in t.returned)
  }

  ghost predicate CellOk(s: State, c: Cell)
    requires WellFormed(s)
  {
    && s.cells[c] >= INITIALIZING
    && s.started[c] == (if s.cells[c] == UNINITIALIZED then 0 else 1)
    && (s.cells[c] == INITIALIZING ==> s.claimant[c] < |s.threads|)
  }

  ghost predicate Inv(s: State) {
    && WellFormed(s)
    && (forall c: Cell :: CellOk(s, c))
    && (forall i | 0 <= i < |s.threads| :: ThreadOk(s.threads[i], i, s))
  }

  /** Nested calls go to lower cells, so no cell appears twice on a stack. */
  lemma {:induction false} StackDescends(stack: seq<Frame>, a: nat, b: nat)
    requires StackOk(stack) && a < b < |stack|
    ensures stack[b].cell < stack[a].cell
    decreases b - a
  {
    if a + 1 < b {
      StackDescends(stack, a + 1, b);
    }
    assert stack[a].pc.Compute?;
  }

  /** Changing where the innermost call stands keeps the frames below. */
  lemma WithTopKeeps(t: Thread, pc: Pc)
    requires t.stack != [] && StackOk(t.stack)
    ensures StackOk(WithTop(t, pc).stack)
    ensures forall c: Cell | c != Top(t).cell :: OwnedBy(WithTop(t, pc).stack, c) <==> OwnedBy(t.stack, c)
    ensures OwnedBy(WithTop(t, pc).stack, Top(t).cell) <==> Owning(Frame(Top(t).cell, pc))
  {
    var stack, stack' := t.stack, WithTop(t, pc).stack;
    var n := |stack| - 1;
    forall c: Cell | c != Top(t).cell
      ensures OwnedBy(stack', c) <==> OwnedBy(stack, c)
    {
      if OwnedBy(stack, c) {
        var d :| 0 <= d < |stack| && stack[d].cell == c && Owning(stack[d]);
        assert stack'[d] == stack[d];
      }
      if OwnedBy(stack', c) {
        var d :| 0 <= d < |stack| && stack'[d].cell == c && Owning(stack'[d]);
        assert stack'[d] == stack[d];
      }
    }
    if OwnedBy(stack', Top(t).cell) {
      var d :| 0 <= d < |stack| && stack'[d].cell == Top(t).cell && Owning(stack'[d]);
      if d < n { StackDescends(stack, d, n); }
    }
    if Owning(Frame(Top(t).cell, pc)) {
      assert stack'[n].cell == Top(t).cell && Owning(stack'[n]);
    }
  }

  /** A return keeps the frames below and owns nothing new. */
  lemma ReturnKeeps(t: Thread, v: int)
    requires t.stack != [] && StackOk(t.stack)
    ensures StackOk(Return(t, v).stack)
    ensures forall c: Cell | c != Top(t).cell :: OwnedBy(Return(t, v).stack, c) <==> OwnedBy(t.stack, c)
    ensures !OwnedBy(Return(t, v).stack, Top(t).cell)
    ensures |Return(t, v).stack| == |t.stack| - 1
    ensures forall d | 0 <= d < |t.stack| - 1 ::
              Return(t, v).stack[d] == t.stack[d] || (Return(t, v).stack[d].pc.Compute? && Return(t, v).stack[d].cell == t.stack[d].cell)
  {
    var stack, stack' := t.stack, Return(t, v).stack;
    var n := |stack| - 1;
    assert forall d | 0 <= d < n :: stack'[d].cell == stack[d].cell && (Owning(stack'[d]) <==> Owning(stack[d]));
    forall c: Cell | c != Top(t).cell
      ensures OwnedBy(stack', c) <==> OwnedBy(stack, c)
    {
      if OwnedBy(stack, c) {
        var d :| 0 <= d < |stack| && stack[d].cell == c && Owning(stack[d]);
        assert stack'[d].cell == c;
      }
      if OwnedBy(stack', c) {
        var d :| 0 <= d < n && stack'[d].cell == c && Owning(stack'[d]);
        assert stack[d].cell == c;
      }
    }
    if OwnedBy(stack', Top(t).cell) {
      var d :| 0 <= d < n && stack'[d].cell == Top(t).cell && Owning(stack'[d]);
      StackDescends(stack, d, n);
    }
  }

  /** A call keeps the frames below and owns nothing yet. */
  lemma PushKeeps(t: Thread, f: Frame)
    requires StackOk(t.stack) && !Owning(f)
    requires t.stack != [] ==> Top(t).pc.Compute? && Top(t).pc.next < |Nested(Top(t).cell)|
                               && f.cell == Nested(Top(t).cell)[Top(t).pc.next]
    ensures StackOk(t.stack + [f])
    ensures forall c: Cell :: OwnedBy(t.stack + [f], c) <==> OwnedBy(t.stack, c)
  {
    var stack' := t.stack + [f];
    forall c: Cell
      ensures OwnedBy(stack', c) <==> OwnedBy(t.stack, c)
    {
      if OwnedBy(t.stack, c) {
        var d :| 0 <= d < |t.stack| && t.stack[d].cell == c && Owning(t.stack[d]);
        assert stack'[d] == t.stack[d];
      }
    }
  }

  /** Thread i claims cell c, or stores a value in the cell c that it has claimed; another thread j does not notice. */
  lemma OthersKeep(t: Thread, j: nat, s: State, s': State, c: Cell, i: nat)
    requires WellFormed(s) && WellFormed(s') && ThreadOk(t, j, s) && i != j
    requires forall c': Cell | c' != c :: s'.cells[c'] == s.cells[c'] && s'.claimant[c'] == s.claimant[c']
    requires (s.cells[c] == UNINITIALIZED && s'.cells[c] == INITIALIZING)
             || (s.cells[c] == INITIALIZING && s.claimant[c] == i && s'.cells[c] >= 0)
    requires s'.claimant[c] == i
    ensures ThreadOk(t, j, s')
  {
  }

  lemma OtherKeeps(s: State, s': State, m: Move, j: nat)
    requires Inv(s) && s' == Next(s, m) && j < |s.threads| && j != m.thread
    ensures ThreadOk(s'.threads[j], j, s')
  {
    assert ThreadOk(s.threads[j], j, s);
    if m.thread < |s.threads| && s.threads[m.thread].stack != [] {
      var t, f := s.threads[m.thread], Top(s.threads[m.thread]);
      assert ThreadOk(t, m.thread, s);
      assert FrameOk(t.stack[|t.stack| - 1], s.cells);
      if f.pc.Store? {
        assert t.stack[|t.stack| - 1] == f && OwnedBy(t.stack, f.cell);
        OthersKeep(s.threads[j], j, s, s', f.cell, m.thread);
      } else if f.pc.Claim? && s.cells[f.cell] == UNINITIALIZED {
        OthersKeep(s.threads[j], j, s, s', f.cell, m.thread);
      }
    }
  }

  /** The facts about the mover's innermost frame that the cases below turn on. */
  lemma TopFacts(s: State, i: nat)
    requires Inv(s) && i < |s.threads| && s.threads[i].stack != []
    ensures ThreadOk(s.threads[i], i, s)
    ensures var f := Top(s.threads[i]);
      CellOk(s, f.cell) && FrameOk(f, s.cells)
      && (Owning(f) ==> s.cells[f.cell] == INITIALIZING && s.claimant[f.cell] == i)
  {
    var t := s.threads[i];
    assert ThreadOk(t, i, s);
    assert t.stack[|t.stack| - 1] == Top(t);
    if Owning(Top(t)) {
      assert OwnedBy(t.stack, Top(t).cell);
    }
  }

  lemma CellsKept(s: State, m: Move, c: Cell)
    requires Inv(s) && m.value >= 0
    ensures CellOk(Next(s, m), c)
  {
    assert CellOk(s, c);
    if m.thread < |s.threads| && s.threads[m.thread].stack != [] {
      TopFacts(s, m.thread);
    }
  }

  // What a step makes of the thread that takes it: it stays in its innermost call, returns from it, or starts one.

  /** Where the innermost call stands after a step that stays inside it. */
  function StayPc(s: State, m: Move, f: Frame): Pc
    requires WellFormed(s)
  {
    var now := s.cells[f.cell];
    match f.pc
    case Load => if now == UNINITIALIZED then Claim else Wait(now)
    case Claim => if now == UNINITIALIZED then Compute(0) else Wait(now)
    case Compute(_) => Store(m.value)
    case _ => Wait(now)
  }

  predicate Stays(s: State, f: Frame)
    requires WellFormed(s)
  {
    match f.pc
    case Load => s.cells[f.cell] < 0
    case Claim => true
    case Compute(next) => next >= |Nested(f.cell)|
    case Store(_) => false
    case Wait(state) => state < 0
  }

  /** What the innermost call returns after a step that ends it. */
  function ReturnValue(s: State, f: Frame): int
    requires WellFormed(s)
  {
    match f.pc
    case Store(v) => v
    case Wait(state) => state
    case _ => s.cells[f.cell]
  }

  predicate Starts(f: Frame) {
    f.pc.Compute? && f.pc.next < |Nested(f.cell)|
  }

  lemma StaysAt(s: State, m: Move)
    requires WellFormed(s) && m.thread < |s.threads| && s.threads[m.thread].stack != []
    requires Stays(s, Top(s.threads[m.thread]))
    ensures Next(s, m).threads[m.thread] == WithTop(s.threads[m.thread], StayPc(s, m, Top(s.threads[m.thread])))
  {
  }

  lemma ReturnsAt(s: State, m: Move)
    requires WellFormed(s) && m.thread < |s.threads| && s.threads[m.thread].stack != []
    requires !Stays(s, Top(s.threads[m.thread])) && !Starts(Top(s.threads[m.thread]))
    ensures Next(s, m).threads[m.thread] == Return(s.threads[m.thread], ReturnValue(s, Top(s.threads[m.thread])))
  {
  }

  /** A nested call. */
  function Called(t: Thread): Thread
    requires t.stack != [] && Starts(Top(t))
  {
    t.(stack := t.stack + [Frame(Nested(Top(t).cell)[Top(t).pc.next], Load)])
  }

  lemma CallsAt(s: State, m: Move)
    requires WellFormed(s) && m.thread < |s.threads| && s.threads[m.thread].stack != []
    requires Starts(Top(s.threads[m.thread]))
    ensures Next(s, m).threads[m.thread] == Called(s.threads[m.thread])
    ensures Next(s, m).cells == s.cells && Next(s, m).claimant == s.claimant
  {
  }

  /** The step leaves the mover inside the same call. */
  lemma MoverStays(s: State, m: Move)
    requires Inv(s) && m.thread < |s.threads| && m.value >= 0 && s.threads[m.thread].stack != []
    requires Stays(s, Top(s.threads[m.thread]))
    ensures ThreadOk(Next(s, m).threads[m.thread], m.thread, Next(s, m))
  {
    var s', t, t' := Next(s, m), s.threads[m.thread], Next(s, m).threads[m.thread];
    TopFacts(s, m.thread);
    StaysAt(s, m);
    WithTopKeeps(t, Top(t').pc);
    assert forall d | 0 <= d < |t.stack| - 1 :: t'.stack[d] == t.stack[d];
  }

  lemma StoresValue(s: State, m: Move)
    requires Inv(s) && m.thread < |s.threads| && s.threads[m.thread].stack != []
    requires !Stays(s, Top(s.threads[m.thread])) && !Starts(Top(s.threads[m.thread]))
    ensures var f := Top(s.threads[m.thread]);
      Next(s, m).cells == s.cells[f.cell := ReturnValue(s, f)] && ReturnValue(s, f) >= 0
      && Next(s, m).claimant == s.claimant
      && (s.cells[f.cell] == ReturnValue(s, f) || (s.cells[f.cell] == INITIALIZING && s.claimant[f.cell] == m.thread))
  {
    TopFacts(s, m.thread);
  }

  /** The step ends the mover's innermost call. */
  lemma MoverReturns(s: State, m: Move)
    requires Inv(s) && m.thread < |s.threads| && s.threads[m.thread].stack != []
    requires !Stays(s, Top(s.threads[m.thread])) && !Starts(Top(s.threads[m.thread]))
    ensures ThreadOk(Next(s, m).threads[m.thread], m.thread, Next(s, m))
  {
    var s', t, t' := Next(s, m), s.threads[m.thread], Next(s, m).threads[m.thread];
    TopFacts(s, m.thread);
    ReturnsAt(s, m);
    StoresValue(s, m);
    ReturnKeeps(t, ReturnValue(s, Top(t)));
  }

  /** The step starts a nested call. */
  lemma MoverCalls(s: State, m: Move)
    requires Inv(s) && m.thread < |s.threads| && s.threads[m.thread].stack != []
    requires Starts(Top(s.threads[m.thread]))
    ensures ThreadOk(Next(s, m).threads[m.thread], m.thread, Next(s, m))
  {
    var t, t' := s.threads[m.thread], Next(s, m).threads[m.thread];
    assert ThreadOk(t, m.thread, s);
    CallsAt(s, m);
    PushKeeps(t, Frame(Nested(Top(t).cell)[Top(t).pc.next], Load));
    assert forall d | 0 <= d < |t.stack| :: t'.stack[d] == t.stack[d];
  }

  /** The step starts one of the thread's own calls. */
  lemma MoverStarts(s: State, m: Move)
    requires Inv(s) && m.thread < |s.threads| && s.threads[m.thread].stack == []
    ensures ThreadOk(Next(s, m).threads[m.thread], m.thread, Next(s, m))
  {
    var t := s.threads[m.thread];
    assert ThreadOk(t, m.thread, s);
    if t.todo != [] {
      PushKeeps(t, Frame(t.todo[0], Load));
      assert t.stack + [Frame(t.todo[0], Load)] == [Frame(t.todo[0], Load)];
    }
  }

  lemma MoverKeeps(s: State, m: Move)
    requires Inv(s) && m.thread < |s.threads| && m.value >= 0
    ensures ThreadOk(Next(s, m).threads[m.thread], m.thread, Next(s, m))
  {
    if s.threads[m.thread].stack == [] {
      MoverStarts(s, m);
    } else if Stays(s, Top(s.threads[m.thread])) {
      MoverStays(s, m);
    } else if Starts(Top(s.threads[m.thread])) {
      MoverCalls(s, m);
    } else {
      MoverReturns(s, m);
    }
  }

  lemma NextKeepsInv(s: State, m: Move)
    requires Inv(s) && m.value >= 0
    ensures Inv(Next(s, m))
  {
    var s' := Next(s, m);
    forall c: Cell
      ensures CellOk(s', c)
    {
      CellsKept(s, m, c);
    }
    if m.thread < |s.threads| {
      MoverKeeps(s, m);
      forall j | 0 <= j < |s.threads| && j != m.thread
        ensures ThreadOk(s'.threads[j], j, s')
      {
        OtherKeeps(s, s', m, j);
      }
    }
  }

  lemma {:induction false} RunKeepsInv(s: State, moves: seq<Move>)
    requires Inv(s) && forall m | m in moves :: m.value >= 0
    ensures Inv(Run(s, moves))
    decreases |moves|
  {
    if moves != [] {
      NextKeepsInv(s, moves[0]);
      RunKeepsInv(Next(s, moves[0]), moves[1..]);
    }
  }

  lemma InitialInv(todos: seq<seq<Cell>>)
    ensures Inv(Initial(todos))
  {
  }

  /** A thread's record grows exactly when one of its calls returns, by that call's cell and the value now in it. */
  lemma RecordsReturns(s: State, m: Move)
    requires Inv(s) && m.thread < |s.threads|
    ensures var (t, s') := (s.threads[m.thread], Next(s, m));
      var t' := s'.threads[m.thread];
      t'.returned == t.returned + if |t'.stack| < |t.stack| then [(Top(t).cell, s'.cells[Top(t).cell])] else []
  {
    var t := s.threads[m.thread];
    if t.stack != [] {
      if Stays(s, Top(t)) {
        StaysAt(s, m);
      } else if Starts(Top(t)) {
        CallsAt(s, m);
      } else {
        ReturnsAt(s, m);
        StoresValue(s, m);
      }
    }
  }

  // ---------------------------------------------------------------- safety over whole runs

  /** What any call returns is in its cell from then on. */
  lemma ReturnedIsCell(s: State, i: nat, g: (Cell, int))
    requires Inv(s) && i < |s.threads| && (g in s.threads[i].returned || g in s.threads[i].got)
    ensures g.1 == s.cells[g.0] >= 0
  {
    assert ThreadOk(s.threads[i], i, s);
  }

  /**
   However any number of threads interleave, each compute function starts at most once, and all
   calls for one cell return the same value: those that threads make and those that compute
   functions make.
   */
  lemma ComputedOnceAndShared(todos: seq<seq<Cell>>, moves: seq<Move>)
    requires forall m | m in moves :: m.value >= 0
    ensures var s := Run(Initial(todos), moves);
      && (forall c: Cell :: s.started[c] <= 1)
      && (forall i, j, g, h | 0 <= i < |s.threads| && 0 <= j < |s.threads| && g in s.threads[i].returned
            && h in s.threads[j].returned && g.0 == h.0 :: g.1 == h.1)
      && (forall i, g | 0 <= i < |s.threads| && g in s.threads[i].got :: g in s.threads[i].returned)
  {
    InitialInv(todos);
    RunKeepsInv(Initial(todos), moves);
    var s := Run(Initial(todos), moves);
    forall c: Cell
      ensures s.started[c] <= 1
    {
      assert CellOk(s, c);
    }
    forall i, g | 0 <= i < |s.threads| && g in s.threads[i].returned
      ensures g.1 == s.cells[g.0]
    {
      ReturnedIsCell(s, i, g);
    }
    forall i, g | 0 <= i < |s.threads| && g in s.threads[i].got
      ensures g in s.threads[i].returned
    {
      assert ThreadOk(s.threads[i], i, s);
    }
  }

  // What is in a cell was computed by the thread that claimed it, and after the cells it is computed from.

  /** The values that are stored, or about to be, are those that compute functions returned. */
  ghost predicate FromMoves(s: State, moves: seq<Move>)
    requires WellFormed(s)
  {
    && (forall c: Cell | s.cells[c] >= 0 :: Move(s.claimant[c], s.cells[c]) in moves)
    && (forall i, d | 0 <= i < |s.threads| && 0 <= d < |s.threads[i].stack| && s.threads[i].stack[d].pc.Store? ::
          Move(i, s.threads[i].stack[d].pc.value) in moves)
  }

  lemma StackAfter(s: State, m: Move, i: nat, d: nat)
    requires Inv(s) && m.value >= 0 && i < |s.threads| && d < |Next(s, m).threads[i].stack|
    requires Next(s, m).threads[i].stack[d].pc.Store?
    ensures (d < |s.threads[i].stack| && s.threads[i].stack[d] == Next(s, m).threads[i].stack[d])
            || (i == m.thread && Next(s, m).threads[i].stack[d].pc.value == m.value)
  {
    var t := s.threads[i];
    if i == m.thread && !Finished(t) && t.stack != [] {
      if Stays(s, Top(t)) {
        StaysAt(s, m);
      } else if Starts(Top(t)) {
        CallsAt(s, m);
      } else {
        ReturnsAt(s, m);
        assert ThreadOk(t, i, s);
        ReturnKeeps(t, ReturnValue(s, Top(t)));
      }
    }
  }

  lemma CellsFromMoves(s: State, m: Move, moves: seq<Move>, c: Cell)
    requires Inv(s) && m.value >= 0 && FromMoves(s, moves) && Next(s, m).cells[c] >= 0
    ensures Move(Next(s, m).claimant[c], Next(s, m).cells[c]) in moves
  {
    if s.cells[c] < 0 {
      var t := s.threads[m.thread];
      TopFacts(s, m.thread);
      assert Top(t).pc.Store? && Top(t).cell == c && s.claimant[c] == m.thread;
      assert t.stack[|t.stack| - 1].pc.Store?;
    } else {
      assert CellOk(s, c);
      if m.thread < |s.threads| && s.threads[m.thread].stack != [] {
        TopFacts(s, m.thread);
      }
    }
  }

  lemma NextFromMoves(s: State, m: Move, moves: seq<Move>)
    requires Inv(s) && m.value >= 0 && FromMoves(s, moves)
    ensures FromMoves(Next(s, m), moves + [m])
  {
    var s' := Next(s, m);
    forall c: Cell | s'.cells[c] >= 0
      ensures Move(s'.claimant[c], s'.cells[c]) in moves
    {
      CellsFromMoves(s, m, moves, c);
    }
    forall i, d | 0 <= i < |s'.threads| && 0 <= d < |s'.threads[i].stack| && s'.threads[i].stack[d].pc.Store?
      ensures Move(i, s'.threads[i].stack[d].pc.value) in moves + [m]
    {
      StackAfter(s, m, i, d);
    }
  }

  lemma {:induction false} RunFromMoves(s: State, before: seq<Move>, moves: seq<Move>)
    requires Inv(s) && FromMoves(s, before) && forall m | m in moves :: m.value >= 0
    ensures FromMoves(Run(s, moves), before + moves)
    decreases |moves|
  {
    if moves == [] {
      assert before + moves == before;
    } else {
      NextKeepsInv(s, moves[0]);
      NextFromMoves(s, moves[0], before);
      RunFromMoves(Next(s, moves[0]), before + [moves[0]], moves[1..]);
      assert before + [moves[0]] + moves[1..] == before + moves;
    }
  }

  /** In every run: what a cell holds is what the compute function of the thread that claimed it returned. */
  lemma CellsAreComputed(todos: seq<seq<Cell>>, moves: seq<Move>, c: Cell)
    requires forall m | m in moves :: m.value >= 0
    ensures var s := Run(Initial(todos), moves);
      s.cells[c] >= 0 ==> Move(s.claimant[c], s.cells[c]) in moves
  {
    InitialInv(todos);
    RunFromMoves(Initial(todos), [], moves);
    assert [] + moves == moves;
  }

  /** The first n nested calls of a compute function have returned. */
  ghost predicate Done(s: State, c: Cell, n: nat)
    requires WellFormed(s)
  {
    forall k | 0 <= k < n && k < |Nested(c)| :: s.cells[Nested(c)[k]] >= 0
  }

  ghost predicate InOrder(s: State)
    requires WellFormed(s)
  {
    && (forall c: Cell | s.cells[c] >= 0 :: Done(s, c, |Nested(c)|))
    && (forall i, d | 0 <= i < |s.threads| && 0 <= d < |s.threads[i].stack| :: FrameInOrder(s, s.threads[i].stack[d]))
  }

  ghost predicate FrameInOrder(s: State, f: Frame)
    requires WellFormed(s)
  {
    match f.pc
    case Compute(next) => Done(s, f.cell, next)
    case Store(_) => Done(s, f.cell, |Nested(f.cell)|)
    case _ => true
  }

  /** A cell that has its value keeps it. */
  lemma CellsStay(s: State, m: Move, c: Cell)
    requires Inv(s) && m.value >= 0 && s.cells[c] >= 0
    ensures Next(s, m).cells[c] == s.cells[c]
  {
    if m.thread < |s.threads| && s.threads[m.thread].stack != [] {
      TopFacts(s, m.thread);
    }
  }

  lemma DoneStays(s: State, m: Move, c: Cell, n: nat)
    requires Inv(s) && m.value >= 0 && Done(s, c, n)
    ensures Done(Next(s, m), c, n)
  {
    forall k | 0 <= k < n && k < |Nested(c)|
      ensures Next(s, m).cells[Nested(c)[k]] >= 0
    {
      CellsStay(s, m, Nested(c)[k]);
    }
  }

  lemma FrameStays(s: State, m: Move, f: Frame)
    requires Inv(s) && m.value >= 0 && FrameInOrder(s, f)
    ensures FrameInOrder(Next(s, m), f)
  {
    match f.pc
    case Compute(next) => DoneStays(s, m, f.cell, next);
    case Store(_) => DoneStays(s, m, f.cell, |Nested(f.cell)|);
    case _ =>
  }

  lemma StayInOrder(s: State, m: Move, d: nat)
    requires Inv(s) && m.value >= 0 && InOrder(s) && m.thread < |s.threads| && s.threads[m.thread].stack != []
    requires Stays(s, Top(s.threads[m.thread])) && d < |s.threads[m.thread].stack|
    ensures FrameInOrder(Next(s, m), Next(s, m).threads[m.thread].stack[d])
  {
    assert WellFormed(s);
    hide Next, Inv, InOrder, Done;
    var t := s.threads[m.thread];
    StaysAt(s, m);
    FrameOfThread(s, m.thread, d);
    FrameStays(s, m, t.stack[d]);
    if d == |t.stack| - 1 {
      StayPcInOrder(s, m, Top(t));
    }
  }

  lemma StayPcInOrder(s: State, m: Move, f: Frame)
    requires Inv(s) && m.value >= 0 && FrameInOrder(s, f) && Stays(s, f)
    ensures FrameInOrder(Next(s, m), Frame(f.cell, StayPc(s, m, f)))
  {
    assert WellFormed(s);
    hide Next, Inv;
    if f.pc.Compute? {
      DoneStays(s, m, f.cell, |Nested(f.cell)|);
    }
  }

  lemma FrameOfThread(s: State, i: nat, d: nat)
    requires WellFormed(s) && InOrder(s) && i < |s.threads| && d < |s.threads[i].stack|
    ensures FrameInOrder(s, s.threads[i].stack[d])
  {
  }

  lemma CallInOrder(s: State, m: Move, d: nat)
    requires Inv(s) && m.value >= 0 && InOrder(s) && m.thread < |s.threads| && s.threads[m.thread].stack != []
    requires Starts(Top(s.threads[m.thread])) && d < |s.threads[m.thread].stack| + 1
    ensures |Next(s, m).threads[m.thread].stack| == |s.threads[m.thread].stack| + 1
    ensures FrameInOrder(Next(s, m), Next(s, m).threads[m.thread].stack[d])
  {
    assert WellFormed(s);
    hide Next, Inv, InOrder, Done;
    CallsAt(s, m);
    if d < |s.threads[m.thread].stack| {
      FrameOfThread(s, m.thread, d);
      FrameStays(s, m, s.threads[m.thread].stack[d]);
    }
  }

  lemma ReturnInOrder(s: State, m: Move, d: nat)
    requires Inv(s) && m.value >= 0 && InOrder(s) && m.thread < |s.threads| && s.threads[m.thread].stack != []
    requires !Stays(s, Top(s.threads[m.thread])) && !Starts(Top(s.threads[m.thread]))
    requires d < |s.threads[m.thread].stack| - 1
    ensures |Next(s, m).threads[m.thread].stack| == |s.threads[m.thread].stack| - 1
    ensures FrameInOrder(Next(s, m), Next(s, m).threads[m.thread].stack[d])
  {
    assert WellFormed(s);
    hide Next, Inv, InOrder, Done;
    var t := s.threads[m.thread];
    TopFacts(s, m.thread);
    ReturnsAt(s, m);
    StoresValue(s, m);
    FrameOfThread(s, m.thread, d);
    FrameStays(s, m, t.stack[d]);
    if d == |t.stack| - 2 {
      NestedReturns(s, m, t.stack[d]);
    }
  }

  lemma OneMoreDone(s: State, c: Cell, n: nat)
    requires WellFormed(s) && n < |Nested(c)| && Done(s, c, n) && s.cells[Nested(c)[n]] >= 0
    ensures Done(s, c, n + 1)
  {
  }

  /** After a nested call has returned, one more of them has. */
  lemma NestedReturns(s: State, m: Move, f: Frame)
    requires Inv(s) && m.value >= 0 && FrameInOrder(s, f) && Starts(f)
    requires Next(s, m).cells[Nested(f.cell)[f.pc.next]] >= 0
    ensures FrameInOrder(Next(s, m), Frame(f.cell, Compute(f.pc.next + 1)))
  {
    assert WellFormed(s);
    hide Next, Inv, Done, Nested;
    DoneStays(s, m, f.cell, f.pc.next);
    OneMoreDone(Next(s, m), f.cell, f.pc.next);
  }

  lemma MoverInOrder(s: State, m: Move, d: nat)
    requires Inv(s) && m.value >= 0 && InOrder(s) && m.thread < |s.threads| && s.threads[m.thread].stack != []
    requires d < |Next(s, m).threads[m.thread].stack|
    ensures FrameInOrder(Next(s, m), Next(s, m).threads[m.thread].stack[d])
  {
    assert WellFormed(s);
    hide Inv, InOrder, FrameInOrder, Next;
    var t := s.threads[m.thread];
    if Stays(s, Top(t)) {
      StaysAt(s, m);
      StayInOrder(s, m, d);
    } else if Starts(Top(t)) {
      CallsAt(s, m);
      CallInOrder(s, m, d);
    } else {
      ReturnsAt(s, m);
      ReturnInOrder(s, m, d);
    }
  }

  lemma CellInOrder(s: State, m: Move, c: Cell)
    requires Inv(s) && m.value >= 0 && InOrder(s) && Next(s, m).cells[c] >= 0
    ensures Done(Next(s, m), c, |Nested(c)|)
  {
    if s.cells[c] < 0 {
      var t := s.threads[m.thread];
      TopFacts(s, m.thread);
      assert t.stack[|t.stack| - 1].pc.Store? && t.stack[|t.stack| - 1].cell == c;
      assert FrameInOrder(s, t.stack[|t.stack| - 1]);
    }
    DoneStays(s, m, c, |Nested(c)|);
  }

  lemma OtherFrame(s: State, m: Move, i: nat, d: nat)
    requires WellFormed(s) && i < |s.threads| && d < |Next(s, m).threads[i].stack|
    requires i != m.thread || s.threads[i].stack == []
    ensures var f := Next(s, m).threads[i].stack[d];
      f.pc.Load? || (d < |s.threads[i].stack| && f == s.threads[i].stack[d])
  {
  }

  lemma OtherInOrder(s: State, m: Move, i: nat, d: nat)
    requires Inv(s) && m.value >= 0 && InOrder(s) && i < |s.threads| && d < |Next(s, m).threads[i].stack|
    requires i != m.thread || s.threads[i].stack == []
    ensures FrameInOrder(Next(s, m), Next(s, m).threads[i].stack[d])
  {
    assert WellFormed(s);
    hide Next, Inv, InOrder, Done;
    OtherFrame(s, m, i, d);
    if d < |s.threads[i].stack| {
      FrameOfThread(s, i, d);
      FrameStays(s, m, s.threads[i].stack[d]);
    }
  }

  lemma NextInOrder(s: State, m: Move)
    requires Inv(s) && m.value >= 0 && InOrder(s)
    ensures InOrder(Next(s, m))
  {
    assert WellFormed(s);
    hide Next, Inv, Done, FrameInOrder;
    var s' := Next(s, m);
    forall c: Cell | s'.cells[c] >= 0
      ensures Done(s', c, |Nested(c)|)
    {
      CellInOrder(s, m, c);
    }
    forall i, d | 0 <= i < |s'.threads| && 0 <= d < |s'.threads[i].stack|
      ensures FrameInOrder(s', s'.threads[i].stack[d])
    {
      if i == m.thread && s.threads[i].stack != [] {
        MoverInOrder(s, m, d);
      } else {
        OtherInOrder(s, m, i, d);
      }
    }
  }

  lemma {:induction false} RunInOrder(s: State, moves: seq<Move>)
    requires Inv(s) && InOrder(s) && forall m | m in moves :: m.value >= 0
    ensures InOrder(Run(s, moves))
    decreases |moves|
  {
    if moves != [] {
      NextKeepsInv(s, moves[0]);
      NextInOrder(s, moves[0]);
      RunInOrder(Next(s, moves[0]), moves[1..]);
    }
  }

  /**
   In every run: the timer overhead is there only after the tick quantum, and the nanoseconds
   for a tick are there only after both.
   */
  lemma ComputedInOrder(todos: seq<seq<Cell>>, moves: seq<Move>)
    requires forall m | m in moves :: m.value >= 0
    ensures var cells := Run(Initial(todos), moves).cells;
      (cells[1] >= 0 ==> cells[0] >= 0) && (cells[2] >= 0 ==> cells[0] >= 0 && cells[1] >= 0)
  {
    InitialInv(todos);
    RunInOrder(Initial(todos), moves);
    var s := Run(Initial(todos), moves);
    assert s.cells[TIMER_OVERHEAD] >= 0 ==> Done(s, TIMER_OVERHEAD, |Nested(TIMER_OVERHEAD)|);
    assert s.cells[NANOSECONDS_PER_TICK] >= 0 ==> Done(s, NANOSECONDS_PER_TICK, |Nested(NANOSECONDS_PER_TICK)|);
    assert Nested(TIMER_OVERHEAD)[0] == 0;
    assert Nested(NANOSECONDS_PER_TICK)[0] == 0 && Nested(NANOSECONDS_PER_TICK)[1] == 1;
  }

  function CellsOf(got: seq<(Cell, int)>): seq<Cell> {
    seq(|got|, i requires 0 <= i < |got| => got[i].0)
  }

  /** The calls a thread was asked to make, in order: returned, in progress, still to make. */
  function Requested(t: Thread): seq<Cell> {
    CellsOf(t.got) + (if t.stack == [] then [] else [t.stack[0].cell]) + t.todo
  }

  lemma RequestedOfReturn(t: Thread, v: int)
    requires t.stack != []
    ensures Requested(Return(t, v)) == Requested(t)
  {
    if |t.stack| == 1 {
      var g := (Top(t).cell, v);
      assert CellsOf(t.got + [g]) == CellsOf(t.got) + [g.0];
      assert CellsOf(t.got + [g]) + [] == CellsOf(t.got) + [t.stack[0].cell];
    }
  }

  lemma RequestedOfStart(t: Thread, f: Frame)
    requires t.stack == [] && t.todo != [] && f.cell == t.todo[0]
    ensures Requested(t.(todo := t.todo[1..], stack := [f])) == Requested(t)
  {
    assert t.todo == [f.cell] + t.todo[1..];
    assert CellsOf(t.got) + [f.cell] + t.todo[1..] == CellsOf(t.got) + [] + ([f.cell] + t.todo[1..]);
  }

  /** A thread's calls return in order, each for the cell that was asked for. */
  lemma NextKeepsRequested(s: State, m: Move, i: nat)
    requires WellFormed(s) && i < |s.threads|
    ensures Requested(Next(s, m).threads[i]) == Requested(s.threads[i])
  {
    var t := s.threads[i];
    if i == m.thread && !Finished(t) {
      if t.stack == [] {
        RequestedOfStart(t, Frame(t.todo[0], Load));
      } else if Stays(s, Top(t)) {
        StaysAt(s, m);
      } else if Starts(Top(t)) {
        CallsAt(s, m);
      } else {
        ReturnsAt(s, m);
        RequestedOfReturn(t, ReturnValue(s, Top(t)));
      }
    }
  }

  lemma {:induction false} RunKeepsRequested(s: State, moves: seq<Move>, i: nat)
    requires WellFormed(s) && i < |s.threads|
    ensures Requested(Run(s, moves).threads[i]) == Requested(s.threads[i])
    decreases |moves|
  {
    if moves != [] {
      NextKeepsRequested(s, moves[0], i);
      RunKeepsRequested(Next(s, moves[0]), moves[1..], i);
    }
  }

  // ---------------------------------------------------------------- progress

  /** The thread is in the loop of GetAtomicVar and would find the cell still not ready. */
  predicate Spinning(s: State, i: nat)
    requires WellFormed(s) && i < |s.threads|
  {
    var t := s.threads[i];
    t.stack != [] && Top(t).pc.Wait? && Top(t).pc.state < 0 && s.cells[Top(t).cell] < 0
  }

  /** A thread that spins on c waits for the claimant of c, and if that spins too, then on a lower cell. */
  lemma {:induction false} BehindSpinner(s: State, i: nat) returns (j: nat)
    requires Inv(s) && i < |s.threads| && Spinning(s, i)
    ensures j < |s.threads| && s.threads[j].stack != [] && !Spinning(s, j)
    decreases Top(s.threads[i]).cell
  {
    TopFacts(s, i);
    var c := Top(s.threads[i]).cell;
    assert CellOk(s, c);
    j := s.claimant[c];
    assert ThreadOk(s.threads[j], j, s);
    var stack := s.threads[j].stack;
    assert OwnedBy(stack, c);
    if Spinning(s, j) {
      var d :| 0 <= d < |stack| && stack[d].cell == c && Owning(stack[d]);
      StackDescends(stack, d, |stack| - 1);
      j := BehindSpinner(s, j);
    }
  }

  /** No reachable state is a deadlock: until every thread is finished, some thread can do more than spin. */
  lemma NoDeadlock(todos: seq<seq<Cell>>, moves: seq<Move>, i: nat) returns (j: nat)
    requires i < |todos| && forall m | m in moves :: m.value >= 0
    requires !Finished(Run(Initial(todos), moves).threads[i])
    ensures var s := Run(Initial(todos), moves);
      Effective(s, j)
  {
    InitialInv(todos);
    RunKeepsInv(Initial(todos), moves);
    var s := Run(Initial(todos), moves);
    j := i;
    if Spinning(s, i) {
      j := BehindSpinner(s, i);
    }
  }

  /** An upper bound on the steps of one call, not counting spins. */
  function CallCost(c: Cell): nat {
    2 + ComputeCost(c, 0)
  }

  /** The same from nested call number next on. */
  function ComputeCost(c: Cell, next: nat): (n: nat)
    ensures n >= 2
    decreases c, |Nested(c)| - next
  {
    if next < |Nested(c)| then 1 + CallCost(Nested(c)[next]) + ComputeCost(c, next + 1) else 2
  }

  /** What a frame has still to do, not counting the nested call that it may be inside. */
  function FrameCost(f: Frame, inside: bool): nat {
    match f.pc
    case Load => CallCost(f.cell)
    case Claim => 1 + ComputeCost(f.cell, 0)
    case Compute(next) => ComputeCost(f.cell, if inside then next + 1 else next)
    case Store(_) => 1
    case Wait(state) => if state >= 0 then 1 else 2
  }

  function StackCost(stack: seq<Frame>, inside: bool): nat {
    if stack == [] then 0
    else FrameCost(stack[|stack| - 1], inside) + StackCost(stack[..|stack| - 1], true)
  }

  function TodoCost(todo: seq<Cell>): nat {
    if todo == [] then 0 else 1 + CallCost(todo[0]) + TodoCost(todo[1..])
  }

  function ThreadCost(t: Thread): nat {
    StackCost(t.stack, false) + TodoCost(t.todo)
  }

  function Cost(threads: seq<Thread>): nat {
    if threads == [] then 0 else ThreadCost(threads[0]) + Cost(threads[1..])
  }

  lemma {:induction false} CostOfUpdate(threads: seq<Thread>, i: nat, t: Thread)
    requires i < |threads|
    ensures Cost(threads[i := t]) == Cost(threads) - ThreadCost(threads[i]) + ThreadCost(t)
    decreases i
  {
    if i == 0 {
      assert threads[0 := t][1..] == threads[1..];
    } else {
      assert threads[i := t][1..] == threads[1..][i - 1 := t];
      CostOfUpdate(threads[1..], i - 1, t);
    }
  }

  lemma CostOfTop(t: Thread, pc: Pc)
    requires t.stack != []
    ensures StackCost(WithTop(t, pc).stack, false) - StackCost(t.stack, false)
            == FrameCost(Frame(Top(t).cell, pc), false) - FrameCost(Top(t), false)
  {
    assert WithTop(t, pc).stack[..|t.stack| - 1] == t.stack[..|t.stack| - 1];
  }

  lemma CostOfReturn(t: Thread, v: int)
    requires t.stack != []
    ensures StackCost(Return(t, v).stack, false) == StackCost(t.stack, false) - FrameCost(Top(t), false)
  {
    var below := t.stack[..|t.stack| - 1];
    if below != [] {
      var stack' := Return(t, v).stack;
      assert stack'[..|stack'| - 1] == below[..|below| - 1];
    }
  }

  lemma CostOfCall(t: Thread, f: Frame)
    requires t.stack != [] && Top(t).pc.Compute?
    ensures StackCost(t.stack + [f], false) == FrameCost(f, false) + StackCost(t.stack, true)
    ensures StackCost(t.stack, true)
            == StackCost(t.stack, false) - FrameCost(Top(t), false) + FrameCost(Top(t), true)
  {
    assert (t.stack + [f])[..|t.stack|] == t.stack;
  }

  predicate Effective(s: State, i: nat)
    requires WellFormed(s)
  {
    i < |s.threads| && !Finished(s.threads[i]) && !Spinning(s, i)
  }

  lemma StayCost(s: State, m: Move, f: Frame)
    requires WellFormed(s) && Stays(s, f)
    ensures FrameCost(Frame(f.cell, StayPc(s, m, f)), false)
            <= FrameCost(f, false) - if f.pc.Wait? && s.cells[f.cell] < 0 then 0 else 1
  {
    match f.pc
    case Load => assert CallCost(f.cell) == 2 + ComputeCost(f.cell, 0);
    case Claim => assert ComputeCost(f.cell, 0) >= 2;
    case Compute(next) => assert ComputeCost(f.cell, next) >= 2;
    case Wait(_) =>
  }

  /** A nested call costs less than is put aside for it. */
  lemma NestedCost(f: Frame)
    requires Starts(f)
    ensures CallCost(Nested(f.cell)[f.pc.next]) + FrameCost(f, true) < FrameCost(f, false)
  {
  }

  /** Every step but a spin brings its thread closer to the end; a spin leaves it where it was. */
  lemma ThreadStepCost(s: State, m: Move)
    requires WellFormed(s) && m.thread < |s.threads| && !Finished(s.threads[m.thread])
    ensures ThreadCost(Next(s, m).threads[m.thread])
            <= ThreadCost(s.threads[m.thread]) - if Spinning(s, m.thread) then 0 else 1
  {
    var t := s.threads[m.thread];
    if t.stack == [] {
      StartCost(t, t.todo[0]);
    } else {
      var f := Top(t);
      if Stays(s, f) {
        StaysAt(s, m);
        CostOfTop(t, StayPc(s, m, f));
        StayCost(s, m, f);
      } else if Starts(f) {
        CallsAt(s, m);
        NestedCost(f);
        CostOfCall(t, Frame(Nested(f.cell)[f.pc.next], Load));
      } else {
        ReturnsAt(s, m);
        CostOfReturn(t, ReturnValue(s, f));
        assert FrameCost(f, false) >= 1;
      }
    }
  }

  lemma StartCost(t: Thread, c: Cell)
    requires t.stack == [] && t.todo != [] && c == t.todo[0]
    ensures ThreadCost(t.(todo := t.todo[1..], stack := [Frame(c, Load)])) == ThreadCost(t) - 1
  {
    assert [Frame(c, Load)][..0] == [] && StackCost([Frame(c, Load)][..0], true) == 0;
  }

  lemma StepCost(s: State, m: Move)
    requires WellFormed(s)
    ensures Cost(Next(s, m).threads) <= Cost(s.threads) - if Effective(s, m.thread) then 1 else 0
  {
    if m.thread < |s.threads| && !Finished(s.threads[m.thread]) {
      ThreadStepCost(s, m);
      CostOfUpdate(s.threads, m.thread, Next(s, m).threads[m.thread]);
    }
  }

  /** The moves of a run that are neither spins nor moves of finished threads. */
  function Work(s: State, moves: seq<Move>): nat
    requires WellFormed(s)
    decreases |moves|
  {
    if moves == [] then 0
    else (if Effective(s, moves[0].thread) then 1 else 0) + Work(Next(s, moves[0]), moves[1..])
  }

  /** In every run, all but a bounded number of steps are spins. */
  lemma {:induction false} WorkIsBounded(s: State, moves: seq<Move>)
    requires WellFormed(s)
    ensures Work(s, moves) + Cost(Run(s, moves).threads) <= Cost(s.threads)
    decreases |moves|
  {
    if moves != [] {
      StepCost(s, moves[0]);
      WorkIsBounded(Next(s, moves[0]), moves[1..]);
    }
  }

  /** From every reachable state there is a way to finish every thread. */
  lemma {:induction false} CanFinish(s: State) returns (moves: seq<Move>)
    requires Inv(s)
    ensures forall t | t in Run(s, moves).threads :: Finished(t)
    decreases Cost(s.threads)
  {
    if i: nat :| i < |s.threads| && !Finished(s.threads[i]) {
      var j := i;
      if Spinning(s, i) {
        j := BehindSpinner(s, i);
      }
      var m := Move(j, 0);
      StepCost(s, m);
      NextKeepsInv(s, m);
      var rest := CanFinish(Next(s, m));
      moves := [m] + rest;
      assert moves[1..] == rest;
    } else {
      moves := [];
    }
  }
}
