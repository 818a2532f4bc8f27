/**
 Lazy creation of a singleton without a lock (_GetOrCreate in pxr/base/arch/stackTrace.cpp), by
 any number of threads whose steps interleave.
 */
module GetOrCreate {

  import opened Options

  /** Objects are numbered in the order of their creation. */
  type Object = nat

  /** Where a thread is, and what it holds. */
  datatype Thread = Load | Create | Publish(own: Object) | Discard(own: Object, published: Object) | Done(result: Object)

  /** The shared slot, the objects that exist, and the number of the next one. */
  datatype State = State(slot: Option<Object>, live: set<Object>, next: nat, threads: seq<Thread>)

  /** One atomic step of a thread that is not done. */
  function Step(s: State, i: nat): State
    requires i < |s.threads| && !s.threads[i].Done?
  {
    match s.threads[i]
    case Load =>
      s.(threads := s.threads[i := if s.slot.Some? then Done(s.slot.value) else Create])
    case Create =>
      s.(live := s.live + {s.next}, next := s.next + 1, threads := s.threads[i := Publish(s.next)])
    case Publish(own) =>
      if s.slot == None then s.(slot := Some(own), threads := s.threads[i := Done(own)])
      else s.(threads := s.threads[i := Discard(own, s.slot.value)])
    case Discard(own, published) =>
      s.(live := s.live - {own}, threads := s.threads[i := Done(published)])
  }

  /** The threads that hold an object of their own. */
  predicate Holds(t: Thread, o: Object) {
    (t.Publish? || t.Discard?) && t.own == o
  }

  ghost predicate Held(s: State, o: Object) {
    exists i :: 0 <= i < |s.threads| && Holds(s.threads[i], o)
  }

  /** What a thread knows of the slot is what is in it. */
  predicate Knows(s: State, t: Thread) {
    match t
    case Done(result) => s.slot == Some(result)
    case Discard(own, published) => s.slot == Some(published)
    case _ => true
  }

  /**
   The objects that exist are the published one and those that one thread each still holds.
   */
  ghost predicate Inv(s: State) {
    && (forall i | 0 <= i < |s.threads| :: Knows(s, s.threads[i]))
    && (forall i, j, o | 0 <= i < |s.threads| && 0 <= j < |s.threads| && Holds(s.threads[i], o) && Holds(s.threads[j], o) :: i == j)
    && (forall o :: Held(s, o) ==> o in s.live && s.slot != Some(o))
    && (forall o :: o in s.live ==> o < s.next && (s.slot == Some(o) || Held(s, o)))
    && (s.slot.Some? ==> s.slot.value in s.live)
  }

  lemma HeldAfter(s: State, i: nat, o: Object)
    requires i < |s.threads| && !s.threads[i].Done?
    ensures Held(Step(s, i), o) <==>
            Holds(Step(s, i).threads[i], o) || exists j :: 0 <= j < |s.threads| && j != i && Holds(s.threads[j], o)
  {
    var r := Step(s, i);
    if Held(r, o) {
      var j :| 0 <= j < |r.threads| && Holds(r.threads[j], o);
      assert j != i ==> Holds(s.threads[j], o);
    }
    if j :| 0 <= j < |s.threads| && j != i && Holds(s.threads[j], o) {
      assert Holds(r.threads[j], o);
    }
  }

  lemma StepKeepsInv(s: State, i: nat)
    requires Inv(s) && i < |s.threads| && !s.threads[i].Done?
    ensures Inv(Step(s, i))
  {
    var r := Step(s, i);
    forall o ensures Held(r, o) <==>
      Holds(r.threads[i], o) || exists j :: 0 <= j < |s.threads| && j != i && Holds(s.threads[j], o)
    {
      HeldAfter(s, i, o);
    }
    forall o ensures Held(s, o) <==>
      Holds(s.threads[i], o) || exists j :: 0 <= j < |s.threads| && j != i && Holds(s.threads[j], o)
    {
    }
  }

  function Initial(n: nat): State {
    State(None, {}, 0, seq(n, i => Load))
  }

  /** The states that threads can reach, in any order of steps. */
  predicate Possible(s: State, schedule: seq<nat>)
    decreases |schedule|
  {
    schedule == [] ||
    (schedule[0] < |s.threads| && !s.threads[schedule[0]].Done? && Possible(Step(s, schedule[0]), schedule[1..]))
  }

  function Run(s: State, schedule: seq<nat>): State
    requires Possible(s, schedule)
    decreases |schedule|
  {
    if schedule == [] then s else Run(Step(s, schedule[0]), schedule[1..])
  }

  lemma {:induction false} RunKeepsInv(s: State, schedule: seq<nat>)
    requires Inv(s) && Possible(s, schedule)
    ensures Inv(Run(s, schedule)) && |Run(s, schedule).threads| == |s.threads|
    decreases |schedule|
  {
    if schedule != [] {
      StepKeepsInv(s, schedule[0]);
      RunKeepsInv(Step(s, schedule[0]), schedule[1..]);
    }
  }

  /** Every thread that is done has the same object, which exists; and when all are, no other does. */
  lemma OneObject(n: nat, schedule: seq<nat>)
    requires Possible(Initial(n), schedule)
    ensures var s := Run(Initial(n), schedule);
      |s.threads| == n
      && (forall i | 0 <= i < n && s.threads[i].Done? :: s.slot == Some(s.threads[i].result) && s.threads[i].result in s.live)
      && (n > 0 && (forall i | 0 <= i < n :: s.threads[i].Done?) ==> s.slot.Some? && s.live == {s.slot.value})
  {
    var s := Run(Initial(n), schedule);
    RunKeepsInv(Initial(n), schedule);
    forall i | 0 <= i < n && s.threads[i].Done? ensures s.slot == Some(s.threads[i].result) {
      assert Knows(s, s.threads[i]);
    }
    if n > 0 && forall i | 0 <= i < n :: s.threads[i].Done? {
      forall o ensures !Held(s, o) {
      }
      assert Knows(s, s.threads[0]);
    }
  }

  /** Once an object is published it stays, and from when nobody is about to create one, nobody does. */
  lemma {:induction false} NoneIsCreatedAfter(s: State, schedule: seq<nat>)
    requires s.slot.Some? && Possible(s, schedule) && forall i | 0 <= i < |s.threads| :: !s.threads[i].Create?
    ensures Run(s, schedule).slot == s.slot && Run(s, schedule).next == s.next && Run(s, schedule).live <= s.live
    decreases |schedule|
  {
    if schedule != [] {
      NoneIsCreatedAfter(Step(s, schedule[0]), schedule[1..]);
    }
  }

  // ---------------------------------------------------------------- progress

  /** How many steps a thread can still take. */
  function Left(t: Thread): nat {
    match t
    case Load => 4
    case Create => 3
    case Publish(_) => 2
    case Discard(_, _) => 1
    case Done(_) => 0
  }

  function AllLeft(threads: seq<Thread>): nat {
    if threads == [] then 0 else AllLeft(threads[..|threads| - 1]) + Left(threads[|threads| - 1])
  }

  lemma {:induction false} FewerLeft(threads: seq<Thread>, i: nat, t: Thread)
    requires i < |threads| && Left(t) < Left(threads[i])
    ensures AllLeft(threads[i := t]) < AllLeft(threads)
  {
    var k := |threads| - 1;
    if i < k {
      FewerLeft(threads[..k], i, t);
      assert threads[i := t][..k] == threads[..k][i := t];
    } else {
      assert threads[i := t][..k] == threads[..k];
    }
  }

  lemma {:induction false} InitialLeft(n: nat)
    ensures AllLeft(Initial(n).threads) == 4 * n
  {
    if n > 0 {
      InitialLeft(n - 1);
      assert Initial(n).threads[..n - 1] == Initial(n - 1).threads;
    }
  }

  lemma {:induction false} RunShortens(s: State, schedule: seq<nat>)
    requires Possible(s, schedule)
    ensures |schedule| + AllLeft(Run(s, schedule).threads) <= AllLeft(s.threads)
    decreases |schedule|
  {
    if schedule != [] {
      var i := schedule[0];
      FewerLeft(s.threads, i, Step(s, i).threads[i]);
      assert Step(s, i).threads == s.threads[i := Step(s, i).threads[i]];
      RunShortens(Step(s, i), schedule[1..]);
    }
  }

  /** Nobody waits: whoever is not done can always step, and all are done after at most four steps each. */
  lemma NobodyWaits(n: nat, schedule: seq<nat>)
    requires Possible(Initial(n), schedule)
    ensures |schedule| <= 4 * n
  {
    RunShortens(Initial(n), schedule);
    InitialLeft(n);
  }
}
