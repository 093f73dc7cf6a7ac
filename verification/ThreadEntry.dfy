/** GC::ThreadEnter and GC::ThreadLeave of MMgc/GC.cpp, as the steps that any number of threads take between them.
    The fields m_gcThread and enterCount are ordinary memory, and m_gcThread is read without the lock. */
module ThreadEntry {

  /** Where a thread is: outside, or about to take a step of ThreadEnter or ThreadLeave. */
  datatype PC =
    | Outside
    | Testing(tryEnter: bool)      // VMPI_lockTestAndAcquire
    | Reading                      // compare m_gcThread with oneself
    | Waiting                      // VMPI_lockAcquire
    | Counting                     // load enterCount
    | Counted(count: nat)          // store it, one more
    | Claiming                     // m_gcThread := oneself
    | Uncounting                   // load enterCount
    | Uncounted(count: nat)        // store it, one less
    | Unclaiming                   // m_gcThread := null
    | Releasing                    // VMPI_lockRelease

  /** The depth counts how often the thread has entered and not yet left. */
  datatype Thread = Thread(pc: PC, depth: nat)

  const NULL_THREAD: nat := 0

  datatype State = State(locked: bool, gcThread: nat, enterCount: nat, threads: map<nat, Thread>)

  /** What a thread wants when it is outside. */
  datatype Wish = Enter(tryEnter: bool) | Leave | Nothing

  /** What a thread depends on: the memory, and where it is itself. */
  datatype View = View(locked: bool, gcThread: nat, enterCount: nat, thread: Thread)

  function Mine(s: State, t: nat): View
    requires t in s.threads
  {
    View(s.locked, s.gcThread, s.enterCount, s.threads[t])
  }

  function At(v: View, pc: PC, depth: nat): View {
    v.(thread := Thread(pc, depth))
  }

  /** The next step of a thread. One that waits for the lock may find it taken, and one that is outside may want
      something, but leaves only what it has entered. */
  function Step(v: View, t: nat, wish: Wish): View {
    var depth := v.thread.depth;
    match v.thread.pc
    case Outside =>
      if wish.Enter? then At(v, Testing(wish.tryEnter), depth)
      else if wish.Leave? && depth > 0 then At(v, Uncounting, depth)
      else v
    case Testing(tryEnter) =>
      if !v.locked then At(v, Counting, depth).(locked := true)
      else if tryEnter then At(v, Outside, depth)
      else At(v, Reading, depth)
    case Reading => At(v, if v.gcThread != t then Waiting else Counting, depth)
    case Waiting => if v.locked then v else At(v, Counting, depth).(locked := true)
    case Counting => At(v, Counted(v.enterCount), depth)
    case Counted(count) =>
      (if count == 0 then At(v, Claiming, depth) else At(v, Outside, depth + 1)).(enterCount := count + 1)
    case Claiming => At(v, Outside, depth + 1).(gcThread := t)
    case Uncounting => At(v, Uncounted(v.enterCount), depth)
    case Uncounted(count) =>
      if count == 0 || depth == 0 then v   // never happens, as InvHolds says
      else At(v, if count == 1 then Unclaiming else Outside, depth - 1).(enterCount := count - 1)
    case Unclaiming => At(v, Releasing, depth).(gcThread := NULL_THREAD)
    case Releasing => At(v, Outside, depth).(locked := false)
  }

  function Act(s: State, t: nat, wish: Wish): State {
    if t !in s.threads then s
    else var v := Step(Mine(s, t), t, wish); State(v.locked, v.gcThread, v.enterCount, s.threads[t := v.thread])
  }

  // ----- The invariant

  /** The thread has the lock. */
  predicate Inside(th: Thread) {
    th.depth > 0 || th.pc.Counting? || th.pc.Counted? || th.pc.Claiming? || th.pc.Unclaiming? || th.pc.Releasing?
  }

  /** What the memory holds while this thread has the lock. */
  ghost predicate Holds(s: State, t: nat, th: Thread) {
    && s.locked
    && s.enterCount == (if th.pc.Claiming? then 1 else th.depth)
    && s.gcThread == (if th.depth > 0 || th.pc.Unclaiming? then t else NULL_THREAD)
    && (th.pc.Waiting? || th.pc.Claiming? || th.pc.Unclaiming? || th.pc.Releasing? ==> th.depth == 0)
    && (th.pc.Uncounting? || th.pc.Uncounted? ==> th.depth > 0)
    && (th.pc.Counted? || th.pc.Uncounted? ==> th.pc.count == s.enterCount)
  }

  ghost predicate Inv(s: State) {
    && NULL_THREAD !in s.threads
    && (forall t :: t in s.threads && Inside(s.threads[t]) ==> Holds(s, t, s.threads[t]))
    && (forall t, u :: t in s.threads && u in s.threads && Inside(s.threads[t]) && Inside(s.threads[u]) ==> t == u)
    && (forall t :: t in s.threads && !Inside(s.threads[t]) ==> Quiet(s.threads[t]))
    && (s.locked ==> exists t :: t in s.threads && Inside(s.threads[t]))
    && (s.locked || Free(s))
  }

  ghost predicate Initial(s: State) {
    && !s.locked && s.gcThread == NULL_THREAD && s.enterCount == 0 && NULL_THREAD !in s.threads
    && forall t :: t in s.threads ==> s.threads[t] == Thread(Outside, 0)
  }

  /** What a thread with the lock does to the memory, and when it gives the lock back. */
  lemma OwnerActs(s: State, t: nat, wish: Wish)
    requires t in s.threads && Inside(s.threads[t]) && Holds(s, t, s.threads[t])
    ensures var s' := Act(s, t, wish);
      && t in s'.threads && s'.threads == s.threads[t := s'.threads[t]]
      && (if Inside(s'.threads[t]) then Holds(s', t, s'.threads[t]) else Free(s') && Quiet(s'.threads[t]))
  {
    var s' := Act(s, t, wish);
    assert s.threads == s.threads[t := s.threads[t]];
  }

  ghost predicate Free(s: State) {
    !s.locked && s.gcThread == NULL_THREAD && s.enterCount == 0
  }

  ghost predicate Quiet(th: Thread) {
    !th.pc.Uncounting? && !th.pc.Uncounted?
  }

  /** What a thread without the lock can do: nothing to the memory, unless it gets the lock. */
  lemma OtherActs(s: State, t: nat, wish: Wish)
    requires t in s.threads && !Inside(s.threads[t]) && Quiet(s.threads[t]) && (s.locked || Free(s))
    requires s.gcThread != t
    ensures var s' := Act(s, t, wish);
      && t in s'.threads && s'.threads == s.threads[t := s'.threads[t]]
      && if Inside(s'.threads[t]) then Free(s) && Holds(s', t, s'.threads[t])
         else Quiet(s'.threads[t]) && s' == s.(threads := s'.threads)
  {
    var s' := Act(s, t, wish);
    assert s.threads == s.threads[t := s.threads[t]];
  }

  /** Every step of every thread keeps the invariant. */
  lemma InvHolds(s: State, t: nat, wish: Wish)
    requires Inv(s)
    ensures Inv(Act(s, t, wish))
  {
    hide Act, Holds, Quiet;
    if t in s.threads {
      if Inside(s.threads[t]) {
        OwnerActs(s, t, wish);
        OwnerSteps(s, Act(s, t, wish), t);
      } else {
        IfNotInside(s, t);
        OtherActs(s, t, wish);
        OtherSteps(s, Act(s, t, wish), t);
      }
    } else {
      NoThread(s, t, wish);
    }
  }

  lemma NoThread(s: State, t: nat, wish: Wish)
    requires t !in s.threads
    ensures Act(s, t, wish) == s
  {
  }

  lemma IfNotInside(s: State, t: nat)
    requires Inv(s) && t in s.threads && !Inside(s.threads[t])
    ensures Quiet(s.threads[t]) && (s.locked || Free(s)) && s.gcThread != t
  {
    if s.locked {
      var u :| u in s.threads && Inside(s.threads[u]);
      assert Holds(s, u, s.threads[u]);
    }
  }

  lemma OwnerSteps(s: State, s': State, t: nat)
    requires Inv(s) && t in s.threads && Inside(s.threads[t]) && t in s'.threads
    requires s'.threads == s.threads[t := s'.threads[t]]
    requires if Inside(s'.threads[t]) then Holds(s', t, s'.threads[t]) else Free(s') && Quiet(s'.threads[t])
    ensures Inv(s')
  {
    if s'.locked { assert Inside(s'.threads[t]); }
  }

  lemma OtherSteps(s: State, s': State, t: nat)
    requires Inv(s) && t in s.threads && !Inside(s.threads[t]) && t in s'.threads
    requires s'.threads == s.threads[t := s'.threads[t]]
    requires if Inside(s'.threads[t]) then Free(s) && Holds(s', t, s'.threads[t])
             else Quiet(s'.threads[t]) && s' == s.(threads := s'.threads)
    ensures Inv(s')
  {
    if s.locked {
      var u :| u in s.threads && Inside(s.threads[u]);
      assert Inside(s'.threads[u]);
    } else {
      assert s'.locked ==> Inside(s'.threads[t]);
    }
  }

  // ----- Whole runs

  ghost function Run(s: State, steps: seq<(nat, Wish)>): State {
    if steps == [] then s
    else Act(Run(s, steps[..|steps| - 1]), steps[|steps| - 1].0, steps[|steps| - 1].1)
  }

  lemma {:induction false} RunKeepsInv(s: State, steps: seq<(nat, Wish)>)
    requires Initial(s)
    ensures Inv(Run(s, steps))
  {
    if steps != [] {
      RunKeepsInv(s, steps[..|steps| - 1]);
      InvHolds(Run(s, steps[..|steps| - 1]), steps[|steps| - 1].0, steps[|steps| - 1].1);
    }
  }

  /** For any number of threads and any interleaving: at most one thread is inside the collector, however deeply it
      entered; enterCount is its depth and m_gcThread says who it is; and the lock is held as long as, and only as
      long as, some thread has entered, or is about to or just done. */
  lemma MutualExclusion(s0: State, steps: seq<(nat, Wish)>, t: nat)
    requires Initial(s0)
    ensures var s := Run(s0, steps);
      t in s.threads && s.threads[t].depth > 0 ==>
        && s.locked && s.gcThread == t && s.enterCount == s.threads[t].depth
        && forall u :: u in s.threads && u != t ==> s.threads[u].depth == 0 && !Inside(s.threads[u])
    ensures var s := Run(s0, steps);
      s.locked <==> exists u :: u in s.threads && Inside(s.threads[u])
  {
    RunKeepsInv(s0, steps);
  }

  /** Although m_gcThread is read without the lock, the comparison tells a thread whether it has the lock itself. */
  lemma UnlockedReadIsSafe(s0: State, steps: seq<(nat, Wish)>, t: nat)
    requires Initial(s0)
    ensures var s := Run(s0, steps);
      t in s.threads && s.threads[t].pc.Reading? ==> (s.gcThread == t <==> s.threads[t].depth > 0)
  {
    RunKeepsInv(s0, steps);
    var s := Run(s0, steps);
    if t in s.threads && s.threads[t].pc.Reading? && s.locked {
      var u :| u in s.threads && Inside(s.threads[u]);
      assert Holds(s, u, s.threads[u]);
    }
  }

  /** A thread that tries to enter once more fails, although it could have entered without trying. */
  lemma OwnerCannotTry(s0: State, steps: seq<(nat, Wish)>, t: nat)
    requires Initial(s0)
    ensures var s := Run(s0, steps);
      t in s.threads && s.threads[t].depth > 0 && s.threads[t].pc.Testing? ==>
        (Act(s, t, Nothing).threads[t].pc == if s.threads[t].pc.tryEnter then Outside else Reading)
  {
    MutualExclusion(s0, steps, t);
  }

  // ----- Getting in and out, whatever other threads do meanwhile

  /** The steps of a thread as if it were the only one. */
  ghost function AloneRun(v: View, t: nat, wishes: seq<Wish>): View
    decreases |wishes|
  {
    if wishes == [] then v else AloneRun(Step(v, t, wishes[0]), t, wishes[1..])
  }

  /** The wishes of one thread in a run of all. */
  ghost function Own(steps: seq<(nat, Wish)>, t: nat): seq<Wish> {
    if steps == [] then []
    else Own(steps[..|steps| - 1], t) + if steps[|steps| - 1].0 == t then [steps[|steps| - 1].1] else []
  }

  /** The thread has the lock before each of its steps. */
  ghost predicate StaysInside(v: View, t: nat, wishes: seq<Wish>)
    decreases |wishes|
  {
    wishes == [] || (Inside(v.thread) && StaysInside(Step(v, t, wishes[0]), t, wishes[1..]))
  }

  lemma {:induction false} AloneRunMore(v: View, t: nat, wishes: seq<Wish>, wish: Wish)
    ensures AloneRun(v, t, wishes + [wish]) == Step(AloneRun(v, t, wishes), t, wish)
    ensures StaysInside(v, t, wishes + [wish]) ==> StaysInside(v, t, wishes) && Inside(AloneRun(v, t, wishes).thread)
    decreases |wishes|
  {
    hide Step;
    if wishes == [] {
      assert ([wish])[1..] == [];
    } else {
      assert (wishes + [wish])[1..] == wishes[1..] + [wish];
      AloneRunMore(Step(v, t, wishes[0]), t, wishes[1..], wish);
    }
  }

  /** The steps of others are nothing to a thread that has the lock. */
  lemma OthersAreOutside(s: State, t: nat, u: nat, wish: Wish)
    requires Inv(s) && t in s.threads && Inside(s.threads[t]) && u != t
    ensures t in Act(s, u, wish).threads && Mine(Act(s, u, wish), t) == Mine(s, t)
  {
    hide Act, Holds, Quiet;
    if u in s.threads {
      IfNotInside(s, u);
      HasLock(s, t);
      OtherActs(s, u, wish);
    } else {
      NoThread(s, u, wish);
    }
  }

  lemma HasLock(s: State, t: nat)
    requires Inv(s) && t in s.threads && Inside(s.threads[t])
    ensures s.locked && forall u :: u in s.threads && u != t ==> !Inside(s.threads[u])
  {
    assert Holds(s, t, s.threads[t]);
  }

  /** As long as a thread has the lock, any run is to it as if there were only itself. */
  lemma {:induction false} AsIfAlone(s: State, steps: seq<(nat, Wish)>, t: nat)
    requires Inv(s) && t in s.threads && StaysInside(Mine(s, t), t, Own(steps, t))
    requires Inside(AloneRun(Mine(s, t), t, Own(steps, t)).thread) || (steps != [] && steps[|steps| - 1].0 == t)
    ensures var s' := Run(s, steps);
      Inv(s') && t in s'.threads && Mine(s', t) == AloneRun(Mine(s, t), t, Own(steps, t))
  {
    hide Step, Inv, Inside;
    if steps != [] {
      var before, last := steps[..|steps| - 1], steps[|steps| - 1];
      if last.0 == t { AloneRunMore(Mine(s, t), t, Own(before, t), last.1); }
      else { assert Own(steps, t) == Own(before, t); }
      AsIfAlone(s, before, t);
      InvHolds(Run(s, before), last.0, last.1);
      if last.0 != t { OthersAreOutside(Run(s, before), t, last.0, last.1); }
    }
  }

  lemma {:induction false} RunFront(s: State, steps: seq<(nat, Wish)>)
    requires steps != []
    ensures Run(s, steps) == Run(Act(s, steps[0].0, steps[0].1), steps[1..])
  {
    hide Act;
    var before, last := steps[..|steps| - 1], steps[|steps| - 1];
    if before != [] {
      RunFront(s, before);
      assert before[1..] == steps[1..][..|steps| - 2];
    } else {
      assert steps[1..] == [];
    }
  }

  lemma {:induction false} OwnFront(steps: seq<(nat, Wish)>, t: nat)
    requires steps != []
    ensures Own(steps, t) == (if steps[0].0 == t then [steps[0].1] else []) + Own(steps[1..], t)
  {
    var before := steps[..|steps| - 1];
    if before != [] {
      OwnFront(before, t);
      assert before[1..] == steps[1..][..|steps| - 2];
    }
  }

  /** Inside to this depth, and doing nothing. */
  ghost predicate IsInside(s: State, t: nat, depth: nat) {
    t in s.threads && s.threads[t] == Thread(Outside, depth) && s.locked && s.gcThread == t && s.enterCount == depth
  }

  /** A thread that tests for the lock or waits for it, and finds it free, gets in with three steps more, whatever
      others do in between. */
  lemma GetsIn(s: State, steps: seq<(nat, Wish)>, t: nat)
    requires Inv(s) && !s.locked && t in s.threads && (s.threads[t].pc.Testing? || s.threads[t].pc.Waiting?)
    requires steps != [] && steps[0].0 == t && |Own(steps, t)| == 4
    ensures IsInside(Run(s, steps), t, 1)
  {
    hide Own, Run, Inv;
    FreeMeans(s, t);
    var wish, rest := steps[0].1, steps[1..];
    RunFront(s, steps);
    OwnFront(steps, t);
    InvHolds(s, t, wish);
    ThreeSteps(Mine(Act(s, t, wish), t), t, Own(rest, t));
    AsIfAlone(Act(s, t, wish), rest, t);
  }

  lemma FreeMeans(s: State, t: nat)
    requires Inv(s) && !s.locked && t in s.threads
    ensures s.gcThread == NULL_THREAD && s.enterCount == 0 && s.threads[t].depth == 0 && t != NULL_THREAD
    ensures !Inside(s.threads[t])
  {
  }

  lemma FirstStep(v: View, t: nat, wishes: seq<Wish>)
    requires wishes != []
    ensures AloneRun(v, t, wishes) == AloneRun(Step(v, t, wishes[0]), t, wishes[1..])
    ensures StaysInside(v, t, wishes) <==> Inside(v.thread) && StaysInside(Step(v, t, wishes[0]), t, wishes[1..])
  {
  }

  lemma NoStep(v: View, t: nat)
    ensures AloneRun(v, t, []) == v && StaysInside(v, t, [])
  {
  }

  lemma ThreeSteps(v: View, t: nat, wishes: seq<Wish>)
    requires v == View(true, NULL_THREAD, 0, Thread(Counting, 0)) && |wishes| == 3
    ensures StaysInside(v, t, wishes) && AloneRun(v, t, wishes) == View(true, t, 1, Thread(Outside, 1))
  {
    hide AloneRun, StaysInside;
    var v1 := Step(v, t, wishes[0]);
    var v2 := Step(v1, t, wishes[1]);
    FirstStep(v, t, wishes);
    FirstStep(v1, t, wishes[1..]);
    FirstStep(v2, t, wishes[1..][1..]);
    NoStep(Step(v2, t, wishes[2]), t);
    assert wishes[1..][1..][1..] == [];
  }

  /** A thread that wants to enter, trying or not, while the lock is free, and tests for it before any other thread
      does, gets in. */
  lemma EntersFree(s: State, steps: seq<(nat, Wish)>, t: nat, tryEnter: bool)
    requires Inv(s) && !s.locked && t in s.threads && s.threads[t].pc.Outside?
    requires |steps| >= 2 && steps[0] == (t, Enter(tryEnter)) && steps[1].0 == t && |Own(steps, t)| == 5
    ensures IsInside(Run(s, steps), t, 1)
  {
    hide Own, Run, Inv;
    FreeMeans(s, t);
    RunFront(s, steps);
    OwnFront(steps, t);
    InvHolds(s, t, Enter(tryEnter));
    GetsIn(Act(s, t, Enter(tryEnter)), steps[1..], t);
  }

  // ----- Nesting

  /** The steps of a thread inside that enters without trying, or leaves; the wishes count only where it is outside. */
  const ENTERING: seq<Wish> := [Enter(false), Nothing, Nothing, Nothing, Nothing]
  const LEAVING: seq<Wish> := [Leave, Nothing, Nothing]
  const LEAVING_LAST: seq<Wish> := [Leave, Nothing, Nothing, Nothing, Nothing]

  function Within(t: nat, depth: nat): View {
    View(true, t, depth, Thread(Outside, depth))
  }

  /** A thread inside enters once more without waiting. */
  lemma EntersDeeper(t: nat, depth: nat)
    requires depth > 0
    ensures StaysInside(Within(t, depth), t, ENTERING)
    ensures AloneRun(Within(t, depth), t, ENTERING) == Within(t, depth + 1)
  {
    hide AloneRun, StaysInside;
    FiveSteps(Within(t, depth), t, ENTERING);
  }

  /** It leaves, and stays inside if it entered more often. */
  lemma LeavesOnce(t: nat, depth: nat)
    requires depth > 1
    ensures StaysInside(Within(t, depth), t, LEAVING) && AloneRun(Within(t, depth), t, LEAVING) == Within(t, depth - 1)
  {
    hide AloneRun, StaysInside;
    var v := Within(t, depth);
    var v1 := Step(v, t, LEAVING[0]);
    var v2 := Step(v1, t, LEAVING[1]);
    FirstStep(v, t, LEAVING);
    FirstStep(v1, t, LEAVING[1..]);
    FirstStep(v2, t, LEAVING[1..][1..]);
    NoStep(Step(v2, t, LEAVING[2]), t);
    assert LEAVING[1..][1..][1..] == [];
  }

  /** The last time it gives the lock back. */
  lemma LeavesLast(t: nat)
    ensures StaysInside(Within(t, 1), t, LEAVING_LAST)
    ensures AloneRun(Within(t, 1), t, LEAVING_LAST) == View(false, NULL_THREAD, 0, Thread(Outside, 0))
  {
    hide AloneRun, StaysInside;
    FiveSteps(Within(t, 1), t, LEAVING_LAST);
  }

  lemma FiveSteps(v: View, t: nat, wishes: seq<Wish>)
    requires |wishes| == 5
    ensures var v1 := Step(v, t, wishes[0]); var v2 := Step(v1, t, wishes[1]); var v3 := Step(v2, t, wishes[2]);
      var v4 := Step(v3, t, wishes[3]);
      && AloneRun(v, t, wishes) == Step(v4, t, wishes[4])
      && (Inside(v.thread) && Inside(v1.thread) && Inside(v2.thread) && Inside(v3.thread) && Inside(v4.thread) ==>
            StaysInside(v, t, wishes))
  {
    hide Step, AloneRun, StaysInside, Inside;
    var v1 := Step(v, t, wishes[0]);
    var v2 := Step(v1, t, wishes[1]);
    var v3 := Step(v2, t, wishes[2]);
    var v4 := Step(v3, t, wishes[3]);
    FirstStep(v, t, wishes);
    FirstStep(v1, t, wishes[1..]);
    FirstStep(v2, t, wishes[1..][1..]);
    FirstStep(v3, t, wishes[1..][1..][1..]);
    FirstStep(v4, t, wishes[1..][1..][1..][1..]);
    NoStep(Step(v4, t, wishes[4]), t);
    assert wishes[1..][1..][1..][1..][1..] == [];
  }

  /** n times ThreadEnter. */
  ghost function Entering(n: nat): seq<Wish> {
    if n == 0 then [] else ENTERING + Entering(n - 1)
  }

  /** ThreadLeave, as often as it takes to get out of this depth. */
  ghost function LeavingAll(depth: nat): seq<Wish> {
    if depth == 0 then [] else if depth == 1 then LEAVING_LAST else LEAVING + LeavingAll(depth - 1)
  }

  lemma {:induction false} OneAfterTheOther(v: View, t: nat, a: seq<Wish>, b: seq<Wish>)
    ensures AloneRun(v, t, a + b) == AloneRun(AloneRun(v, t, a), t, b)
    ensures StaysInside(v, t, a) && StaysInside(AloneRun(v, t, a), t, b) ==> StaysInside(v, t, a + b)
    decreases |a|
  {
    hide Step, Inside;
    if a == [] {
      assert a + b == b;
    } else {
      assert (a + b)[1..] == a[1..] + b && (a + b)[0] == a[0];
      OneAfterTheOther(Step(v, t, a[0]), t, a[1..], b);
    }
  }

  lemma {:induction false} EntersOften(t: nat, depth: nat, n: nat)
    requires depth > 0
    ensures StaysInside(Within(t, depth), t, Entering(n))
    ensures AloneRun(Within(t, depth), t, Entering(n)) == Within(t, depth + n)
    decreases n
  {
    hide AloneRun, StaysInside, Step;
    if n == 0 {
      NoStep(Within(t, depth), t);
    } else {
      EntersDeeper(t, depth);
      EntersOften(t, depth + 1, n - 1);
      OneAfterTheOther(Within(t, depth), t, ENTERING, Entering(n - 1));
    }
  }

  lemma {:induction false} LeavesAll(t: nat, depth: nat)
    requires depth > 0
    ensures StaysInside(Within(t, depth), t, LeavingAll(depth))
    ensures AloneRun(Within(t, depth), t, LeavingAll(depth)) == View(false, NULL_THREAD, 0, Thread(Outside, 0))
  {
    hide AloneRun, StaysInside, Step;
    if depth == 1 {
      LeavesLast(t);
    } else {
      LeavesOnce(t, depth);
      LeavesAll(t, depth - 1);
      OneAfterTheOther(Within(t, depth), t, LEAVING, LeavingAll(depth - 1));
    }
  }

  /** A thread inside that enters so many times more is deeper by that, whatever others do, and has not waited. */
  lemma EntersAgain(s: State, steps: seq<(nat, Wish)>, t: nat, depth: nat, n: nat)
    requires Inv(s) && depth > 0 && IsInside(s, t, depth) && Own(steps, t) == Entering(n)
    ensures IsInside(Run(s, steps), t, depth + n)
  {
    hide Inv, Run, Own, Entering, AloneRun, StaysInside;
    EntersOften(t, depth, n);
    AsIfAlone(s, steps, t);
  }

  /** As many leaves as enters, and the lock is free again at the end of the last one. */
  lemma LeavesFree(s: State, steps: seq<(nat, Wish)>, t: nat, depth: nat)
    requires Inv(s) && depth > 0 && IsInside(s, t, depth) && Own(steps, t) == LeavingAll(depth)
    requires steps != [] && steps[|steps| - 1].0 == t
    ensures var s' := Run(s, steps); Free(s') && t in s'.threads && s'.threads[t] == Thread(Outside, 0)
  {
    hide Inv, Run, Own, LeavingAll, AloneRun, StaysInside;
    LeavesAll(t, depth);
    AsIfAlone(s, steps, t);
  }

  /** A thread that finds the lock taken by another gives up if it was only trying, and else waits, which changes
      nothing for anyone. */
  lemma NotAdmitted(s: State, t: nat, u: nat, wish: Wish)
    requires Inv(s) && t in s.threads && u in s.threads && u != t && Inside(s.threads[u])
    ensures var s' := Act(s, t, wish); s' == s.(threads := s'.threads) && t in s'.threads
    ensures var pc, pc' := s.threads[t].pc, Act(s, t, wish).threads[t].pc;
      && (pc.Testing? ==> pc' == if pc.tryEnter then Outside else Reading)
      && (pc.Reading? || pc.Waiting? ==> pc' == Waiting)
      && Act(s, t, wish).threads[t].depth == 0
  {
    HasLock(s, u);
    assert Holds(s, u, s.threads[u]);
  }
}
