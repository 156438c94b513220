/** Tasks in a queue, forked and switched between, with their stack frames in memory that all of them share. */
module Scheduling {
  import opened PageTables

  const KERNEL_STACK_SIZE := 2048

  /** Where a saved instruction pointer can point: nowhere yet, just after one of the two calls of
      read_eip, or to the dummy 0x12345 that a switch leaves in eax. */
  datatype Resume = Nowhere | InFork | InSwitch | Dummy

  /** How a call that went through read_eip ends in whichever task comes back from it: in Switch, in Fork
      with a pid, by writing through a pointer that is no task's, or at an address that is no code of the kernel's. */
  datatype Outcome = Early | FromSwitch | FromFork(pid: nat) | Stray | Fault

  /** The local variables of a Fork: the two tasks, as pids. Any other word there is no task's. */
  datatype Frame = Frame(parent: nat, child: nat)

  const NO_FRAME := Frame(0, 0)

  /** By base pointer. The stack lies in pages that every directory has in common, so there is one of these. */
  type Frames = map<int, Frame>

  function FrameOf(frames: Frames, ebp: int): (f: Frame)
    ensures ebp !in frames ==> f == Frame(0, 0)  // pids begin at 1
  {
    if ebp in frames then frames[ebp] else NO_FRAME
  }

  // The system as a value.

  datatype Context = Context(eip: Resume, esp: nat, ebp: nat)

  /** What is saved for each task, in the order of their pids from 1 on; which of them runs; the
      registers; and the stack. */
  datatype System = System(saved: seq<Context>, running: nat, esp: nat, ebp: nat, frames: Frames)

  /** A step, with what it leaves in the stack: the calls that a Fork or a Switch makes use it too. */
  datatype Step = Fork(frames: Frames) | Switch(frames: Frames) | Work(frames: Frames, esp: nat, ebp: nat)

  predicate Formed(s: System) { s.running < |s.saved| }

  /** The stack once a step is over: a Fork has its locals in its own frame. */
  function StackLeft(s: System, step: Step): Frames {
    if step.Fork? then step.frames[s.ebp := Frame(s.running + 1, |s.saved| + 1)] else step.frames
  }

  /** A new task is saved as if it were in the middle of the Fork that makes it. */
  function Forked(s: System): System {
    s.(saved := s.saved + [Context(InFork, s.esp, s.ebp)])
  }

  /** Whose turn is next, round the queue. */
  function Successor(s: System): nat { if s.running + 1 < |s.saved| then s.running + 1 else 0 }

  /** The running task is saved, and the next one's registers are loaded. */
  function Handed(s: System): (s': System)
    requires Formed(s)
    ensures Formed(s') && |s'.saved| == |s.saved|
  {
    var saved := s.saved[s.running := Context(InSwitch, s.esp, s.ebp)];
    var next := Successor(s);
    System(saved, next, saved[next].esp, saved[next].ebp, s.frames)
  }

  /** Whether the running task, back in Fork, finds that it is the parent. */
  predicate TakesItselfForParent(s: System) {
    FrameOf(s.frames, s.ebp).parent == s.running + 1
  }

  function Landing(s: System): Outcome
    requires Formed(s)
  {
    match s.saved[s.running].eip
    case InSwitch => FromSwitch
    case InFork =>
      var child := FrameOf(s.frames, s.ebp).child;
      if !TakesItselfForParent(s) then FromFork(0)
      else if 1 <= child <= |s.saved| then FromFork(child) else Stray
    case _ => Fault
  }

  /** One that takes itself for the parent saves the dummy as somebody's instruction pointer. */
  function Landed(s: System): (s': System)
    requires Formed(s)
    ensures Formed(s') && |s'.saved| == |s.saved|
  {
    if s.saved[s.running].eip == InFork && Landing(s) != FromFork(0) && Landing(s) != Stray
    then s.(saved := s.saved[FrameOf(s.frames, s.ebp).child - 1 := Context(Dummy, s.esp, s.ebp)])
    else s
  }

  function Next(s: System, step: Step): (s': System)
    requires Formed(s)
    ensures Formed(s')
  {
    var s' := s.(frames := StackLeft(s, step));
    match step
    case Fork(_) => Forked(s')
    case Switch(_) => Landed(Handed(s'))
    case Work(_, esp, ebp) => s'.(esp := esp, ebp := ebp)
  }

  function After(s: System, steps: seq<Step>): (s': System)
    requires Formed(s)
    ensures Formed(s')
    decreases steps
  {
    if steps == [] then s else After(Next(s, steps[0]), steps[1..])
  }

  lemma {:induction false} AfterOneMore(s: System, steps: seq<Step>, i: nat)
    requires Formed(s) && i < |steps|
    ensures After(s, steps[..i + 1]) == Next(After(s, steps[..i]), steps[i])
    decreases steps
  {
    if i == 0 {
      assert steps[..1][1..] == [] && steps[..1][0] == steps[0];
    } else {
      assert steps[..i + 1][1..] == steps[1..][..i] && steps[..i][1..] == steps[1..][..i - 1];
      AfterOneMore(Next(s, steps[0]), steps[1..], i - 1);
    }
  }

  lemma AfterTwo(s: System, first: Step, second: Step)
    requires Formed(s)
    ensures After(s, [first, second]) == Next(Next(s, first), second)
  {
    hide Next;
    AfterOne(Next(s, first), second);
    assert [first, second][1..] == [second];
  }

  lemma AfterOne(s: System, step: Step)
    requires Formed(s)
    ensures After(s, [step]) == Next(s, step)
  {
    hide Next;
    assert [step][1..] == [];
  }

  // What a run keeps.

  /** A task that waits can be resumed, and if that is in Fork, it will not take itself for the parent. */
  predicate Fit(s: System, i: nat)
    requires i < |s.saved|
  {
    var c := s.saved[i];
    c.eip == InSwitch || (c.eip == InFork && FrameOf(s.frames, c.ebp).parent != i + 1)
  }

  predicate Faithful(s: System) {
    forall i :: 0 <= i < |s.saved| && i != s.running ==> Fit(s, i)
  }

  /** The running task does not leave a task that waits in Fork in that one's own frame. */
  predicate Guard(s: System, step: Step) {
    forall i :: 0 <= i < |s.saved| && i != s.running && s.saved[i].eip == InFork ==>
                  FrameOf(StackLeft(s, step), s.saved[i].ebp).parent != i + 1
  }

  predicate Guarded(s: System, steps: seq<Step>)
    requires Formed(s)
    decreases steps
  {
    steps == [] || (Guard(s, steps[0]) && Guarded(Next(s, steps[0]), steps[1..]))
  }

  /** In particular it may leave the frames of those that wait alone. */
  predicate LeavesFrames(s: System, step: Step) {
    forall i :: 0 <= i < |s.saved| && i != s.running ==> FrameOf(step.frames, s.saved[i].ebp) == FrameOf(s.frames, s.saved[i].ebp)
  }

  lemma LeavingFramesIsGuarded(s: System, step: Step)
    requires Faithful(s) && LeavesFrames(s, step)
    ensures Guard(s, step)
  {
    forall i | 0 <= i < |s.saved| && i != s.running && s.saved[i].eip == InFork
      ensures FrameOf(StackLeft(s, step), s.saved[i].ebp).parent != i + 1
    {
      assert Fit(s, i);
    }
  }

  lemma HandedFaithful(s: System)
    requires Formed(s) && Faithful(s)
    ensures Faithful(Handed(s)) && Fit(Handed(s), Handed(s).running)
    ensures Landing(Handed(s)) == FromSwitch || Landing(Handed(s)) == FromFork(0)
    ensures Landed(Handed(s)) == Handed(s)
  {
    var s' := Handed(s);
    forall i | 0 <= i < |s'.saved| ensures Fit(s', i) {
      assert i != s.running ==> Fit(s, i);
    }
  }

  lemma StackKept(s: System, step: Step)
    requires Formed(s) && Faithful(s)
    ensures Faithful(s.(frames := StackLeft(s, step))) <==> Guard(s, step)
  {
    var s' := s.(frames := StackLeft(s, step));
    forall i | 0 <= i < |s.saved| && i != s.running
      ensures Fit(s', i) <==> (s.saved[i].eip == InFork ==> FrameOf(s'.frames, s.saved[i].ebp).parent != i + 1)
    {
      assert Fit(s, i);
    }
  }

  /** The task that a switch resumes returns from Switch, or 0 from Fork. */
  predicate LandsWell(s: System, step: Step)
    requires Formed(s)
  {
    step.Switch? ==>
      var landing := Landing(Handed(s.(frames := step.frames)));
      landing == FromSwitch || landing == FromFork(0)
  }

  lemma ForkedFaithful(s: System)
    requires Formed(s) && s.ebp in s.frames && s.frames[s.ebp].parent == s.running + 1
    ensures Faithful(Forked(s)) <==> Faithful(s)
  {
    var s' := Forked(s);
    forall i | 0 <= i < |s.saved| && i != s.running ensures Fit(s', i) <==> Fit(s, i) {
    }
    assert Fit(s', |s.saved|);
  }

  lemma SwitchedFaithful(s: System)
    requires Formed(s) && forall i :: 0 <= i < |s.saved| && i != s.running ==> s.saved[i].eip == InSwitch || s.saved[i].eip == InFork
    ensures Faithful(s) <==>
              Faithful(Landed(Handed(s))) && (Landing(Handed(s)) == FromSwitch || Landing(Handed(s)) == FromFork(0))
  {
    if Faithful(s) {
      HandedFaithful(s);
    } else {
      var i :| 0 <= i < |s.saved| && i != s.running && !Fit(s, i);
      var s' := Handed(s);
      assert s'.saved[i] == s.saved[i];
      if i != s'.running && Landed(s') == s' {
        assert !Fit(s', i);
      }
    }
  }

  /** The tasks that wait stay fit to be resumed, and the one that is resumed comes back as it should,
      exactly when the step is guarded. */
  lemma FaithfulKept(s: System, step: Step)
    requires Formed(s) && Faithful(s)
    ensures Faithful(Next(s, step)) && LandsWell(s, step) <==> Guard(s, step)
  {
    var s' := s.(frames := StackLeft(s, step));
    StackKept(s, step);
    match step {
      case Fork(_) =>
        ForkedFaithful(s');
      case Switch(_) =>
        forall i | 0 <= i < |s.saved| && i != s.running ensures s.saved[i].eip == InSwitch || s.saved[i].eip == InFork {
          assert Fit(s, i);
        }
        SwitchedFaithful(s');
      case Work(_, esp, ebp) =>
        forall i | 0 <= i < |s.saved| && i != s.running ensures Fit(Next(s, step), i) <==> Fit(s', i) {
        }
    }
  }

  /** How often a task gets its turn. */
  function TurnsOf(s: System, steps: seq<Step>, i: nat): nat
    requires Formed(s)
    decreases steps
  {
    if steps == [] then 0
    else (if steps[0].Switch? && Next(s, steps[0]).running == i then 1 else 0) + TurnsOf(Next(s, steps[0]), steps[1..], i)
  }

  /** Whether the i-th task has its turn at one of the steps. */
  predicate TurnAt(s: System, steps: seq<Step>, k: nat, i: nat)
    requires Formed(s) && k < |steps|
  {
    steps[k].Switch? && After(s, steps[..k + 1]).running == i
  }

  lemma TurnLater(s: System, steps: seq<Step>, k: nat, i: nat)
    requires Formed(s) && k + 1 < |steps|
    ensures TurnAt(s, steps, k + 1, i) <==> TurnAt(Next(s, steps[0]), steps[1..], k, i)
  {
    hide Next;
    assert steps[..k + 2][1..] == steps[1..][..k + 1];
  }

  lemma TurnFirst(s: System, steps: seq<Step>, i: nat)
    requires Formed(s) && steps != []
    ensures TurnAt(s, steps, 0, i) <==> steps[0].Switch? && Next(s, steps[0]).running == i
  {
    hide Next;
    assert steps[..1] == [steps[0]];
    AfterOne(s, steps[0]);
  }

  /** The number of turns is none exactly when there is no such step, and one at most when there are no two. */
  lemma {:induction false} TurnsMean(s: System, steps: seq<Step>, i: nat)
    requires Formed(s)
    ensures TurnsOf(s, steps, i) == 0 <==> forall k :: 0 <= k < |steps| ==> !TurnAt(s, steps, k, i)
    ensures TurnsOf(s, steps, i) <= 1 <==> forall k, l :: 0 <= k < l < |steps| ==> !(TurnAt(s, steps, k, i) && TurnAt(s, steps, l, i))
    decreases steps
  {
    if steps != [] {
      var s', rest := Next(s, steps[0]), steps[1..];
      TurnsMean(s', rest, i);
      TurnFirst(s, steps, i);
      forall k {:trigger TurnAt(s', rest, k, i)} | 0 <= k < |rest| ensures TurnAt(s, steps, k + 1, i) <==> TurnAt(s', rest, k, i) {
        TurnLater(s, steps, k, i);
      }
      forall k {:trigger TurnAt(s, steps, k, i)} | 1 <= k < |steps| ensures TurnAt(s, steps, k, i) <==> TurnAt(s', rest, k - 1, i) {
        TurnLater(s, steps, k - 1, i);
      }
      hide TurnAt, Next;
      if n: nat :| n < |rest| && TurnAt(s', rest, n, i) {
        assert TurnAt(s, steps, n + 1, i);
      }
      if TurnsOf(s', rest, i) > 1 {
        var k, l :| 0 <= k < l < |rest| && TurnAt(s', rest, k, i) && TurnAt(s', rest, l, i);
        assert TurnAt(s, steps, k + 1, i) && TurnAt(s, steps, l + 1, i);
      }
    }
  }

  /** What is saved for a task that waits stays until its turn. */
  lemma {:induction false} ContextStays(s: System, steps: seq<Step>, j: nat)
    requires Formed(s) && Faithful(s) && Guarded(s, steps) && j < |s.saved| && j != s.running && TurnsOf(s, steps, j) == 0
    ensures var s' := After(s, steps);
      Faithful(s') && j < |s'.saved| && j != s'.running && s'.saved[j] == s.saved[j]
    decreases steps
  {
    if steps != [] {
      FaithfulKept(s, steps[0]);
      StackKept(s, steps[0]);
      if steps[0].Switch? {
        HandedFaithful(s.(frames := steps[0].frames));
      }
      ContextStays(Next(s, steps[0]), steps[1..], j);
    }
  }

  /** The task whose turn is next comes back with what was saved for it. */
  lemma TurnComes(s: System, step: Step)
    requires Formed(s) && Faithful(s) && step.Switch? && Guard(s, step) && Successor(s) != s.running
    ensures var j, s' := Successor(s), Next(s, step);
      && s'.running == j < |s.saved| && s'.esp == s.saved[j].esp && s'.ebp == s.saved[j].ebp
      && s'.saved == s.saved[s.running := Context(InSwitch, s.esp, s.ebp)]
      && Landing(Handed(s.(frames := step.frames))) == if s.saved[j].eip == InFork then FromFork(0) else FromSwitch
  {
    StackKept(s, step);
    HandedFaithful(s.(frames := step.frames));
    assert Fit(s, Successor(s));
  }

  /** A task that gives way gets its registers back in its next turn, and Switch returns there, whatever
      guarded steps are made meanwhile. */
  lemma SwitchedBack(s: System, leaving: Step, steps: seq<Step>, returning: Step)
    requires Formed(s) && Faithful(s) && leaving.Switch? && Guard(s, leaving) && Successor(s) != s.running
    requires Guarded(Next(s, leaving), steps) && TurnsOf(Next(s, leaving), steps, s.running) == 0
    requires returning.Switch? && Guard(After(Next(s, leaving), steps), returning)
    requires Successor(After(Next(s, leaving), steps)) == s.running
    ensures var s1 := After(Next(s, leaving), steps); var s2 := Next(s1, returning);
      && s2.running == s.running && s2.esp == s.esp && s2.ebp == s.ebp
      && Landing(Handed(s1.(frames := returning.frames))) == FromSwitch
      && s2.saved == s1.saved[s1.running := Context(InSwitch, s1.esp, s1.ebp)] && s2.saved[s.running] == Context(InSwitch, s.esp, s.ebp)
  {
    FaithfulKept(s, leaving);
    TurnComes(s, leaving);
    ContextStays(Next(s, leaving), steps, s.running);
    TurnComes(After(Next(s, leaving), steps), returning);
  }

  /** A task that is alone gives way to itself. */
  lemma SwitchedAlone(s: System, step: Step)
    requires Formed(s) && |s.saved| == 1 && step.Switch?
    ensures LandsWell(s, step) && Next(s, step) == s.(saved := [Context(InSwitch, s.esp, s.ebp)], frames := step.frames)
  {
    assert s.saved[s.running := Context(InSwitch, s.esp, s.ebp)] == [Context(InSwitch, s.esp, s.ebp)];
  }

  /** A new task's first turn is in the Fork that made it, with the registers of that call, and Fork
      returns 0 there, whatever guarded steps are made before. */
  lemma ChildReturnsZero(s: System, forking: Step, steps: seq<Step>, returning: Step)
    requires Formed(s) && Faithful(s) && forking.Fork? && Guard(s, forking) && Guarded(Next(s, forking), steps)
    requires TurnsOf(Next(s, forking), steps, |s.saved|) == 0 && Successor(After(Next(s, forking), steps)) == |s.saved|
    requires returning.Switch? && Guard(After(Next(s, forking), steps), returning)
    ensures var s1 := After(Next(s, forking), steps); var s2 := Next(s1, returning);
      && s2.running == |s.saved| && s2.esp == s.esp && s2.ebp == s.ebp
      && Landing(Handed(s1.(frames := returning.frames))) == FromFork(0)
      && s2.saved == s1.saved[s1.running := Context(InSwitch, s1.esp, s1.ebp)]
  {
    FaithfulKept(s, forking);
    ContextStays(Next(s, forking), steps, |s.saved|);
    TurnComes(After(Next(s, forking), steps), returning);
  }

  /** One task, running. */
  function Alone(esp: nat, ebp: nat): System {
    System([Context(Nowhere, 0, 0)], 0, esp, ebp, map[])
  }

  /** The guard is needed. A parent that uses its stack again after Fork has returned can leave anything
      in the frame of that call, which is the child's as well: with the child's own task in it, Fork
      returns the parent's pid in the child and spoils what is saved for the parent, so that the next
      switch jumps to the dummy. */
  lemma UnguardedWork(esp: nat, ebp: nat)
    ensures var s, left := Next(Alone(esp, ebp), Fork(map[])), map[ebp := Frame(2, 1)];
      && Faithful(s) && !Guard(s, Work(left, esp, ebp))
      && Landing(Handed(Next(s, Work(left, esp, ebp)))) == FromFork(1)
      && Landing(Handed(After(s, [Work(left, esp, ebp), Switch(left)]))) == Fault
  {
    var s, left := Next(Alone(esp, ebp), Fork(map[])), map[ebp := Frame(2, 1)];
    var work := Work(left, esp, ebp);
    assert s.saved[1] == Context(InFork, esp, ebp);
    assert FrameOf(s.frames, ebp) == Frame(1, 2);
    assert FrameOf(left, ebp) == Frame(2, 1);
    AfterTwo(s, work, Switch(left));
  }

  // Whose turn it is, over any interleaving.

  function Switches(steps: seq<Step>): nat {
    if steps == [] then 0 else (if steps[0].Switch? then 1 else 0) + Switches(steps[1..])
  }

  function Forks(steps: seq<Step>): nat {
    if steps == [] then 0 else (if steps[0].Fork? then 1 else 0) + Forks(steps[1..])
  }

  /** Every fork makes a task, and nothing else does. */
  lemma {:induction false} ForksMean(s: System, steps: seq<Step>)
    requires Formed(s)
    ensures |After(s, steps).saved| == |s.saved| + Forks(steps)
    decreases steps
  {
    if steps != [] {
      ForksMean(Next(s, steps[0]), steps[1..]);
    }
  }

  /** A switch more is one more to count, and no other step is. */
  lemma {:induction false} SwitchesMean(steps: seq<Step>, step: Step)
    ensures Switches([]) == 0 && Switches(steps + [step]) == Switches(steps) + if step.Switch? then 1 else 0
    decreases steps
  {
    if steps == [] {
      assert (steps + [step])[1..] == [];
    } else {
      assert (steps + [step])[1..] == steps[1..] + [step];
      SwitchesMean(steps[1..], step);
    }
  }

  /** How many switches from now a task has its turn, if nothing is forked meanwhile. */
  function Distance(s: System, j: nat): (d: int)
    requires Formed(s)
    ensures 1 <= d
  {
    if s.running < j then j - s.running else |s.saved| - s.running + j
  }

  /** A task waits no longer than its distance and the forks made while it waits. */
  lemma {:induction false} WaitIsBounded(s: System, steps: seq<Step>, j: nat)
    requires Formed(s) && j < |s.saved| && TurnsOf(s, steps, j) == 0
    ensures Switches(steps) < Distance(s, j) + Forks(steps)
    decreases steps
  {
    if steps != [] {
      WaitIsBounded(Next(s, steps[0]), steps[1..], j);
    }
  }

  /** Going round from where the turn is now, one task comes before another. */
  predicate ComesBefore(running: nat, j: nat, i: nat) {
    if running < j then i <= running || j < i else i <= running && j < i
  }

  lemma {:induction false} NotYet(s: System, steps: seq<Step>, i: nat, j: nat)
    requires Formed(s) && j < |s.saved| && ComesBefore(s.running, j, i) && TurnsOf(s, steps, j) == 0
    ensures TurnsOf(s, steps, i) == 0
    decreases steps
  {
    if steps != [] {
      NotYet(Next(s, steps[0]), steps[1..], i, j);
    }
  }

  /** While a task waits, every other one, even one forked meanwhile, has at most one turn. */
  lemma {:induction false} OneTurnEach(s: System, steps: seq<Step>, i: nat, j: nat)
    requires Formed(s) && j < |s.saved| && i != j && TurnsOf(s, steps, j) == 0
    ensures TurnsOf(s, steps, i) <= 1
    decreases steps
  {
    if steps != [] {
      var s' := Next(s, steps[0]);
      if steps[0].Switch? && s'.running == i {
        NotYet(s', steps[1..], i, j);
      } else {
        OneTurnEach(s', steps[1..], i, j);
      }
    }
  }

  // The tasks themselves.

  class Task {
    const pid: nat
    const directory: Directory
    const stack: nat
    var eip: Resume
    var esp: nat
    var ebp: nat
    var next: Task?

    constructor (pid: nat, directory: Directory, stack: nat)
      ensures this.pid == pid && this.directory == directory && this.stack == stack
      ensures eip == Nowhere && esp == 0 && ebp == 0 && next == null
    {
      this.pid := pid;
      this.directory := directory;
      this.stack := stack;
      eip, esp, ebp := Nowhere, 0, 0;
      next := null;
    }
  }

  ghost function ContextOf(t: Task): Context
    reads t`eip, t`esp, t`ebp
  {
    Context(t.eip, t.esp, t.ebp)
  }

  ghost function ContextsOf(ts: seq<Task>): (c: seq<Context>)
    reads ts`eip, ts`esp, ts`ebp
    ensures |c| == |ts| && forall i :: 0 <= i < |c| ==> c[i] == ContextOf(ts[i])
  {
    if ts == [] then [] else ContextsOf(ts[..|ts| - 1]) + [ContextOf(ts[|ts| - 1])]
  }

  class Scheduler {
    var current: Task?
    var queue: Task?
    var nextPid: nat
    var currentDirectory: Directory
    var kernelStack: nat
    var esp: nat  // the registers
    var ebp: nat
    var frames: Frames
    ghost var tasks: seq<Task>

    constructor (directory: Directory, esp: nat, ebp: nat)
      ensures Valid() && current == null && tasks == [] && currentDirectory == directory && nextPid == 1
      ensures this.esp == esp && this.ebp == ebp && frames == map[]
    {
      current, queue := null, null;
      nextPid := 1;
      currentDirectory := directory;
      kernelStack := 0;
      this.esp, this.ebp := esp, ebp;
      frames := map[];
      tasks := [];
    }

    ghost predicate Linked()
      reads `queue, `tasks, tasks`next
    {
      && queue == (if tasks == [] then null else tasks[0])
      && (forall i :: 0 <= i < |tasks| ==> tasks[i].pid == i + 1)
      && (forall i {:trigger tasks[i].next} :: 0 <= i < |tasks| ==>
            tasks[i].next == if i + 1 < |tasks| then tasks[i + 1] else null)
    }

    /** Every task has a directory of its own, and that of the running one is in force. */
    ghost predicate Housed()
      reads `current, `currentDirectory, `tasks
    {
      && (forall i, j :: 0 <= i < j < |tasks| ==> tasks[i].directory != tasks[j].directory)
      && (current != null ==> currentDirectory == current.directory)
    }

    ghost predicate Valid()
      reads this, tasks`next
    {
      && Linked() && Housed() && nextPid == |tasks| + 1
      && (current == null <==> tasks == []) && (current != null ==> current in tasks)
    }

    ghost function Saved(): (c: seq<Context>)
      reads `tasks, tasks`eip, tasks`esp, tasks`ebp
      ensures |c| == |tasks|
      ensures forall i :: 0 <= i < |c| ==> c[i] == ContextOf(tasks[i])
    {
      ContextsOf(tasks)
    }

    /** The value that all this is. */
    ghost function Now(): (s: System)
      requires Valid() && current != null
      reads this, tasks
      ensures Formed(s) && |s.saved| == |tasks| && tasks[s.running] == current
    {
      assert exists i :: 0 <= i < |tasks| && tasks[i] == current;
      System(Saved(), current.pid - 1, esp, ebp, frames)
    }

    /** The first task, in the directory that is in force. */
    method Initialize(stack: nat)
      requires Valid() && current == null
      modifies this
      ensures Valid() && current != null && fresh(current) && tasks == [current] && current.pid == old(nextPid)
      ensures currentDirectory == old(currentDirectory)
      ensures Now() == System([Context(Nowhere, 0, 0)], 0, old(esp), old(ebp), old(frames)) && Faithful(Now())
    {
      current := new Task(nextPid, currentDirectory, stack);
      nextPid := nextPid + 1;
      queue := current;
      tasks := [current];
    }

    /** A running task uses the registers and the stack as it likes. */
    method Work(frames: Frames, esp: nat, ebp: nat)
      requires Valid() && current != null
      modifies `frames, `esp, `ebp
      ensures Valid() && Now() == Next(old(Now()), Step.Work(frames, esp, ebp))
    {
      hide ContextsOf, Linked, Housed;
      this.frames, this.esp, this.ebp := frames, esp, ebp;
    }

    /** The end of the queue. */
    method Last() returns (it: Task)
      requires Linked() && queue != null
      ensures tasks != [] && it == tasks[|tasks| - 1]
    {
      it := queue;
      ghost var i := 0;
      while it.next != null
        invariant 0 <= i < |tasks| && it == tasks[i]
        decreases |tasks| - i
      {
        assert tasks[i].next == if i + 1 < |tasks| then tasks[i + 1] else null;
        it := it.next;
        i := i + 1;
      }
      assert tasks[i].next == null;
    }

    /** A new task at the end of the queue. */
    method Append(task: Task)
      requires Linked() && tasks != [] && task !in tasks && task.pid == |tasks| + 1 && task.next == null
      modifies `tasks, tasks`next
      ensures Linked() && tasks == old(tasks) + [task]
    {
      var it := Last();
      ghost var n := |tasks|;
      assert forall i, j :: 0 <= i < j < n ==> tasks[i].pid != tasks[j].pid;
      it.next := task;
      tasks := tasks + [task];
    }

    /** What a pointer in a frame points to, if that is a task. */
    method Find(pid: nat) returns (it: Task?)
      requires Linked()
      ensures it == if 1 <= pid <= |tasks| then tasks[pid - 1] else null
    {
      it := queue;
      ghost var i := 0;
      while it != null && it.pid != pid
        invariant 0 <= i <= |tasks| && it == if i < |tasks| then tasks[i] else null
        invariant 1 <= pid <= |tasks| ==> i < pid
        decreases |tasks| - i
      {
        assert tasks[i].next == if i + 1 < |tasks| then tasks[i + 1] else null;
        it := it.next;
        i := i + 1;
      }
    }

    /** A task made and queued, though nothing is saved for it yet. */
    method NewTask(copy: Directory, stack: nat) returns (task: Task)
      requires Valid() && current != null && forall t :: t in tasks ==> t.directory != copy
      modifies `tasks, `nextPid, tasks`next
      ensures Valid() && task != current && tasks == old(tasks) + [task] && nextPid == old(nextPid) + 1
      ensures currentDirectory == old(currentDirectory) && kernelStack == old(kernelStack)
      ensures fresh(task) && task.pid == old(nextPid) == |tasks| && task.directory == copy && task.stack == stack
      ensures Now() == old(Now()).(saved := old(Now()).saved + [Context(Nowhere, 0, 0)])
    {
      hide Linked, ContextsOf;
      ghost var s := Now();
      task := new Task(nextPid, copy, stack);
      nextPid := nextPid + 1;
      Append(task);
      assert Saved() == s.saved + [Context(Nowhere, 0, 0)];
    }

    /** What calls leave in the stack. */
    method Leave(left: Frames)
      requires Valid() && current != null
      modifies `frames
      ensures Valid() && Now() == old(Now()).(frames := left)
    {
      hide ContextsOf;
      frames := left;
    }

    /** Forking: `copy` is the cloned directory, and `left` what the calls that Fork makes leave in the
        stack, apart from its own frame. The parent goes on with the new task's pid. */
    method Fork(copy: Directory, stack: nat, left: Frames) returns (pid: nat)
      requires Valid() && current != null && forall t :: t in tasks ==> t.directory != copy
      modifies this, tasks
      ensures Valid() && current != null && Now() == Next(old(Now()), Step.Fork(left))
      ensures pid == old(nextPid) == |tasks| && pid != 0
      ensures tasks == old(tasks) + [tasks[pid - 1]] && fresh(tasks[pid - 1])
      ensures tasks[pid - 1].directory == copy && tasks[pid - 1].stack == stack
      ensures current == old(current) && currentDirectory == old(currentDirectory) && kernelStack == old(kernelStack)
    {
      hide Valid, ContextsOf, Saved, FrameOf;
      ghost var s := Now();
      var task := NewTask(copy, stack);
      Leave(left[ebp := Frame(current.pid, task.pid)]);
      ForkIs(s, left);
      hide Next;
      var r := BackInFork(InFork);
      pid := task.pid;
    }

    /** What a Fork does to the value: a task, the stack, and what is saved for the task. */
    lemma ForkIs(s: System, left: Frames)
      requires Formed(s)
      ensures var frames, last := left[s.ebp := Frame(s.running + 1, |s.saved| + 1)], s.saved + [Context(Nowhere, 0, 0)];
        && FrameOf(frames, s.ebp) == Frame(s.running + 1, |s.saved| + 1)
        && Next(s, Step.Fork(left)) == s.(frames := frames, saved := last[|s.saved| := Context(InFork, s.esp, s.ebp)])
    {
      var last := s.saved + [Context(Nowhere, 0, 0)];
      assert last[|s.saved| := Context(InFork, s.esp, s.ebp)] == s.saved + [Context(InFork, s.esp, s.ebp)];
    }

    /** The context of one task. */
    method Save(task: Task, eip: Resume, esp: nat, ebp: nat)
      requires Valid() && current != null && 1 <= task.pid <= |tasks| && task == tasks[task.pid - 1]
      modifies task`eip, task`esp, task`ebp
      ensures Valid() && Now() == old(Now()).(saved := old(Now()).saved[task.pid - 1 := Context(eip, esp, ebp)])
    {
      hide Housed, ContextsOf;
      ghost var s := Now();
      task.esp := esp;
      task.ebp := ebp;
      task.eip := eip;
      SavedOne(s.saved, task.pid - 1, Context(eip, esp, ebp));
    }

    /** The rest of Fork, from where read_eip returns. */
    method BackInFork(eip: Resume) returns (r: Outcome)
      requires Valid() && current != null && |tasks| > 0
      modifies tasks`eip, tasks`esp, tasks`ebp
      ensures Valid() && current != null && currentDirectory == old(currentDirectory) && kernelStack == old(kernelStack)
      ensures var f, s := FrameOf(frames, ebp), old(Now());
        if f.parent != s.running + 1 then r == FromFork(0) && Now() == s
        else if 1 <= f.child <= |tasks|
        then r == FromFork(f.child) && Now() == s.(saved := s.saved[f.child - 1 := Context(eip, esp, ebp)])
        else r == Stray && Now() == s
    {
      hide Housed, ContextsOf, Saved;
      var frame := FrameOf(frames, ebp);
      if current.pid == frame.parent {
        var task := Find(frame.child);
        if task == null {
          return Stray;
        }
        Save(task, eip, esp, ebp);
        return FromFork(task.pid);
      }
      r := FromFork(0);
    }

    /** What is saved, after it has been for one task. */
    lemma SavedOne(saved: seq<Context>, i: nat, c: Context)
      requires i < |tasks| == |saved| && ContextOf(tasks[i]) == c
      requires forall j :: 0 <= j < |tasks| && j != i ==> ContextOf(tasks[j]) == saved[j]
      ensures Saved() == saved[i := c]
    {
    }

    /** The running task gives way to the next, and the calls on the way leave `left` in the stack. What
        returns, and where, is the outcome in that one. */
    method Switch(left: Frames) returns (r: Outcome)
      requires Valid()
      modifies this, tasks`eip, tasks`esp, tasks`ebp
      ensures Valid() && tasks == old(tasks) && nextPid == old(nextPid) && queue == old(queue)
      ensures old(current) == null ==> r == Early && current == null && currentDirectory == old(currentDirectory)
                                       && esp == old(esp) && ebp == old(ebp) && frames == old(frames)
                                       && kernelStack == old(kernelStack)
      ensures old(current) != null ==>
                && current != null && Now() == Next(old(Now()), Step.Switch(left))
                && r == Landing(Handed(old(Now()).(frames := left)))
                && currentDirectory == current.directory && kernelStack == current.stack + 2048
    {
      if current == null {
        return Early;
      }
      Leave(left);
      r := BackInSwitch(InSwitch, esp, ebp);
    }

    /** The rest of Switch, from where read_eip returns. A switched task seems to come back with the dummy. */
    method BackInSwitch(eip: Resume, esp: nat, ebp: nat) returns (r: Outcome)
      requires Valid() && current != null && (eip == InSwitch || eip == Dummy)
      modifies this, tasks`eip, tasks`esp, tasks`ebp
      ensures Valid() && current != null && tasks == old(tasks) && nextPid == old(nextPid) && queue == old(queue)
      ensures eip == Dummy ==>
                && r == FromSwitch && Now() == old(Now())
                && current == old(current) && currentDirectory == old(currentDirectory) && kernelStack == old(kernelStack)
      ensures eip != Dummy ==>
                var s := old(Now()).(esp := esp, ebp := ebp);
                && Now() == Landed(Handed(s)) && r == Landing(Handed(s)) && kernelStack == current.stack + KERNEL_STACK_SIZE
      decreases if eip == Dummy then 0 else 2
    {
      if eip == Dummy {
        return FromSwitch;
      }
      hide Valid, Now, Landed, Landing, Handed;
      HandOver(eip, esp, ebp);
      r := Jump(current.eip);
    }

    /** The running task is saved, and the next one takes its place. */
    method HandOver(eip: Resume, esp: nat, ebp: nat)
      requires Valid() && current != null && eip == InSwitch
      modifies this, tasks`eip, tasks`esp, tasks`ebp
      ensures Valid() && current != null && tasks == old(tasks) && nextPid == old(nextPid) && queue == old(queue)
      ensures Now() == Handed(old(Now()).(esp := esp, ebp := ebp)) && kernelStack == current.stack + KERNEL_STACK_SIZE
    {
      hide Linked, ContextsOf;
      ghost var s0 := Now();
      Save(current, eip, esp, ebp);
      ghost var s := Now();
      Advance();
      Load(s, Successor(s));
    }

    /** The next task, or the first. */
    method Advance()
      requires Valid() && current != null
      modifies `current
      ensures current != null && current in tasks && Linked() && current == tasks[Successor(old(Now()))]
    {
      ghost var i := current.pid - 1;
      assert tasks[i].next == if i + 1 < |tasks| then tasks[i + 1] else null;
      current := current.next;
      if current == null {
        current := queue;
      }
    }

    /** Its registers, its directory and its kernel stack. */
    method Load(ghost s: System, ghost next: nat)
      requires Linked() && nextPid == |tasks| + 1 && current != null && current in tasks
      requires forall i, j :: 0 <= i < j < |tasks| ==> tasks[i].directory != tasks[j].directory
      requires next < |tasks| && current == tasks[next] && s.saved == Saved() && s.frames == frames
      modifies `esp, `ebp, `currentDirectory, `kernelStack
      ensures Valid() && kernelStack == current.stack + KERNEL_STACK_SIZE
      ensures Now() == System(s.saved, next, s.saved[next].esp, s.saved[next].ebp, s.frames)
    {
      hide ContextsOf, Linked;
      esp, ebp := current.esp, current.ebp;
      currentDirectory := current.directory;
      kernelStack := current.stack + KERNEL_STACK_SIZE;
    }

    /** The running task comes back from read_eip, with the dummy in eax, if it was saved there. */
    method Jump(eip: Resume) returns (r: Outcome)
      requires Valid() && current != null && eip == current.eip
      modifies this, tasks`eip, tasks`esp, tasks`ebp
      ensures Valid() && current != null && tasks == old(tasks) && nextPid == old(nextPid) && queue == old(queue)
      ensures current == old(current) && currentDirectory == old(currentDirectory) && kernelStack == old(kernelStack)
      ensures Now() == Landed(old(Now())) && r == Landing(old(Now()))
      decreases 1
    {
      hide Linked, Housed, Saved, ContextsOf;
      match eip {
        case InSwitch =>
          r := BackInSwitch(Dummy, esp, ebp);
        case InFork =>
          r := BackInFork(Dummy);
        case _ =>
          r := Fault;
      }
    }

    /** Any interleaving of forks, switches and other work of the running one. */
    method Run(steps: seq<Step>, stack: nat)
      requires Valid() && current != null
      modifies this, tasks
      ensures Valid() && current != null && Now() == After(old(Now()), steps)
      ensures |old(tasks)| <= |tasks| && tasks[..|old(tasks)|] == old(tasks)
    {
      hide Linked, Housed, Saved, ContextsOf;
      for i := 0 to |steps|
        invariant Valid() && current != null && Now() == After(old(Now()), steps[..i])
        invariant |old(tasks)| <= |tasks|
        invariant forall j :: 0 <= j < |old(tasks)| ==> tasks[j] == old(tasks)[j]
        invariant forall j :: |old(tasks)| <= j < |tasks| ==> fresh(tasks[j])
      {
        ghost var was := tasks;
        Perform(steps[i], stack);
        AfterOneMore(old(Now()), steps, i);
        assert forall j :: 0 <= j < |was| ==> tasks[j] == was[j];
      }
      assert steps[..|steps|] == steps;
    }

    /** One step. */
    method Perform(step: Step, stack: nat)
      requires Valid() && current != null
      modifies this, tasks
      ensures Valid() && current != null && Now() == Next(old(Now()), step)
      ensures |old(tasks)| <= |tasks| && tasks[..|old(tasks)|] == old(tasks)
      ensures forall j :: |old(tasks)| <= j < |tasks| ==> fresh(tasks[j])
    {
      hide Linked, Housed, Saved, ContextsOf, Next;
      match step {
        case Fork(left) =>
          var copy := new Directory(0);
          var pid := this.Fork(copy, stack, left);
        case Switch(left) =>
          var r := this.Switch(left);
        case Work(frames, esp, ebp) =>
          Work(frames, esp, ebp);
      }
    }
  }
}
