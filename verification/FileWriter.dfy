/**
 A thread that writes to a file what other threads hand over. Every step below is atomic: a
 critical section under the mutex, the unprotected test of the running flag, or a write.
 */
module FileWriter {

  type Data = seq<int>

  /** Where the writer's thread is. */
  datatype Place =
    | Opening        // run() has not opened the file yet
    | Testing        // about to test m_running, outside the mutex
    | Locking        // about to take the mutex in the loop
    | Waiting        // inside m_condition.wait
    | Writing        // has taken the buffer, is about to write it
    | Copying        // has left the loop
    | WritingRest    // has copied the rest of the buffer
    | Done           // closed the file and emitted finished()
    | Failed         // could not open the file, emitted finished()

  datatype State = State(
    place: Place,
    file: Data,
    block: Data,          // dataToWrite, and later remainingData
    buffer: Data,         // m_buffer
    running: bool,        // m_running
    signalled: bool,      // wakeAll was called since the wait began
    handed: Data,         // all data passed to writeData so far
    late: Data,           // the part of it that came after the rest was copied
    afterStop: Data       // the part of it that came after stop()
  )

  function Initial(file: Data): State {
    State(Opening, file, [], [], true, false, [], [], [])
  }

  datatype Step =
    | WriteData(data: Data) | Stop                                     // any other thread
    | Open(ok: bool) | Test | Lock | Wake | Write | Copy | WriteRest   // the writer's thread

  predicate Enabled(s: State, step: Step) {
    match step
    case WriteData(_) => true
    case Stop => true
    case Open(_) => s.place.Opening?
    case Test => s.place.Testing?
    case Lock => s.place.Locking?
    case Wake => s.place.Waiting?          // also without a signal
    case Write => s.place.Writing?
    case Copy => s.place.Copying?
    case WriteRest => s.place.WritingRest?
  }

  predicate Copied(s: State) {
    s.place.WritingRest? || s.place.Done?
  }

  /** The end of the critical section in the loop. */
  function TakeOrLeave(s: State): State {
    if !s.running && s.buffer == [] then s.(place := Copying)
    else s.(place := Writing, block := s.buffer, buffer := [])
  }

  function Next(s: State, step: Step): State
    requires Enabled(s, step)
  {
    match step
    case WriteData(data) =>
      s.(buffer := s.buffer + data, signalled := true, handed := s.handed + data,
         late := if Copied(s) then s.late + data else s.late,
         afterStop := if s.running then s.afterStop else s.afterStop + data)
    case Stop => s.(running := false, signalled := true)
    case Open(ok) => s.(place := if ok then Testing else Failed)
    case Test => s.(place := if s.running then Locking else Copying)
    case Lock => if s.buffer == [] then s.(place := Waiting, signalled := false) else TakeOrLeave(s)
    case Wake => TakeOrLeave(s)
    case Write => s.(place := Testing, file := s.file + s.block, block := [])
    case Copy => s.(place := WritingRest, block := s.buffer)
    case WriteRest => s.(place := Done, file := s.file + s.block)
  }

  // ---- no byte is lost, doubled or moved -------------------------------------------------------------

  /** Until the rest is copied: file, block in flight and buffer together are the initial file and
      everything handed over. From then on: file and block, or the file alone, are the initial
      file and everything but what came later. */
  ghost predicate Kept(s: State, initial: Data) {
    && (if s.place.WritingRest? then
          s.file + s.block + s.late == initial + s.handed
        else if s.place.Done? then
          s.file + s.late == initial + s.handed
        else
          s.file + s.block + s.buffer == initial + s.handed && s.late == [])
    && (!s.place.Writing? && !Copied(s) ==> s.block == [])
    && (s.place.Failed? || s.place.Opening? ==> s.file == initial)
    && (s.place.Copying? || Copied(s) ==> !s.running)
    && (s.running ==> s.afterStop == [])
    && |s.late| <= |s.afterStop| <= |s.handed|
    && (s.place.Waiting? && !s.signalled ==> s.buffer == [])
  }

  lemma WriteDataKeeps(s: State, data: Data, initial: Data)
    requires Kept(s, initial)
    ensures Kept(Next(s, WriteData(data)), initial)
  {
    assert initial + (s.handed + data) == (initial + s.handed) + data;
    assert s.file + s.block + (s.buffer + data) == (s.file + s.block + s.buffer) + data;
    assert s.file + s.block + (s.late + data) == (s.file + s.block + s.late) + data;
    assert s.file + (s.late + data) == (s.file + s.late) + data;
  }

  lemma TakeKeeps(s: State, initial: Data)
    requires Kept(s, initial) && (s.place.Locking? || s.place.Waiting?)
    ensures Kept(TakeOrLeave(s), initial)
  {
    assert s.file + s.block == s.file;
    assert s.file + s.buffer + [] == s.file + s.buffer;
  }

  lemma StepKeeps(s: State, step: Step, initial: Data)
    requires Kept(s, initial) && Enabled(s, step)
    ensures Kept(Next(s, step), initial)
  {
    match step
    case WriteData(data) => WriteDataKeeps(s, data, initial);
    case Lock => if s.buffer != [] { TakeKeeps(s, initial); }
    case Wake => TakeKeeps(s, initial);
    case Write => assert (s.file + s.block) + [] + s.buffer == s.file + s.block + s.buffer;
    case Copy => assert s.file + s.buffer + [] == s.file + [] + s.buffer;
    case _ =>
  }

  /** A run: any interleaving of the writer's steps and the other threads'. */
  ghost predicate Reaches(s: State, steps: seq<Step>, t: State)
    decreases |steps|
  {
    if steps == [] then s == t
    else Enabled(s, steps[0]) && Reaches(Next(s, steps[0]), steps[1..], t)
  }

  lemma {:induction false} RunKeeps(s: State, steps: seq<Step>, t: State, initial: Data)
    requires Kept(s, initial) && Reaches(s, steps, t)
    ensures Kept(t, initial)
    decreases |steps|
  {
    if steps != [] {
      StepKeeps(s, steps[0], initial);
      RunKeeps(Next(s, steps[0]), steps[1..], t, initial);
    }
  }

  /** All data handed over in these steps. */
  function Handed(steps: seq<Step>): Data {
    if steps == [] then []
    else (if steps[0].WriteData? then steps[0].data else []) + Handed(steps[1..])
  }

  /** The steps after the first one like this. */
  function After(steps: seq<Step>, mark: Step): seq<Step> {
    if steps == [] then [] else if steps[0] == mark then steps[1..] else After(steps[1..], mark)
  }

  /** The bookkeeping of the state, read off the steps. */
  lemma {:induction false} BooksAreKept(s: State, steps: seq<Step>, t: State)
    requires Reaches(s, steps, t)
    ensures t.handed == s.handed + Handed(steps)
    ensures t.late == s.late + Handed(if Copied(s) then steps else After(steps, Copy))
    ensures t.afterStop == s.afterStop + Handed(if !s.running then steps else After(steps, Stop))
    decreases |steps|
  {
    if steps != [] {
      var u := Next(s, steps[0]);
      BooksAreKept(u, steps[1..], t);
      BooksStep(s, steps[0], Handed(steps[1..]));
      if steps[0].WriteData? {
        var d := steps[0].data;
        Regroup(s.handed, d, Handed(steps[1..]));
        Regroup(s.late, d, Handed(steps[1..]));
        Regroup(s.afterStop, d, Handed(steps[1..]));
      }
    } else {
      assert s.handed + [] == s.handed && s.late + [] == s.late && s.afterStop + [] == s.afterStop;
    }
  }

  lemma Regroup(a: Data, b: Data, c: Data)
    ensures (a + b) + c == a + (b + c)
  {
  }

  lemma BooksStep(s: State, step: Step, rest: Data)
    requires Enabled(s, step)
    ensures var u := Next(s, step);
      && (step.WriteData? ==> u.handed == s.handed + step.data && Copied(u) == Copied(s) && u.running == s.running)
      && (step.WriteData? ==> u.late == if Copied(s) then s.late + step.data else s.late)
      && (step.WriteData? ==> u.afterStop == if s.running then s.afterStop else s.afterStop + step.data)
      && (!step.WriteData? ==> u.handed == s.handed && u.late == s.late && u.afterStop == s.afterStop)
      && (!step.WriteData? ==> [] + rest == rest)
      && (Copied(u) <==> Copied(s) || step.Copy?)
      && (u.running <==> s.running && !step.Stop?)
  {
  }

  lemma BooksFromStart(initial: Data, steps: seq<Step>, t: State)
    requires Reaches(Initial(initial), steps, t)
    ensures t.handed == Handed(steps)
    ensures t.late == Handed(After(steps, Copy))
    ensures t.afterStop == Handed(After(steps, Stop))
  {
    BooksAreKept(Initial(initial), steps, t);
  }

  lemma FileAtEnd(t: State, initial: Data)
    requires Kept(t, initial)
    ensures t.place.Done? ==> (t.file == initial + t.handed <==> t.late == [])
    ensures t.place.Failed? ==> (t.file == initial + t.handed <==> t.handed == [])
  {
    if t.place.Done? {
      assert |t.file + t.late| == |initial + t.handed|;
      assert t.late == [] ==> t.file + t.late == t.file;
    } else if t.place.Failed? {
      assert |initial + t.handed| == |initial| + |t.handed|;
      assert t.handed == [] ==> initial + t.handed == initial;
    }
  }

  /** When finished() was emitted, the file holds the initial contents and everything handed over
      exactly when it was opened and nothing was handed over after the last copy, or there was
      nothing. */
  lemma FinishedExactly(initial: Data, steps: seq<Step>, t: State)
    requires Reaches(Initial(initial), steps, t) && (t.place.Done? || t.place.Failed?)
    ensures t.file == initial + Handed(steps) <==>
      if t.place.Done? then Handed(After(steps, Copy)) == [] else Handed(steps) == []
  {
    RunKeeps(Initial(initial), steps, t, initial);
    BooksFromStart(initial, steps, t);
    FileAtEnd(t, initial);
  }

  /** Data handed over before stop() is never late: if none follows it and the file opens, the
      file is complete when finished() is emitted. */
  lemma CompleteWhenStoppedLast(initial: Data, steps: seq<Step>, t: State)
    requires Reaches(Initial(initial), steps, t) && t.place.Done? && Handed(After(steps, Stop)) == []
    ensures t.file == initial + Handed(steps)
  {
    RunKeeps(Initial(initial), steps, t, initial);
    BooksFromStart(initial, steps, t);
    assert |t.late| <= |t.afterStop| == 0;
    FileAtEnd(t, initial);
  }

  /** The writer leaves its loop only after stop(). */
  lemma LeavesOnlyWhenStopped(initial: Data, steps: seq<Step>, t: State)
    requires Reaches(Initial(initial), steps, t) && t.running
    ensures !t.place.Copying? && !t.place.WritingRest? && !t.place.Done?
  {
    RunKeeps(Initial(initial), steps, t, initial);
  }

  /** The test outside the mutex lets a stop() slip in before the wait: the writer then waits
      without a signal to come. It holds nothing back in that state. */
  lemma LostWakeUp(initial: Data, data: Data)
    ensures exists steps, t ::
      && Reaches(Initial(initial), steps, t)
      && t.place.Waiting? && !t.signalled && !t.running && t.handed == data
  {
    var s1 := Next(Initial(initial), Open(true));
    var s2 := Next(s1, WriteData(data));
    var t := WrittenThenStopped(s2);
    var rest := if data == [] then [] else [Test, Lock, Write];
    ReachStep(s1, WriteData(data), rest + [Test, Stop, Lock], t);
    ReachStep(Initial(initial), Open(true), [WriteData(data)] + (rest + [Test, Stop, Lock]), t);
  }

  /** The writer writes what is there, if anything. */
  lemma WrittenThenStopped(s: State) returns (t: State)
    requires s.place.Testing? && s.running
    ensures Reaches(s, (if s.buffer == [] then [] else [Test, Lock, Write]) + [Test, Stop, Lock], t)
    ensures t.place.Waiting? && !t.signalled && !t.running && t.handed == s.handed
  {
    if s.buffer == [] {
      t := TestedThenStopped(s);
      assert [] + [Test, Stop, Lock] == [Test, Stop, Lock];
    } else {
      var s1 := Next(s, Test);
      var s2 := Next(s1, Lock);
      t := TestedThenStopped(Next(s2, Write));
      ReachStep(s2, Write, [Test, Stop, Lock], t);
      ReachStep(s1, Lock, [Write, Test, Stop, Lock], t);
      ReachStep(s, Test, [Lock, Write, Test, Stop, Lock], t);
      assert [Test, Lock, Write] + [Test, Stop, Lock] == [Test, Lock, Write, Test, Stop, Lock];
    }
  }

  /** It has found m_running set when stop() comes, and then takes the mutex. */
  lemma TestedThenStopped(s: State) returns (t: State)
    requires s.place.Testing? && s.running && s.buffer == []
    ensures Reaches(s, [Test, Stop, Lock], t)
    ensures t.place.Waiting? && !t.signalled && !t.running && t.handed == s.handed
  {
    var s1 := Next(s, Test);
    var s2 := Next(s1, Stop);
    t := Next(s2, Lock);
    assert Reaches(t, [], t);
    ReachStep(s2, Lock, [], t);
    ReachStep(s1, Stop, [Lock], t);
    ReachStep(s, Test, [Stop, Lock], t);
  }

  lemma ReachStep(s: State, step: Step, steps: seq<Step>, t: State)
    requires Enabled(s, step) && Reaches(Next(s, step), steps, t)
    ensures Reaches(s, [step] + steps, t)
  {
    assert ([step] + steps)[1..] == steps;
  }

  /** A call to writeData or stop wakes the writer. If it waits without a signal, the very last
      thing that happened is that it began to wait. */
  lemma {:induction false} WaitsSinceLast(s: State, steps: seq<Step>, t: State)
    requires Reaches(s, steps, t) && t.place.Waiting? && !t.signalled && steps != []
    ensures steps[|steps| - 1] == Lock
    decreases |steps|
  {
    if |steps| > 1 {
      assert steps[1..][|steps| - 2] == steps[|steps| - 1];
      WaitsSinceLast(Next(s, steps[0]), steps[1..], t);
    }
  }

  lemma CallsWake(s: State, data: Data)
    ensures Next(s, WriteData(data)).signalled && Next(s, Stop).signalled
    ensures Next(s, WriteData(data)).place == s.place && Next(s, Stop).place == s.place
  {
  }

  /** In the loop the writer takes whatever is in the buffer, and leaves only with nothing there;
      the rest it copies after the loop stays in the buffer. */
  lemma LoopTakesAll(s: State)
    ensures s.place.Locking? && s.buffer != [] ==>
      var t := Next(s, Lock); t.place.Writing? && t.block == s.buffer && t.buffer == []
    ensures s.place.Waiting? && (s.buffer != [] || s.running) ==>
      var t := Next(s, Wake); t.place.Writing? && t.block == s.buffer && t.buffer == []
    ensures s.place.Waiting? && s.buffer == [] && !s.running ==> Next(s, Wake).place.Copying?
    ensures s.place.Copying? ==> var t := Next(s, Copy); t.block == s.buffer && t.buffer == s.buffer
  {
  }

  /** The steps of the writer's thread. */
  predicate ByWriter(steps: seq<Step>) {
    forall step :: step in steps ==> !step.WriteData? && !step.Stop?
  }

  /** After stop() a writer that is not about to wait, and does not wait without a signal, can run
      to its end, whatever is still in the buffer, without waiting again. */
  lemma StoppedCanFinish(s: State) returns (steps: seq<Step>, t: State)
    requires !s.running && (s.place.Locking? ==> s.buffer != [])
    requires s.place.Waiting? ==> s.signalled
    ensures Reaches(s, steps, t) && ByWriter(steps) && (t.place.Done? || t.place.Failed?)
    decreases match s.place
      case Opening => 7 case Locking => 6 case Waiting => 6 case Writing => 5 case Testing => 4
      case Copying => 3 case WritingRest => 2 case Done => 1 case Failed => 1
  {
    if s.place.Done? || s.place.Failed? {
      return [], s;
    }
    var step :=
      match s.place
      case Opening => Open(true)
      case Testing => Test
      case Locking => Lock
      case Waiting => Wake
      case Writing => Write
      case Copying => Copy
      case _ => WriteRest;
    var rest;
    rest, t := StoppedCanFinish(Next(s, step));
    ReachStep(s, step, rest, t);
    steps := [step] + rest;
  }

  lemma StuckHoldsNothing(initial: Data, steps: seq<Step>, t: State)
    requires Reaches(Initial(initial), steps, t) && t.place.Waiting? && !t.signalled
    ensures t.file == initial + t.handed
  {
    RunKeeps(Initial(initial), steps, t, initial);
    assert t.file + [] + [] == t.file;
  }

  // ---- the object ------------------------------------------------------------------------------------

  class FileIOWriter {
    var place: Place
    var file: Data
    var block: Data
    var buffer: Data
    var running: bool
    ghost var signalled: bool
    ghost var handed: Data
    ghost var late: Data
    ghost var afterStop: Data
    ghost const initial: Data

    constructor (contents: Data)
      ensures Valid() && initial == contents && Abs() == Initial(contents)
    {
      place, file, block, buffer, running := Opening, contents, [], [], true;
      signalled, handed, late, afterStop := false, [], [], [];
      initial := contents;
    }

    ghost function Abs(): State
      reads this
    {
      State(place, file, block, buffer, running, signalled, handed, late, afterStop)
    }

    ghost predicate Valid()
      reads this
    {
      Kept(Abs(), initial)
    }

    method WriteData(data: Data)
      requires Valid()
      modifies this
      ensures Valid() && Abs() == Next(old(Abs()), Step.WriteData(data))
    {
      StepKeeps(Abs(), Step.WriteData(data), initial);
      handed := handed + data;
      late := if Copied(Abs()) then late + data else late;
      afterStop := if running then afterStop else afterStop + data;
      buffer := buffer + data;
      signalled := true;
    }

    method Stop()
      requires Valid()
      modifies this
      ensures Valid() && Abs() == Next(old(Abs()), Step.Stop)
    {
      StepKeeps(Abs(), Step.Stop, initial);
      running := false;
      signalled := true;
    }

    method OpenFile(ok: bool)
      requires Valid() && place.Opening?
      modifies this
      ensures Valid() && Abs() == Next(old(Abs()), Open(ok))
    {
      StepKeeps(Abs(), Open(ok), initial);
      place := if ok then Testing else Failed;
    }

    method TestRunning()
      requires Valid() && place.Testing?
      modifies this
      ensures Valid() && Abs() == Next(old(Abs()), Test)
    {
      StepKeeps(Abs(), Test, initial);
      if running {
        place := Locking;
      } else {
        place := Copying;
      }
    }

    /** From taking the mutex to releasing it, by waiting or at the end of the block. */
    method LockBuffer()
      requires Valid() && place.Locking?
      modifies this
      ensures Valid() && Abs() == Next(old(Abs()), Lock)
    {
      StepKeeps(Abs(), Lock, initial);
      if buffer == [] {
        place, signalled := Waiting, false;
      } else {
        TakeBuffer();
      }
    }

    /** The wait returns with the mutex taken. */
    method WakeUp()
      requires Valid() && place.Waiting?
      modifies this
      ensures Valid() && Abs() == Next(old(Abs()), Wake)
    {
      StepKeeps(Abs(), Wake, initial);
      TakeBuffer();
    }

    method TakeBuffer()
      modifies this`place, this`block, this`buffer
      ensures Abs() == TakeOrLeave(old(Abs()))
    {
      if !running && buffer == [] {
        place := Copying;
        return;
      }
      block := buffer;
      buffer := [];
      place := Writing;
    }

    method WriteBlock()
      requires Valid() && place.Writing?
      modifies this
      ensures Valid() && Abs() == Next(old(Abs()), Write)
    {
      StepKeeps(Abs(), Write, initial);
      file := file + block;
      block := [];
      place := Testing;
    }

    /** The rest is copied but stays in the buffer. */
    method CopyRest()
      requires Valid() && place.Copying?
      modifies this
      ensures Valid() && Abs() == Next(old(Abs()), Copy)
    {
      StepKeeps(Abs(), Copy, initial);
      block := buffer;
      place := WritingRest;
    }

    method WriteAndFinish()
      requires Valid() && place.WritingRest?
      modifies this
      ensures Valid() && Abs() == Next(old(Abs()), WriteRest)
    {
      StepKeeps(Abs(), WriteRest, initial);
      file := file + block;
      place := Done;
    }
  }
}
