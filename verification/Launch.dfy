/**
 Starting a game: the Api accepts one request at a time, the launcher asks the frontend to go
 away, runs the game's command, and brings everything back when the game ends.
 */
module Launch {
  import opened CommandLine
  import opened Wrappers

  type File = nat

  /** What happened, in order. */
  datatype Event =
    | Accepted(file: File, launch: CommandLine.Launch)
    | Failed(file: File)                            // processLaunchError reached the Api
    | BeforeRun
    | LaunchOk(file: File)                          // providers told that the game starts
    | Ran(line: string, withFrontend: bool)         // the shell was given the command
    | AfterRun
    | Finished(file: File)                          // providers told that the game ended

  datatype State = State(
    launchFile: Option<File>,       // ApiObject::m_launch_game_file
    command: string,                // ProcessLauncher::globalCommand and globalArgs
    args: seq<string>,
    pid: string,
    ticking: bool,                  // the timer that polls the pid
    engine: bool,                   // FrontendLayer::m_engine is set
    dying: nat,                     // engines given to deleteLater and not destroyed yet
    log: seq<Event>
  )

  /** What the slots read from outside: the settings, which may differ at every reading, and the
      output of the process list. */
  datatype World = World(multiAtTeardown: bool, keepLoaded: bool, multi: bool, processes: string)

  /** Backend::start has built the frontend. */
  function Initial(): State {
    State(None, "", [], "", false, true, 0, [])
  }

  predicate OccursAt(text: string, part: string, i: nat) {
    i + |part| <= |text| && text[i..i + |part|] == part
  }

  predicate Contains(text: string, part: string) {
    exists i: nat :: i <= |text| && OccursAt(text, part, i)
  }

  predicate IsPython(command: string) {
    command != "" && Contains(command, "python")
  }

  /** Contained means: something, possibly nothing, in front and behind. */
  lemma ContainsExactly(text: string, part: string)
    ensures Contains(text, part) <==> exists before, after :: text == before + part + after
  {
    if Contains(text, part) {
      var i: nat :| i <= |text| && OccursAt(text, part, i);
      assert text == text[..i] + part + text[i + |part|..];
    }
    if before, after :| text == before + part + after {
      assert text[|before|..|before| + |part|] == part;
      assert OccursAt(text, part, |before|);
    }
  }

  /** The command runs Python if the word is somewhere in it. */
  lemma PythonExactly(command: string)
    ensures IsPython(command) <==> exists before, after :: command == before + "python" + after
  {
    ContainsExactly(command, "python");
  }

  /** The pid counts as listed when its digits are anywhere in the output. */
  lemma PolledExactly(s: State, w: World)
    requires Settled(s) && s.ticking
    ensures Step(s, Tick, w).launchFile.Some? <==> exists before, after :: w.processes == before + s.pid + after
    ensures Step(s, Tick, w).launchFile.Some? ==> Step(s, Tick, w) == s
  {
    ContainsExactly(w.processes, s.pid);
  }

  // ---- the slots, each with what it calls ----------------------------------------------------------

  function Log(s: State, e: Event): State {
    s.(log := s.log + [e])
  }

  /** processFinished: first the Api, then the frontend. */
  function ProcessFinished(s: State): State
    requires s.launchFile.Some?
  {
    Log(s, Finished(s.launchFile.value)).(launchFile := None, engine := true)
  }

  function AfterTeardown(s: State, w: World): State
    requires s.launchFile.Some?
  {
    var t := Log(s, Ran(Serialized(s.command, s.args), s.engine));
    if w.multi then
      var u := t.(pid := w.processes);
      if w.processes == "" then ProcessFinished(Log(u, AfterRun)) else u.(ticking := true)
    else ProcessFinished(Log(t, AfterRun))
  }

  function Teardown(s: State, w: World): State
    requires s.launchFile.Some?
  {
    if !w.multiAtTeardown && !w.keepLoaded then s.(engine := false, dying := s.dying + 1)
    else AfterTeardown(s, w)
  }

  function Requested(s: State, file: File, launch: CommandLine.Launch, w: World): State {
    if s.launchFile.Some? then s
    else
      var t := Log(s.(launchFile := Some(file)), Accepted(file, launch));
      if launch.NoCommand? then Log(t.(launchFile := None), Failed(file))
      else Teardown(Log(Log(t, BeforeRun), LaunchOk(file)).(command := launch.command, args := launch.args), w)
  }

  datatype Op =
    | Request(file: File, launch: CommandLine.Launch)
    | EngineDestroyed
    | Tick

  /** Requests come at any time, for commands that run Python; the other two only when an engine
      waits to be destroyed, and when the timer runs. */
  predicate Enabled(s: State, op: Op) {
    match op
    case Request(_, launch) => launch.Run? ==> IsPython(launch.command)
    case EngineDestroyed => s.dying > 0
    case Tick => s.ticking
  }

  function Step(s: State, op: Op, w: World): State
    requires Enabled(s, op) && (op.Request? || s.launchFile.Some?)
  {
    match op
    case Request(file, launch) => Requested(s, file, launch, w)
    case EngineDestroyed => AfterTeardown(s.(dying := s.dying - 1), w)
    case Tick =>
      if Contains(w.processes, s.pid) then s
      else ProcessFinished(Log(s, AfterRun).(ticking := false))
  }

  // ---- the order of events -------------------------------------------------------------------------

  datatype Phase =
    | Idle
    | Asked(file: File, launch: CommandLine.Launch)
    | Begun(file: File, launch: CommandLine.Launch)
    | Clearing(file: File, launch: CommandLine.Launch)     // the frontend is going away
    | Playing(file: File)
    | Over(file: File)

  /** The one order in which events may follow each other. */
  function Next(p: Phase, e: Event): Option<Phase> {
    match (p, e)
    case (Idle, Accepted(f, l)) => Some(Asked(f, l))
    case (Asked(f, l), Failed(g)) => if f == g && l.NoCommand? then Some(Idle) else None
    case (Asked(f, l), BeforeRun) => if l.Run? then Some(Begun(f, l)) else None
    case (Begun(f, l), LaunchOk(g)) => if f == g then Some(Clearing(f, l)) else None
    case (Clearing(f, l), Ran(line, _)) =>
      if l.Run? && line == Serialized(l.command, l.args) then Some(Playing(f)) else None
    case (Playing(f), AfterRun) => Some(Over(f))
    case (Over(f), Finished(g)) => if f == g then Some(Idle) else None
    case _ => None
  }

  function Parse(log: seq<Event>): Option<Phase> {
    if log == [] then Some(Idle)
    else
      var p := Parse(log[..|log| - 1]);
      if p.None? then None else Next(p.value, log[|log| - 1])
  }

  lemma ParseOne(log: seq<Event>, e: Event)
    ensures Parse(log + [e]) == if Parse(log).None? then None else Next(Parse(log).value, e)
  {
    assert (log + [e])[..|log|] == log;
  }

  // ---- the invariant -------------------------------------------------------------------------------

  /** Idle with the frontend up; or one game in flight, and then exactly one thing to wait for:
      the old engine's end, or the timer. */
  predicate Settled(s: State) {
    if s.launchFile.None? then
      s.engine && s.dying == 0 && !s.ticking && Parse(s.log) == Some(Idle)
    else if s.dying > 0 then
      && s.dying == 1 && !s.engine && !s.ticking && IsPython(s.command)
      && Parse(s.log) == Some(Clearing(s.launchFile.value, Run(s.command, s.args)))
    else
      && s.ticking && s.pid != "" && IsPython(s.command)
      && Parse(s.log) == Some(Playing(s.launchFile.value))
  }

  lemma FinishedSettles(s: State)
    requires s.launchFile.Some? && s.dying == 0 && !s.ticking
    requires Parse(s.log) == Some(Playing(s.launchFile.value))
    ensures Settled(ProcessFinished(Log(s, AfterRun)))
  {
    ParseOne(s.log, AfterRun);
    ParseOne(s.log + [AfterRun], Finished(s.launchFile.value));
  }

  lemma AfterTeardownSettles(s: State, w: World)
    requires s.launchFile.Some? && s.dying == 0 && !s.ticking && IsPython(s.command)
    requires Parse(s.log) == Some(Clearing(s.launchFile.value, Run(s.command, s.args)))
    ensures Settled(AfterTeardown(s, w))
  {
    var e := Ran(Serialized(s.command, s.args), s.engine);
    ParseOne(s.log, e);
    FinishedSettles(Log(s, e));
    FinishedSettles(Log(s, e).(pid := w.processes));
  }

  lemma RequestSettles(s: State, file: File, launch: CommandLine.Launch, w: World)
    requires Settled(s) && s.launchFile.None? && (launch.Run? ==> IsPython(launch.command))
    ensures Settled(Requested(s, file, launch, w))
  {
    var a := Accepted(file, launch);
    ParseOne(s.log, a);
    if launch.NoCommand? {
      ParseOne(s.log + [a], Failed(file));
    } else {
      ParseOne(s.log + [a], BeforeRun);
      ParseOne(s.log + [a] + [BeforeRun], LaunchOk(file));
      var t := s.(launchFile := Some(file), command := launch.command, args := launch.args,
                  log := s.log + [a] + [BeforeRun] + [LaunchOk(file)]);
      if w.multiAtTeardown || w.keepLoaded {
        AfterTeardownSettles(t, w);
      }
    }
  }

  /** Every step keeps this, whatever the settings and the process list say. */
  lemma StepSettles(s: State, op: Op, w: World)
    requires Settled(s) && Enabled(s, op)
    ensures op.Request? || s.launchFile.Some?
    ensures Settled(Step(s, op, w))
  {
    match op
    case Request(file, launch) =>
      if s.launchFile.None? {
        RequestSettles(s, file, launch, w);
      }
    case EngineDestroyed =>
      AfterTeardownSettles(s.(dying := s.dying - 1), w);
    case Tick =>
      FinishedSettles(s.(ticking := false));
  }

  /** The log only grows; a request in flight leaves everything as it is, and an idle one is the
      next event; the pid is what the process list said when polling began, and never empty. */
  lemma StepExtends(s: State, op: Op, w: World)
    requires Settled(s) && Enabled(s, op)
    ensures op.Request? || s.launchFile.Some?
    ensures s.log <= Step(s, op, w).log
    ensures op.Request? && s.launchFile.Some? ==> Step(s, op, w) == s
    ensures op.Request? && s.launchFile.None? ==>
      |Step(s, op, w).log| > |s.log| && Step(s, op, w).log[|s.log|] == Accepted(op.file, op.launch)
    ensures Step(s, op, w).ticking ==>
      Step(s, op, w).pid == if s.ticking then s.pid else w.processes
    ensures Step(s, op, w).ticking ==> Step(s, op, w).pid != "" && (s.ticking || w.multi)
  {
    StepSettles(s, op, w);
  }

  // ---- whole runs ------------------------------------------------------------------------------------

  datatype Move = Move(op: Op, world: World)

  /** Some run of enabled steps leads from s to t. */
  ghost predicate Reaches(s: State, moves: seq<Move>, t: State)
    decreases |moves|
  {
    if moves == [] then s == t
    else
      var m := moves[0];
      && Enabled(s, m.op) && (m.op.Request? || s.launchFile.Some?)
      && Reaches(Step(s, m.op, m.world), moves[1..], t)
  }

  lemma {:induction false} RunsStaySettled(s: State, moves: seq<Move>, t: State)
    requires Settled(s) && Reaches(s, moves, t)
    ensures Settled(t)
    decreases |moves|
  {
    if moves != [] {
      StepSettles(s, moves[0].op, moves[0].world);
      RunsStaySettled(Step(s, moves[0].op, moves[0].world), moves[1..], t);
    }
  }

  /** The files whose requests were accepted, and those answered, in order. */
  function Requests(log: seq<Event>): seq<File> {
    if log == [] then []
    else
      var e := log[|log| - 1];
      Requests(log[..|log| - 1]) + if e.Accepted? then [e.file] else []
  }

  function Answers(log: seq<Event>): seq<File> {
    if log == [] then []
    else
      var e := log[|log| - 1];
      Answers(log[..|log| - 1]) + if e.Finished? || e.Failed? then [e.file] else []
  }

  function Count(log: seq<Event>, e: Event): nat {
    if log == [] then 0 else Count(log[..|log| - 1], e) + if log[|log| - 1] == e then 1 else 0
  }

  function InFlight(p: Phase): seq<File> {
    if p.Idle? then [] else [p.file]
  }

  /** In an orderly log every accepted request is answered exactly once, in the order of the
      requests, except the one in flight; and runs end as often as they begin. */
  lemma {:induction false} OrderlyAnswers(log: seq<Event>)
    requires Parse(log).Some?
    ensures Requests(log) == Answers(log) + InFlight(Parse(log).value)
    ensures
      var p := Parse(log).value;
      Count(log, BeforeRun) == Count(log, AfterRun) + if p.Idle? || p.Asked? || p.Over? then 0 else 1
  {
    if log != [] {
      OrderlyAnswers(log[..|log| - 1]);
    }
  }

  /** The command lines the accepted requests ask for, and those given to the shell. */
  function Wanted(log: seq<Event>): seq<string> {
    if log == [] then []
    else
      var e := log[|log| - 1];
      Wanted(log[..|log| - 1]) +
      if e.Accepted? && e.launch.Run? then [Serialized(e.launch.command, e.launch.args)] else []
  }

  function Lines(log: seq<Event>): seq<string> {
    if log == [] then []
    else
      var e := log[|log| - 1];
      Lines(log[..|log| - 1]) + if e.Ran? then [e.line] else []
  }

  function NotYetRun(p: Phase): seq<string> {
    if (p.Asked? || p.Begun? || p.Clearing?) && p.launch.Run? then [Serialized(p.launch.command, p.launch.args)] else []
  }

  lemma RunStep(p: Phase, e: Event)
    requires Next(p, e).Some?
    ensures NotYetRun(p) + (if e.Accepted? && e.launch.Run? then [Serialized(e.launch.command, e.launch.args)] else [])
      == (if e.Ran? then [e.line] else []) + NotYetRun(Next(p, e).value)
  {
  }

  /** In an orderly log each accepted command is run once, as it was asked for and in order,
      except the one still waiting for the frontend to go away. */
  lemma {:induction false} OrderlyRuns(log: seq<Event>)
    requires Parse(log).Some?
    ensures Wanted(log) == Lines(log) + NotYetRun(Parse(log).value)
  {
    if log != [] {
      OrderlyRuns(log[..|log| - 1]);
      RunStep(Parse(log[..|log| - 1]).value, log[|log| - 1]);
    }
  }

  /** After any run: at most one game in flight; all requests but that one answered, once each
      and in order; their commands run once each and in order; scripts before and after a game
      balanced; the engine back whenever idle. */
  lemma AnyRun(moves: seq<Move>, t: State)
    requires Reaches(Initial(), moves, t)
    ensures Requests(t.log) == Answers(t.log) + (if t.launchFile.Some? then [t.launchFile.value] else [])
    ensures Count(t.log, BeforeRun) == Count(t.log, AfterRun) + (if t.launchFile.Some? then 1 else 0)
    ensures Wanted(t.log) == Lines(t.log) + (if t.dying > 0 then [Serialized(t.command, t.args)] else [])
    ensures t.launchFile.None? ==> t.engine && t.dying == 0 && !t.ticking
    ensures t.launchFile.Some? ==> (t.dying == 1) != t.ticking
    ensures Parse(t.log).Some?
  {
    RunsStaySettled(Initial(), moves, t);
    OrderlyAnswers(t.log);
    OrderlyRuns(t.log);
  }

  /** Directly in front of place n: the request, the script, and the report to the providers. */
  predicate Began(log: seq<Event>, n: nat, file: File, launch: CommandLine.Launch) {
    && 3 <= n <= |log|
    && log[n - 3] == Accepted(file, launch) && log[n - 2] == BeforeRun && log[n - 1] == LaunchOk(file)
  }

  /** Directly in front of place n: all that, and the run of the command asked for. */
  predicate Played(log: seq<Event>, n: nat, file: File) {
    && 4 <= n <= |log| && log[n - 4].Accepted? && log[n - 4].launch.Run?
    && Began(log, n - 1, file, log[n - 4].launch)
    && log[n - 1].Ran? && log[n - 1].line == Serialized(log[n - 4].launch.command, log[n - 4].launch.args)
  }

  lemma BeganInLonger(log: seq<Event>, more: seq<Event>, n: nat, file: File, launch: CommandLine.Launch)
    requires n <= |log|
    ensures Began(log + more, n, file, launch) <==> Began(log, n, file, launch)
    ensures Played(log + more, n, file) <==> Played(log, n, file)
  {
  }

  /** What stands in front of the end of an orderly log. */
  lemma {:induction false} LastSteps(log: seq<Event>)
    requires Parse(log).Some?
    ensures var p, n := Parse(log).value, |log|;
      && (p.Asked? ==> n >= 1 && log[n - 1] == Accepted(p.file, p.launch))
      && (p.Begun? ==> n >= 2 && log[n - 2] == Accepted(p.file, p.launch) && log[n - 1] == BeforeRun)
      && (p.Clearing? ==> Began(log, n, p.file, p.launch))
      && (p.Playing? ==> Played(log, n, p.file))
      && (p.Over? ==> n >= 5 && log[n - 1] == AfterRun && Played(log, n - 1, p.file))
  {
    if log != [] {
      var n := |log| - 1;
      var init := log[..n];
      LastSteps(init);
      assert log == init + [log[n]];
      var before := Parse(init).value;
      if before.Clearing? {
        BeganInLonger(init, [log[n]], n, before.file, before.launch);
      } else if before.Playing? {
        BeganInLonger(init, [log[n]], n, before.file, CommandLine.NoCommand);
      }
    }
  }

  /** In an orderly log a game is run directly behind its request, the script before it and the
      report to the providers; it is finished directly behind its run and the script after; and a
      request fails directly and only if it has no command. */
  lemma GamesInOrder(log: seq<Event>, i: nat)
    requires Parse(log).Some? && i < |log|
    ensures log[i].Ran? ==> i >= 3 && log[i - 3].Accepted? && Played(log, i + 1, log[i - 3].file)
    ensures log[i].Finished? ==> i >= 5 && log[i - 1] == AfterRun && Played(log, i - 1, log[i].file)
    ensures log[i].Failed? ==> i >= 1 && log[i - 1] == Accepted(log[i].file, CommandLine.NoCommand)
  {
    match log[i]
    case Ran(line, front) => RanInOrder(log, i, line, front);
    case Finished(file) => FinishedInOrder(log, i, file);
    case Failed(file) => FailedInOrder(log, i, file);
    case _ =>
  }

  lemma RanClearing(init: seq<Event>, line: string, front: bool)
    requires Parse(init + [Ran(line, front)]).Some?
    ensures Parse(init).Some? && Parse(init).value.Clearing?
    ensures var p := Parse(init).value; p.launch.Run? && line == Serialized(p.launch.command, p.launch.args)
  {
    ParseOne(init, Ran(line, front));
  }

  lemma StepsToClearing(log: seq<Event>)
    requires Parse(log).Some? && Parse(log).value.Clearing?
    ensures Began(log, |log|, Parse(log).value.file, Parse(log).value.launch)
  {
    LastSteps(log);
  }

  lemma RanInOrder(log: seq<Event>, i: nat, line: string, front: bool)
    requires Parse(log).Some? && i < |log| && log[i] == Ran(line, front)
    ensures i >= 3 && log[i - 3].Accepted? && Played(log, i + 1, log[i - 3].file)
  {
    PrefixParses(log, i);
    RanAfter(log[..i], log[i], log[i + 1..]);
    Cut(log, i);
  }

  lemma RanAfter(init: seq<Event>, e: Event, rest: seq<Event>)
    requires e.Ran? && Parse(init + [e]).Some?
    ensures var log := init + [e] + rest;
      |init| >= 3 && log[|init| - 3].Accepted? && Played(log, |init| + 1, log[|init| - 3].file)
  {
    RanClearing(init, e.line, e.withFrontend);
    ClearingInLonger(init, e, rest);
  }

  lemma FailedInOrder(log: seq<Event>, i: nat, file: File)
    requires Parse(log).Some? && i < |log| && log[i] == Failed(file)
    ensures i >= 1 && log[i - 1] == Accepted(file, CommandLine.NoCommand)
  {
    PrefixParses(log, i);
    ParseOne(log[..i], Failed(file));
    LastSteps(log[..i]);
  }

  lemma BeforeFinished(p: Phase, file: File)
    requires Next(p, Finished(file)).Some?
    ensures p == Over(file)
  {
  }

  lemma StepsToOver(log: seq<Event>, file: File)
    requires Parse(log) == Some(Over(file))
    ensures |log| >= 5 && log[|log| - 1] == AfterRun && Played(log, |log| - 1, file)
  {
    LastSteps(log);
  }

  lemma FinishedOver(init: seq<Event>, file: File)
    requires Parse(init + [Finished(file)]).Some?
    ensures Parse(init) == Some(Over(file))
  {
    ParseOne(init, Finished(file));
    BeforeFinished(Parse(init).value, file);
  }

  lemma FinishedInOrder(log: seq<Event>, i: nat, file: File)
    requires Parse(log).Some? && i < |log| && log[i] == Finished(file)
    ensures i >= 5 && log[i - 1] == AfterRun && Played(log, i - 1, file)
  {
    PrefixParses(log, i);
    FinishedOver(log[..i], file);
    OverInLonger(log[..i], log[i..], file);
    Cut(log, i);
  }

  lemma OverInLonger(init: seq<Event>, rest: seq<Event>, file: File)
    requires Parse(init) == Some(Over(file))
    ensures |init| >= 5 && (init + rest)[|init| - 1] == AfterRun && Played(init + rest, |init| - 1, file)
  {
    StepsToOver(init, file);
    PlayedInLonger(init, rest, |init| - 1, file);
  }

  lemma ClearingInLonger(init: seq<Event>, e: Event, rest: seq<Event>)
    requires Parse(init).Some? && Parse(init).value.Clearing? && e.Ran? && Parse(init).value.launch.Run?
    requires e.line == Serialized(Parse(init).value.launch.command, Parse(init).value.launch.args)
    ensures |init| >= 3 && Played(init + [e] + rest, |init| + 1, Parse(init).value.file)
    ensures (init + [e] + rest)[|init| - 3] == Accepted(Parse(init).value.file, Parse(init).value.launch)
  {
    StepsToClearing(init);
    BeganInLonger(init, [e] + rest, |init|, Parse(init).value.file, Parse(init).value.launch);
    assert init + [e] + rest == init + ([e] + rest);
  }

  lemma Cut(log: seq<Event>, i: nat)
    requires i < |log|
    ensures log[..i] + log[i..] == log && log[..i] + [log[i]] + log[i + 1..] == log
  {
  }

  lemma PrefixParses(log: seq<Event>, i: nat)
    requires Parse(log).Some? && i < |log|
    ensures Parse(log[..i] + [log[i]]).Some?
  {
    ParsePrefix(log, i + 1);
    assert log[..i + 1] == log[..i] + [log[i]];
  }

  lemma PlayedInLonger(log: seq<Event>, more: seq<Event>, n: nat, file: File)
    requires n <= |log| && Played(log, n, file)
    ensures Played(log + more, n, file)
  {
  }

  lemma {:induction false} ParsePrefix(log: seq<Event>, n: nat)
    requires Parse(log).Some? && n <= |log|
    ensures Parse(log[..n]).Some?
  {
    if n == |log| {
      assert log[..n] == log;
    } else {
      assert log[..|log| - 1][..n] == log[..n];
      ParsePrefix(log[..|log| - 1], n);
    }
  }

  /** The event a game in flight waits for. */
  function Awaited(s: State): Op {
    if s.dying > 0 then EngineDestroyed else Tick
  }

  /** The awaited event ends the game if the command is waited for, or its process is not found. */
  predicate Ends(s: State, w: World) {
    if s.dying > 0 then !w.multi || w.processes == "" else !Contains(w.processes, s.pid)
  }

  /** The awaited event can happen, and it ends the game in flight, with its file as the last
      answer, exactly when the world says so; else the launcher goes on, or starts, polling. */
  lemma CanFinish(s: State, w: World)
    requires Settled(s) && s.launchFile.Some?
    ensures Enabled(s, Awaited(s))
    ensures Step(s, Awaited(s), w).launchFile.None? <==> Ends(s, w)
    ensures Ends(s, w) ==>
      var log := Step(s, Awaited(s), w).log; log[|log| - 1] == Finished(s.launchFile.value)
    ensures !Ends(s, w) ==> Step(s, Awaited(s), w).ticking
  {
  }

  lemma NothingToContain(part: string)
    requires part != ""
    ensures !Contains("", part)
  {
  }

  /** Whatever was played before, a game in flight is over once no process is listed any more. */
  lemma AnyRunCanFinish(moves: seq<Move>, t: State, w: World)
    requires Reaches(Initial(), moves, t) && t.launchFile.Some? && w.processes == ""
    ensures Settled(t) && Enabled(t, Awaited(t)) && Step(t, Awaited(t), w).launchFile.None?
    ensures Reaches(Initial(), moves + [Move(Awaited(t), w)], Step(t, Awaited(t), w))
  {
    RunsStaySettled(Initial(), moves, t);
    if t.dying == 0 {
      NothingToContain(t.pid);
    }
    CanFinish(t, w);
    ReachesMore(Initial(), moves, t, Move(Awaited(t), w));
  }

  lemma {:induction false} ReachesMore(s: State, moves: seq<Move>, t: State, m: Move)
    requires Reaches(s, moves, t) && Enabled(t, m.op) && (m.op.Request? || t.launchFile.Some?)
    ensures Reaches(s, moves + [m], Step(t, m.op, m.world))
    decreases |moves|
  {
    if moves == [] {
      assert [m][1..] == [];
      assert moves + [m] == [m];
    } else {
      assert (moves + [m])[1..] == moves[1..] + [m];
      ReachesMore(Step(s, moves[0].op, moves[0].world), moves[1..], t, m);
    }
  }

  /** With settings that do not change, every game is run with the frontend loaded, or every one
      without it: loaded if either setting asks for it. */
  lemma {:induction false} FrontendWhileRunning(s: State, moves: seq<Move>, t: State, multi: bool, keep: bool)
    requires Settled(s) && Reaches(s, moves, t)
    requires forall m :: m in moves ==>
      m.world.multi == multi && m.world.multiAtTeardown == multi && m.world.keepLoaded == keep
    requires s.dying > 0 ==> !multi && !keep
    requires forall e :: e in s.log && e.Ran? ==> e.withFrontend == (multi || keep)
    ensures forall e :: e in t.log && e.Ran? ==> e.withFrontend == (multi || keep)
    decreases |moves|
  {
    if moves != [] {
      var m := moves[0];
      assert m in moves;
      StepSettles(s, m.op, m.world);
      FrontendStep(s, m.op, m.world);
      FrontendWhileRunning(Step(s, m.op, m.world), moves[1..], t, multi, keep);
    }
  }

  lemma FrontendStep(s: State, op: Op, w: World)
    requires Settled(s) && Enabled(s, op) && (op.Request? || s.launchFile.Some?)
    requires w.multi == w.multiAtTeardown
    requires s.dying > 0 ==> !w.multi && !w.keepLoaded
    ensures forall e :: e in Step(s, op, w).log && e.Ran? ==> e in s.log || e.withFrontend == (w.multi || w.keepLoaded)
    ensures Step(s, op, w).dying > 0 ==> !w.multi && !w.keepLoaded
  {
  }

  // ---- the objects -----------------------------------------------------------------------------------

  /** The Api, the launcher and the frontend layer with their signals connected as Backend does. */
  class Session {
    var launchFile: Option<File>
    var command: string
    var args: seq<string>
    var pid: string
    var ticking: bool
    var engine: bool
    var dying: nat
    ghost var log: seq<Event>

    constructor ()
      ensures Abs() == Initial()
    {
      launchFile, command, args, pid := None, "", [], "";
      ticking, engine, dying, log := false, true, 0, [];
    }

    ghost function Abs(): State
      reads this
    {
      State(launchFile, command, args, pid, ticking, engine, dying, log)
    }

    /** ApiObject::onGameFileLaunchRequested. */
    method OnGameFileLaunchRequested(file: File, launch: CommandLine.Launch, w: World)
      requires Settled(Abs()) && Enabled(Abs(), Request(file, launch))
      modifies this
      ensures Abs() == Step(old(Abs()), Request(file, launch), w) && Settled(Abs())
    {
      StepSettles(Abs(), Request(file, launch), w);
      if launchFile.Some? {
        return;
      }
      launchFile := Some(file);
      log := log + [Accepted(file, launch)];
      OnLaunchRequested(file, launch, w);
    }

    /** ProcessLauncher::onLaunchRequested and runProcess. */
    method OnLaunchRequested(file: File, launch: CommandLine.Launch, w: World)
      requires launchFile == Some(file) && engine && (launch.Run? ==> IsPython(launch.command))
      modifies this
      ensures Abs() ==
        var t := old(Abs());
        if launch.NoCommand? then Log(t.(launchFile := None), Failed(file))
        else Teardown(Log(Log(t, BeforeRun), LaunchOk(file)).(command := launch.command, args := launch.args), w)
    {
      if launch.NoCommand? {
        OnGameLaunchError();
        return;
      }
      log := log + [BeforeRun];
      command, args := launch.command, launch.args;
      OnGameLaunchOk();
      TeardownFrontend(w);
    }

    /** ApiObject::onGameLaunchError. */
    method OnGameLaunchError()
      requires launchFile.Some?
      modifies this`launchFile, this`log
      ensures launchFile.None? && log == old(log) + [Failed(old(launchFile).value)]
    {
      log := log + [Failed(launchFile.value)];
      launchFile := None;
    }

    /** ApiObject::onGameLaunchOk, whose assertion needs the file. */
    method OnGameLaunchOk()
      requires launchFile.Some?
      modifies this`log
      ensures log == old(log) + [LaunchOk(launchFile.value)]
    {
      log := log + [LaunchOk(launchFile.value)];
    }

    /** FrontendLayer::teardown, whose assertion needs the engine. */
    method TeardownFrontend(w: World)
      requires engine && launchFile.Some? && command != ""
      modifies this
      ensures Abs() == Teardown(old(Abs()), w)
    {
      assert engine;
      if !w.multiAtTeardown && !w.keepLoaded {
        dying := dying + 1;
        engine := false;
      } else {
        OnTeardownComplete(w);
      }
    }

    /** The engine's `destroyed` signal is forwarded as teardownComplete. */
    method OnEngineDestroyed(w: World)
      requires Settled(Abs()) && Enabled(Abs(), EngineDestroyed)
      modifies this
      ensures launchFile.None? || launchFile == old(launchFile)
      ensures old(launchFile).Some? && Abs() == Step(old(Abs()), EngineDestroyed, w) && Settled(Abs())
    {
      StepSettles(Abs(), EngineDestroyed, w);
      dying := dying - 1;
      OnTeardownComplete(w);
    }

    /** ProcessLauncher::onTeardownComplete. The command is never empty here, so the branch that
        asserts a QProcess object is not taken. */
    method OnTeardownComplete(w: World)
      requires launchFile.Some? && command != ""
      modifies this
      ensures Abs() == AfterTeardown(old(Abs()), w)
    {
      if command != "" {
        log := log + [Ran(Serialized(command, args), engine)];
        if w.multi {
          pid := w.processes;
          if pid == "" {
            OnProcessFinished();
            EmitProcessFinished();
          } else {
            ticking := true;
          }
        } else {
          OnProcessFinished();
          EmitProcessFinished();
        }
      } else {
        assert false;
      }
    }

    /** ProcessLauncher::onProcessFinished and afterRun. */
    method OnProcessFinished()
      modifies this`log
      ensures log == old(log) + [AfterRun]
    {
      log := log + [AfterRun];
    }

    /** ApiObject::onGameFinished, then FrontendLayer::rebuild. */
    method EmitProcessFinished()
      requires launchFile.Some?
      modifies this`log, this`launchFile, this`engine
      ensures Abs() == ProcessFinished(old(Abs()))
    {
      assert launchFile.Some?;
      log := log + [Finished(launchFile.value)];
      launchFile := None;
      if !engine {
        engine := true;
      }
    }

    /** ProcessLauncher::checkPidStatus. */
    method CheckPidStatus(w: World)
      requires Settled(Abs()) && Enabled(Abs(), Tick)
      modifies this
      ensures old(launchFile).Some? && Abs() == Step(old(Abs()), Tick, w) && Settled(Abs())
    {
      StepSettles(Abs(), Tick, w);
      if !Contains(w.processes, pid) {
        OnProcessFinished();
        ticking := false;
        EmitProcessFinished();
      }
    }
  }
}
