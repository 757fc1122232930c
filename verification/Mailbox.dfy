/**
 * The command mailbox: one request cell, one response cell and a pending flag, shared
 * by the IPC thread that talks to the client and the main thread that executes. Every
 * critical section is one atomic step; what happens between them interleaves freely.
 */
module Mailbox {
  import opened Bytes
  import opened Hub
  import opened FaceDatabase

  const SUCCESS := 0
  const ERROR_GENERIC := -1
  const PENDING_CODE := 0xFFFFF

  datatype Command =
    | NoCommand | StartPipeline | StartFaceIdentification | GenerateFaceId | UpdateFaceProfile | ListFaceProfiles
    | StartQrMonitor | Unhandled(code: uint32)

  datatype Request = Request(cmd: Command, faceId: uint32, name: seq<byte>)

  datatype Response = Response(cmd: Command, retCode: int, profiles: Table)

  // ---- The shared memory and its critical sections ----

  datatype Shared = Shared(request: Request, response: Response, pending: bool) {
    function AfterSend(r: Request): Shared {
      this.(request := r, pending := true)
    }

    function AfterFill(t: Table): Shared {
      this.(response := response.(profiles := t))
    }

    /** The generation callback reports through the same response; its payload overlays the profiles. */
    function AfterGenerated(): Shared {
      this.(response := Response(GenerateFaceId, SUCCESS, []))
    }

    function AfterFinish(cmd: Command, retCode: int): Shared {
      this.(response := response.(cmd := cmd, retCode := retCode), pending := false)
    }
  }

  const START := Shared(Request(NoCommand, 0, []), Response(NoCommand, PENDING_CODE, []), false)

  class SharedMemory {
    var request: Request
    var response: Response
    var pending: bool

    constructor ()
      ensures State() == START
    {
      request, response, pending := START.request, START.response, false;
    }

    ghost function State(): Shared
      reads this
    {
      Shared(request, response, pending)
    }

    method SendRequest(r: Request)
      modifies this
      ensures State() == old(State()).AfterSend(r)
    {
      request := r;
      pending := true;
    }

    method GetResponse() returns (r: Response)
      ensures r == State().response
    {
      r := response;
    }

    /** The two threads' look at the flag; the main thread takes the command along. */
    method PendingCommand() returns (isPending: bool, cmd: Command)
      ensures isPending == State().pending && cmd == State().request.cmd
    {
      isPending, cmd := pending, request.cmd;
    }

    method FillProfiles(t: Table)
      modifies this
      ensures State() == old(State()).AfterFill(t)
    {
      response := response.(profiles := t);
    }

    method ReportGenerated()
      modifies this
      ensures State() == old(State()).AfterGenerated()
    {
      response := Response(GenerateFaceId, SUCCESS, []);
    }

    method Finish(cmd: Command, retCode: int)
      modifies this
      ensures State() == old(State()).AfterFinish(cmd, retCode)
    {
      response := response.(cmd := cmd, retCode := retCode);
      pending := false;
    }
  }

  // ---- The two threads ----

  datatype IpcState = Ready | Waiting(request: Request) | Released(request: Request)

  datatype MainState = Idle | Took(cmd: Command) | Done(cmd: Command, retCode: int)

  /** What was executed, on what table and with what verdict; for a generation also what its callback is told. */
  datatype Execution = Execution(request: Request, seen: Table, retCode: int, newId: uint32, opStatus: int)

  datatype Answer = Answer(request: Request, response: Response)

  datatype System = System(shared: Shared, ipc: IpcState, main: MainState, table: Table,
                           sent: seq<Request>, executed: seq<Execution>, answered: seq<Answer>)

  function Start(initial: Table): System
  {
    System(START, Ready, Idle, initial, [], [], [])
  }

  /** The steps. The verdict of the hardware, the id it assigns and its status come from outside. */
  datatype Step = Send(request: Request) | Poll | Fetch | Take | Execute(verdict: int, newId: uint32, opStatus: int) | Finish

  const DEFAULT_NAME: seq<byte> := [68, 101, 102, 97, 117, 108, 116]

  function Verdict(s: System, cmd: Command, verdict: int): int
  {
    match cmd
    case UpdateFaceProfile => if Has(s.table, s.shared.request.faceId) then SUCCESS else ERROR_GENERIC
    case ListFaceProfiles => SUCCESS
    case _ => verdict
  }

  /** The table after an execution: an update renames, a generation that succeeded adds. */
  function Effect(t: Table, e: Execution): Table
  {
    match e.request.cmd
    case UpdateFaceProfile => Renamed(t, e.request.faceId, e.request.name)
    case GenerateFaceId => if e.opStatus == SUCCESS then Added(t, e.newId, DEFAULT_NAME) else t
    case _ => t
  }

  function SharedAfter(s: System, cmd: Command): Shared
  {
    match cmd
    case ListFaceProfiles => s.shared.AfterFill(s.table)
    case GenerateFaceId => s.shared.AfterGenerated()
    case _ => s.shared
  }

  /** One step; a step that the threads cannot take changes nothing. The parameters of the command taken are
      read from the shared memory while it is executed, outside the lock. */
  function Next(s: System, step: Step): System
  {
    match step
    case Send(r) =>
      if !s.ipc.Ready? then s
      else s.(shared := s.shared.AfterSend(r), sent := s.sent + [r], ipc := if r.cmd.GenerateFaceId? then Ready else Waiting(r))
    case Poll =>
      if s.ipc.Waiting? && !s.shared.pending then s.(ipc := Released(s.ipc.request)) else s
    case Fetch =>
      if s.ipc.Released? then s.(ipc := Ready, answered := s.answered + [Answer(s.ipc.request, s.shared.response)]) else s
    case Take =>
      if s.main.Idle? && s.shared.pending then s.(main := Took(s.shared.request.cmd)) else s
    case Execute(verdict, newId, opStatus) =>
      if !s.main.Took? then s else
      var cmd := s.main.cmd;
      var e := Execution(s.shared.request.(cmd := cmd), s.table, Verdict(s, cmd, verdict), newId, opStatus);
      s.(main := Done(cmd, e.retCode), table := Effect(s.table, e), shared := SharedAfter(s, cmd), executed := s.executed + [e])
    case Finish =>
      if s.main.Done? then s.(main := Idle, shared := s.shared.AfterFinish(s.main.cmd, s.main.retCode)) else s
  }

  function Run(s: System, steps: seq<Step>): System
    decreases |steps|
  {
    if steps == [] then s else Run(Next(s, steps[0]), steps[1..])
  }

  // ---- Late requests ----

  /** The main thread works only while the flag is raised. */
  predicate Coherent(s: System)
  {
    !s.main.Idle? ==> s.shared.pending
  }

  /** The number of requests in the mailbox that are still to be executed: one or none. */
  function UnderWay(s: System): nat
  {
    if s.shared.pending && !s.main.Done? then 1 else 0
  }

  /** A request is late if it finds the flag raised. */
  predicate IsLate(s: System, step: Step)
  {
    step.Send? && s.ipc.Ready? && s.shared.pending
  }

  function LateSends(s: System, steps: seq<Step>): nat
    decreases |steps|
  {
    if steps == [] then 0 else (if IsLate(s, steps[0]) then 1 else 0) + LateSends(Next(s, steps[0]), steps[1..])
  }

  lemma OneStepLoses(s: System, step: Step)
    requires Coherent(s)
    ensures var t := Next(s, step);
            && Coherent(t)
            && |t.sent| - |t.executed| - UnderWay(t) == |s.sent| - |s.executed| - UnderWay(s) + if IsLate(s, step) then 1 else 0
  {
  }

  /** Over any run, exactly as many requests are lost as find the flag raised. */
  lemma {:induction false} AsManyLostAsLate(s: System, steps: seq<Step>)
    requires Coherent(s)
    ensures var t := Run(s, steps);
            && Coherent(t)
            && |t.sent| - |t.executed| - UnderWay(t) == |s.sent| - |s.executed| - UnderWay(s) + LateSends(s, steps)
    decreases |steps|
  {
    if steps != [] {
      OneStepLoses(s, steps[0]);
      AsManyLostAsLate(Next(s, steps[0]), steps[1..]);
    }
  }

  // ---- What every run without late requests keeps ----

  /** The table after some executions, one after the other. */
  function Sequential(initial: Table, executed: seq<Execution>): Table
  {
    if executed == [] then initial
    else Effect(Sequential(initial, executed[..|executed| - 1]), executed[|executed| - 1])
  }

  /** The i-th execution is that of the i-th request. */
  predicate InOrder(sent: seq<Request>, executed: seq<Execution>)
  {
    |executed| <= |sent| && forall i :: 0 <= i < |executed| ==> executed[i].request == sent[i]
  }

  /** Each execution sees the table that the earlier ones leave; an update succeeds if it finds its id there. */
  predicate OnEarlierTables(initial: Table, executed: seq<Execution>)
  {
    forall i :: 0 <= i < |executed| ==>
      && executed[i].seen == Sequential(initial, executed[..i])
      && (executed[i].request.cmd.UpdateFaceProfile? ==>
           executed[i].retCode == if Has(executed[i].seen, executed[i].request.faceId) then SUCCESS else ERROR_GENERIC)
  }

  /** A response that belongs to an execution: its command, its verdict and, for a list, the table it saw. */
  predicate Fits(response: Response, e: Execution)
  {
    && response.cmd == e.request.cmd && response.retCode == e.retCode
    && (response.cmd.ListFaceProfiles? ==> response.profiles == e.seen)
  }

  /** The executions that the IPC thread waits for: all but the generations. */
  function Waited(executed: seq<Execution>): seq<Execution>
  {
    if executed == [] then [] else
    var last := executed[|executed| - 1];
    Waited(executed[..|executed| - 1]) + if last.request.cmd.GenerateFaceId? then [] else [last]
  }

  predicate AnsweredInOrder(waited: seq<Execution>, answered: seq<Answer>)
  {
    |answered| <= |waited| &&
    forall i :: 0 <= i < |answered| ==> answered[i].request == waited[i].request && Fits(answered[i].response, waited[i])
  }

  /** Where the last request is, on the side of the main thread. */
  predicate InMailbox(s: System)
  {
    var n := |s.sent|;
    && Coherent(s) && |s.executed| == n - UnderWay(s)
    && (s.shared.pending ==> n > 0 && s.shared.request == s.sent[n - 1])
    && (s.main.Took? ==> s.main.cmd == s.sent[n - 1].cmd)
    && (s.main.Done? ==>
         && s.main.cmd == s.sent[n - 1].cmd
         && Fits(s.shared.response.(cmd := s.main.cmd, retCode := s.main.retCode), s.executed[n - 1]))
  }

  /** Where it is on the side of the IPC thread. */
  predicate InHand(s: System)
  {
    var n, waited := |s.sent|, |Waited(s.executed)|;
    match s.ipc
    case Ready => |s.answered| == waited && (s.shared.pending ==> n > 0 && s.sent[n - 1].cmd.GenerateFaceId?)
    case Waiting(r) =>
      && n > 0 && r == s.sent[n - 1] && !r.cmd.GenerateFaceId?
      && (if |s.executed| == n then |s.answered| == waited - 1 else |s.answered| == waited)
      && (!s.shared.pending ==> |s.executed| == n && Fits(s.shared.response, s.executed[n - 1]))
    case Released(r) =>
      && n > 0 && r == s.sent[n - 1] && !r.cmd.GenerateFaceId? && !s.shared.pending
      && |s.executed| == n && |s.answered| == waited - 1 && Fits(s.shared.response, s.executed[n - 1])
  }

  predicate Invariant(initial: Table, s: System)
  {
    && InMailbox(s) && InHand(s)
    && InOrder(s.sent, s.executed)
    && OnEarlierTables(initial, s.executed)
    && AnsweredInOrder(Waited(s.executed), s.answered)
    && s.table == Sequential(initial, s.executed)
  }

  lemma ExecutedGrows(initial: Table, executed: seq<Execution>, e: Execution)
    ensures Sequential(initial, executed + [e]) == Effect(Sequential(initial, executed), e)
    ensures Waited(executed + [e]) == Waited(executed) + if e.request.cmd.GenerateFaceId? then [] else [e]
  {
    assert (executed + [e])[..|executed|] == executed;
  }

  lemma EarlierTablesGrow(initial: Table, executed: seq<Execution>, e: Execution)
    requires OnEarlierTables(initial, executed) && e.seen == Sequential(initial, executed)
    requires e.request.cmd.UpdateFaceProfile? ==> e.retCode == if Has(e.seen, e.request.faceId) then SUCCESS else ERROR_GENERIC
    ensures OnEarlierTables(initial, executed + [e])
  {
    var all := executed + [e];
    assert executed[..|executed|] == executed;
    forall i | 0 <= i < |all|
      ensures all[i].seen == Sequential(initial, all[..i])
    {
      assert all[..i] == executed[..i];
    }
  }

  lemma SendKeepsInvariant(initial: Table, s: System, r: Request)
    requires Invariant(initial, s) && !IsLate(s, Send(r))
    ensures Invariant(initial, Next(s, Send(r)))
  {
  }

  lemma ExecutionOfTheLast(s: System, step: Step)
    requires InMailbox(s) && InOrder(s.sent, s.executed) && step.Execute? && s.main.Took?
    ensures var t := Next(s, step);
            && InMailbox(t) && InOrder(t.sent, t.executed)
            && |t.sent| > 0 && |t.executed| == |t.sent| && t.executed[|t.sent| - 1].request == t.sent[|t.sent| - 1]
            && t.executed == s.executed + [t.executed[|s.executed|]]
  {
  }

  lemma AnsweredStays(waited: seq<Execution>, more: seq<Execution>, answered: seq<Answer>)
    requires AnsweredInOrder(waited, answered)
    ensures AnsweredInOrder(waited + more, answered)
  {
  }

  lemma ExecutionInHand(s: System, step: Step)
    requires InMailbox(s) && InHand(s) && InOrder(s.sent, s.executed) && step.Execute? && s.main.Took?
    ensures InHand(Next(s, step))
  {
    ExecutionOfTheLast(s, step);
    ExecutedGrows([], s.executed, Next(s, step).executed[|s.executed|]);
  }

  lemma ExecutionOnTheTable(initial: Table, s: System, step: Step)
    requires OnEarlierTables(initial, s.executed) && s.table == Sequential(initial, s.executed) && step.Execute? && s.main.Took?
    ensures var t := Next(s, step);
            && OnEarlierTables(initial, t.executed) && t.table == Sequential(initial, t.executed)
            && (AnsweredInOrder(Waited(s.executed), s.answered) ==> AnsweredInOrder(Waited(t.executed), t.answered))
  {
    var e := Next(s, step).executed[|s.executed|];
    ExecutedGrows(initial, s.executed, e);
    EarlierTablesGrow(initial, s.executed, e);
    if AnsweredInOrder(Waited(s.executed), s.answered) {
      AnsweredStays(Waited(s.executed), if e.request.cmd.GenerateFaceId? then [] else [e], s.answered);
    }
  }

  lemma ExecuteKeepsInvariant(initial: Table, s: System, step: Step)
    requires Invariant(initial, s) && step.Execute?
    ensures Invariant(initial, Next(s, step))
  {
    if s.main.Took? {
      ExecutionOfTheLast(s, step);
      ExecutionInHand(s, step);
      ExecutionOnTheTable(initial, s, step);
    }
  }

  /** The execution a request waits for is the last of those waited for. */
  lemma LastWaited(s: System)
    requires |s.executed| > 0 && !s.executed[|s.executed| - 1].request.cmd.GenerateFaceId?
    ensures var waited := Waited(s.executed);
            |waited| > 0 && waited[|waited| - 1] == s.executed[|s.executed| - 1]
  {
  }

  lemma FetchKeepsInvariant(initial: Table, s: System)
    requires Invariant(initial, s)
    ensures Invariant(initial, Next(s, Fetch))
  {
    if s.ipc.Released? {
      LastWaited(s);
    }
  }

  lemma FlagStepsKeepInvariant(initial: Table, s: System, step: Step)
    requires Invariant(initial, s) && (step.Poll? || step.Take? || step.Finish?)
    ensures Invariant(initial, Next(s, step))
  {
    var t := Next(s, step);
    assert t.sent == s.sent && t.executed == s.executed && t.answered == s.answered && t.table == s.table;
    assert InMailbox(t) && InHand(t);
  }

  lemma {:induction false} RunKeepsInvariant(initial: Table, s: System, steps: seq<Step>)
    requires Invariant(initial, s) && LateSends(s, steps) == 0
    ensures Invariant(initial, Run(s, steps))
    decreases |steps|
  {
    if steps != [] {
      match steps[0] {
        case Send(r) => SendKeepsInvariant(initial, s, r);
        case Execute(_, _, _) => ExecuteKeepsInvariant(initial, s, steps[0]);
        case Fetch => FetchKeepsInvariant(initial, s);
        case _ => FlagStepsKeepInvariant(initial, s, steps[0]);
      }
      RunKeepsInvariant(initial, Next(s, steps[0]), steps[1..]);
    }
  }

  /** Every request sent was executed, or is about to be if it is the last, once and in the order of sending. */
  predicate OnceInOrder(s: System)
  {
    |s.executed| + UnderWay(s) == |s.sent| && InOrder(s.sent, s.executed)
  }

  /** In every interleaving of the two threads, generations included: every request is executed exactly once and
      in order if and only if every one of them finds the flag clear when it is sent. */
  lemma OnceInOrderIff(initial: Table, steps: seq<Step>)
    ensures OnceInOrder(Run(Start(initial), steps)) <==> LateSends(Start(initial), steps) == 0
  {
    AsManyLostAsLate(Start(initial), steps);
    if LateSends(Start(initial), steps) == 0 {
      RunKeepsInvariant(initial, Start(initial), steps);
    }
  }

  /** If none is late: every execution sees the table that the earlier ones leave, generated profiles included,
      and every answer is that of its request, in order: its command, its verdict and, for a list, that table. */
  lemma MailboxIsSequential(initial: Table, steps: seq<Step>)
    requires LateSends(Start(initial), steps) == 0
    ensures var s := Run(Start(initial), steps);
            && OnceInOrder(s) && OnEarlierTables(initial, s.executed) && s.table == Sequential(initial, s.executed)
            && AnsweredInOrder(Waited(s.executed), s.answered) && |Waited(s.executed)| <= |s.answered| + 1
  {
    RunKeepsInvariant(initial, Start(initial), steps);
  }

  /** As long as every request is waited for, none is late: whenever the IPC thread can send, the mailbox is
      empty and the main thread idle. */
  lemma {:induction false} SendFindsTheMailboxFree(s: System, steps: seq<Step>)
    requires Coherent(s) && (s.ipc.Ready? || s.ipc.Released? ==> !s.shared.pending)
    requires forall i :: 0 <= i < |steps| && steps[i].Send? ==> !steps[i].request.cmd.GenerateFaceId?
    ensures LateSends(s, steps) == 0
    ensures var t := Run(s, steps); t.ipc.Ready? ==> !t.shared.pending && t.main.Idle?
    decreases |steps|
  {
    if steps != [] {
      assert forall i :: 0 <= i < |steps[1..]| ==> steps[1..][i] == steps[i + 1];
      SendFindsTheMailboxFree(Next(s, steps[0]), steps[1..]);
    }
  }

  // ---- Every request that waits is answered ----

  /** How many more steps the waiting request needs, each of one thread. */
  function Distance(s: System): nat
  {
    match s.ipc
    case Ready => 0
    case Released(_) => 1
    case Waiting(_) =>
      if !s.shared.pending then 2 else
      match s.main
      case Done(_, _) => 3
      case Took(_) => 4
      case Idle => 5
  }

  /** The step that brings it on. */
  predicate IsNeeded(s: System, step: Step)
  {
    match Distance(s)
    case 5 => step.Take?
    case 4 => step.Execute?
    case 3 => step.Finish?
    case 2 => step.Poll?
    case 1 => step.Fetch?
    case _ => true
  }

  /** A stretch of a schedule in which each thread tries each of its steps. */
  predicate IsRound(steps: seq<Step>)
  {
    && (exists i :: 0 <= i < |steps| && steps[i].Take?)
    && (exists i :: 0 <= i < |steps| && steps[i].Execute?)
    && (exists i :: 0 <= i < |steps| && steps[i].Finish?)
    && (exists i :: 0 <= i < |steps| && steps[i].Poll?)
    && (exists i :: 0 <= i < |steps| && steps[i].Fetch?)
  }

  /** A request still waits after `count` answers, or its answer is the next. */
  predicate Answers(s: System, count: nat, r: Request)
  {
    if |s.answered| > count then s.answered[count].request == r
    else |s.answered| == count && (s.ipc.Waiting? || s.ipc.Released?) && s.ipc.request == r
  }

  /** The distance to the answer, which is none once it is there. */
  function ToGo(s: System, count: nat): nat
  {
    if |s.answered| > count then 0 else Distance(s)
  }

  lemma StepComesNearer(s: System, step: Step, count: nat, r: Request)
    requires Coherent(s) && Answers(s, count, r)
    ensures var t := Next(s, step);
            && Coherent(t) && Answers(t, count, r)
            && ToGo(t, count) <= ToGo(s, count)
            && (ToGo(s, count) > 0 && IsNeeded(s, step) ==> ToGo(t, count) < ToGo(s, count))
            && (ToGo(s, count) > 0 && ToGo(t, count) == ToGo(s, count) ==> Distance(t) == Distance(s))
  {
  }

  lemma {:induction false} RunComesNearer(s: System, steps: seq<Step>, count: nat, r: Request)
    requires Coherent(s) && Answers(s, count, r)
    ensures var t := Run(s, steps);
            && Coherent(t) && Answers(t, count, r) && ToGo(t, count) <= ToGo(s, count)
            && (ToGo(s, count) > 0 && (exists i :: 0 <= i < |steps| && IsNeeded(s, steps[i])) ==> ToGo(t, count) < ToGo(s, count))
    decreases |steps|
  {
    if steps != [] {
      var next := Next(s, steps[0]);
      StepComesNearer(s, steps[0], count, r);
      RunComesNearer(next, steps[1..], count, r);
      if i :| 0 < i < |steps| && IsNeeded(s, steps[i]) {
        assert steps[1..][i - 1] == steps[i];
        assert ToGo(s, count) > 0 && ToGo(next, count) == ToGo(s, count) ==> IsNeeded(next, steps[i]);
      }
    }
  }

  function RunRounds(s: System, rounds: seq<seq<Step>>): System
  {
    if rounds == [] then s else Run(RunRounds(s, rounds[..|rounds| - 1]), rounds[|rounds| - 1])
  }

  lemma RoundComesNearer(s: System, round: seq<Step>, count: nat, r: Request)
    requires Coherent(s) && Answers(s, count, r) && IsRound(round)
    ensures var t := Run(s, round);
            Coherent(t) && Answers(t, count, r) && (ToGo(t, count) < ToGo(s, count) || ToGo(t, count) == 0)
  {
    RunComesNearer(s, round, count, r);
    if ToGo(s, count) > 0 {
      assert exists i :: 0 <= i < |round| && IsNeeded(s, round[i]);
    }
  }

  lemma {:induction false} RoundsComeNearer(s: System, rounds: seq<seq<Step>>, count: nat, r: Request)
    requires Coherent(s) && Answers(s, count, r) && forall k :: 0 <= k < |rounds| ==> IsRound(rounds[k])
    ensures var t := RunRounds(s, rounds);
            Coherent(t) && Answers(t, count, r) && (ToGo(t, count) + |rounds| <= ToGo(s, count) || ToGo(t, count) == 0)
  {
    if rounds != [] {
      var front, last := rounds[..|rounds| - 1], rounds[|rounds| - 1];
      RoundsComeNearer(s, front, count, r);
      assert IsRound(last);
      RoundComesNearer(RunRounds(s, front), last, count, r);
    }
  }

  /** A waiting request is never stuck: under every schedule, five stretches in each of which each thread tries
      each of its steps bring the answer, whatever else happens in them and in whatever order. */
  lemma WaitingRequestIsAnswered(s: System, rounds: seq<seq<Step>>)
    requires Coherent(s) && s.ipc.Waiting? && |rounds| >= 5 && forall k :: 0 <= k < |rounds| ==> IsRound(rounds[k])
    ensures var t := RunRounds(s, rounds);
            |t.answered| > |s.answered| && t.answered[|s.answered|].request == s.ipc.request
  {
    RoundsComeNearer(s, rounds, |s.answered|, s.ipc.request);
  }

  // ---- What is executed shows in the table ----

  /** What an execution does to the table, entry by entry. The new profile is called "Default". */
  lemma EffectOnTheTable(t: Table, e: Execution)
    requires UniqueIds(t)
    ensures var r := Effect(t, e);
            && UniqueIds(r)
            && (e.request.cmd.GenerateFaceId? && e.opStatus == 0 && |t| < 100 ==>
                 && Profile(e.newId, [68, 101, 102, 97, 117, 108, 116]) in r
                 && forall p: Profile :: p.faceId != e.newId ==> (p in t <==> p in r))
            && (e.request.cmd.GenerateFaceId? && (e.opStatus != 0 || |t| >= 100) ==> r == t)
            && (e.request.cmd.UpdateFaceProfile? ==>
                 && |r| == |t|
                 && forall i :: 0 <= i < |t| ==>
                      r[i] == if t[i].faceId == e.request.faceId then Profile(e.request.faceId, e.request.name) else t[i])
            && (!e.request.cmd.GenerateFaceId? && !e.request.cmd.UpdateFaceProfile? ==> r == t)
  {
    RenamedEntries(t, e.request.faceId, e.request.name);
    if e.request.cmd.GenerateFaceId? && e.opStatus == SUCCESS && |t| < MAX_PROFILES {
      AddedEntries(t, e.newId, DEFAULT_NAME);
      AddedKeepsIdsUnique(t, e.newId, DEFAULT_NAME);
    }
  }

  lemma {:induction false} IdsStayUnique(initial: Table, executed: seq<Execution>)
    requires UniqueIds(initial)
    ensures UniqueIds(Sequential(initial, executed))
  {
    if executed != [] {
      var front := executed[..|executed| - 1];
      IdsStayUnique(initial, front);
      EffectOnTheTable(Sequential(initial, front), executed[|executed| - 1]);
    }
  }

  /** An execution that renames or generates another id, or neither. */
  predicate Spares(e: Execution, faceId: uint32)
  {
    && (e.request.cmd.UpdateFaceProfile? ==> e.request.faceId != faceId)
    && (e.request.cmd.GenerateFaceId? ==> e.newId != faceId)
  }

  lemma SparedProfileStays(t: Table, e: Execution, p: Profile)
    requires UniqueIds(t) && p in t && Spares(e, p.faceId)
    ensures p in Effect(t, e)
  {
    EffectOnTheTable(t, e);
    var i :| 0 <= i < |t| && t[i] == p;
    assert e.request.cmd.UpdateFaceProfile? ==> Effect(t, e)[i] == p;
  }

  lemma {:induction false} ProfileStays(initial: Table, executed: seq<Execution>, p: Profile, from: nat, to: nat)
    requires UniqueIds(initial) && from <= to <= |executed| && p in Sequential(initial, executed[..from])
    requires forall k :: from <= k < to ==> Spares(executed[k], p.faceId)
    ensures p in Sequential(initial, executed[..to])
  {
    if from < to {
      ProfileStays(initial, executed, p, from, to - 1);
      assert executed[..to] == executed[..to - 1] + [executed[to - 1]];
      ExecutedGrows(initial, executed[..to - 1], executed[to - 1]);
      IdsStayUnique(initial, executed[..to - 1]);
      SparedProfileStays(Sequential(initial, executed[..to - 1]), executed[to - 1], p);
    }
  }

  lemma GeneratedIsSeen(initial: Table, executed: seq<Execution>, i: nat, j: nat)
    requires UniqueIds(initial) && OnEarlierTables(initial, executed) && i < j < |executed|
    requires executed[i].request.cmd.GenerateFaceId? && executed[i].opStatus == SUCCESS && |executed[i].seen| < MAX_PROFILES
    requires forall k :: i < k < j ==> Spares(executed[k], executed[i].newId)
    ensures Profile(executed[i].newId, DEFAULT_NAME) in executed[j].seen
  {
    var e, before := executed[i], executed[..i];
    IdsStayUnique(initial, before);
    EffectOnTheTable(e.seen, e);
    assert executed[..i + 1] == before + [e];
    ExecutedGrows(initial, before, e);
    ProfileStays(initial, executed, Profile(e.newId, DEFAULT_NAME), i + 1, j);
  }

  /** In every run without late requests: a generation that succeeds on a table with room shows up, by its
      default name, in what every later list is answered with, until its id is renamed or generated again. */
  lemma GeneratedIsListed(initial: Table, steps: seq<Step>, i: nat, j: nat)
    requires LateSends(Start(initial), steps) == 0 && UniqueIds(initial)
    requires i < j < |Run(Start(initial), steps).executed|
    requires var executed := Run(Start(initial), steps).executed;
             && executed[i].request.cmd.GenerateFaceId? && executed[i].opStatus == 0 && |executed[i].seen| < 100
             && executed[j].request.cmd.ListFaceProfiles?
             && forall k :: i < k < j ==> Spares(executed[k], executed[i].newId)
    ensures var s := Run(Start(initial), steps);
            var waited := Waited(s.executed);
            && Profile(s.executed[i].newId, [68, 101, 102, 97, 117, 108, 116]) in s.executed[j].seen
            && |s.answered| <= |waited|
            && forall k :: 0 <= k < |s.answered| && waited[k] == s.executed[j] ==>
                 Profile(s.executed[i].newId, [68, 101, 102, 97, 117, 108, 116]) in s.answered[k].response.profiles
  {
    MailboxIsSequential(initial, steps);
    GeneratedIsSeen(initial, Run(Start(initial), steps).executed, i, j);
  }

  // ---- A late request ----

  lemma RunSeven(s: System, a: Step, b: Step, c: Step, d: Step, e: Step, f: Step, g: Step)
    ensures Run(s, [a, b, c, d, e, f, g]) == Next(Next(Next(Next(Next(Next(Next(s, a), b), c), d), e), f), g)
    ensures IsLate(Next(Next(s, a), b), c) ==> LateSends(s, [a, b, c, d, e, f, g]) > 0
  {
    RunFirst(s, a, [b, c, d, e, f, g]);
    var s1 := Next(s, a);
    RunFirst(s1, b, [c, d, e, f, g]);
    var s2 := Next(s1, b);
    RunFirst(s2, c, [d, e, f, g]);
    var s3 := Next(s2, c);
    RunFirst(s3, d, [e, f, g]);
    var s4 := Next(s3, d);
    RunFirst(s4, e, [f, g]);
    RunFirst(Next(s4, e), f, [g]);
    RunFirst(Next(Next(s4, e), f), g, []);
  }

  lemma RunFirst(s: System, a: Step, rest: seq<Step>)
    ensures Run(s, [a] + rest) == Run(Next(s, a), rest)
    ensures LateSends(s, [a] + rest) == (if IsLate(s, a) then 1 else 0) + LateSends(Next(s, a), rest)
  {
    assert ([a] + rest)[1..] == rest;
  }

  /** Generation is not waited for. From any quiet state, a request sent behind a generation while that runs
      is never executed: the generation's completion clears the flag, and the answer read is the generation's. */
  lemma RequestBehindGenerationIsLost(s: System, generate: Request, r: Request, verdict: int, newId: uint32, opStatus: int)
    requires s.ipc.Ready? && s.main.Idle? && !s.shared.pending
    requires generate.cmd.GenerateFaceId? && !r.cmd.GenerateFaceId?
    ensures LateSends(s, [Send(generate), Take, Send(r), Execute(verdict, newId, opStatus), Finish, Poll, Fetch]) > 0
    ensures var t := Run(s, [Send(generate), Take, Send(r), Execute(verdict, newId, opStatus), Finish, Poll, Fetch]);
            && t.sent == s.sent + [generate, r]
            && |t.executed| == |s.executed| + 1 && t.executed[|s.executed|].request.cmd.GenerateFaceId?
            && t.answered == s.answered + [Answer(r, t.shared.response)] && t.shared.response.cmd.GenerateFaceId?
            && t.ipc.Ready? && t.main.Idle? && !t.shared.pending
  {
    RunSeven(s, Send(generate), Take, Send(r), Execute(verdict, newId, opStatus), Finish, Poll, Fetch);
  }

  // ---- The IPC thread's side, as code ----

  lemma {:induction false} RunConcat(s: System, a: seq<Step>, b: seq<Step>)
    ensures Run(s, a + b) == Run(Run(s, a), b)
    decreases |a|
  {
    if a == [] {
      assert a + b == b;
    } else {
      assert (a + b)[1..] == a[1..] + b;
      RunConcat(Next(s, a[0]), a[1..], b);
    }
  }

  lemma RunOneMore(s: System, steps: seq<Step>, step: Step)
    ensures Run(s, steps + [step]) == Next(Run(s, steps), step)
  {
    RunConcat(s, steps, [step]);
    assert Run(Next(Run(s, steps), step), []) == Next(Run(s, steps), step);
  }

  predicate OfMainThread(steps: seq<Step>)
  {
    forall i :: 0 <= i < |steps| ==> steps[i].Take? || steps[i].Execute? || steps[i].Finish?
  }

  /** The main thread leaves the IPC thread's own state and record alone. */
  lemma {:induction false} MainThreadKeeps(s: System, steps: seq<Step>)
    requires OfMainThread(steps)
    ensures var t := Run(s, steps); t.ipc == s.ipc && t.answered == s.answered && t.sent == s.sent
    decreases |steps|
  {
    if steps != [] {
      assert steps[0].Take? || steps[0].Execute? || steps[0].Finish?;
      assert OfMainThread(steps[1..]) by {
        assert forall i :: 0 <= i < |steps[1..]| ==> steps[1..][i] == steps[i + 1];
      }
      MainThreadKeeps(Next(s, steps[0]), steps[1..]);
    }
  }

  /** What the main thread does to the shared memory while the IPC thread sleeps. */
  method MainThreadActs(memory: SharedMemory, s: System, steps: seq<Step>) returns (t: System)
    requires memory.State() == s.shared
    modifies memory
    ensures t == Run(s, steps) && memory.State() == t.shared
  {
    t := Run(s, steps);
    memory.request, memory.response, memory.pending := t.shared.request, t.shared.response, t.shared.pending;
  }

  /** handle_req_resp_command from the request on: send it, and unless it is a generation wait until the flag is
      clear and read the response. `turns` is what the main thread does between two looks at the flag. The code
      is the IPC thread's steps of a run in which these turns are the main thread's; without a response the run
      is still one in which the request waits. */
  method HandleReqRespCommand(memory: SharedMemory, s: System, r: Request, turns: seq<seq<Step>>)
    returns (t: System, response: Option<Response>, ghost steps: seq<Step>)
    requires s.ipc.Ready? && memory.State() == s.shared
    requires forall i :: 0 <= i < |turns| ==> OfMainThread(turns[i])
    modifies memory
    ensures t == Run(s, steps) && memory.State() == t.shared && t.sent == s.sent + [r]
    ensures r.cmd.GenerateFaceId? ==> response.None? && t.ipc.Ready? && t.answered == s.answered
    ensures response.Some? ==> t.ipc.Ready? && t.answered == s.answered + [Answer(r, response.value)]
    ensures !r.cmd.GenerateFaceId? && response.None? ==> t.ipc == Waiting(r) && t.answered == s.answered
  {
    memory.SendRequest(r);
    t, response, steps := Next(s, Send(r)), None, [Send(r)];
    assert Run(Next(s, Send(r)), []) == Next(s, Send(r));
    if r.cmd.GenerateFaceId? {
      return;
    }
    for i := 0 to |turns|
      invariant t == Run(s, steps) && memory.State() == t.shared && t.sent == s.sent + [r]
      invariant t.ipc == Waiting(r) && t.answered == s.answered
    {
      var isPending, cmd := memory.PendingCommand();
      if !isPending {
        RunOneMore(s, steps, Poll);
        RunOneMore(s, steps + [Poll], Fetch);
        var got := memory.GetResponse();
        t, response, steps := Next(Next(t, Poll), Fetch), Some(got), steps + [Poll] + [Fetch];
        return;
      }
      RunConcat(s, steps, turns[i]);
      MainThreadKeeps(t, turns[i]);
      t := MainThreadActs(memory, t, turns[i]);
      steps := steps + turns[i];
    }
  }

  // ---- The main thread's side, as code ----

  /** The switch over the command: what is done between the look at the flag and its clearing. */
  method ExecuteTaken(memory: SharedMemory, db: FaceDb, cmd: Command, verdict: int, newId: uint32, opStatus: int) returns (retCode: int)
    requires db.Valid() && IsCString(memory.request.name) && memory.request.cmd == cmd
    modifies memory, db`count, db.profiles, db`file
    ensures db.Valid()
    ensures var s := Start(old(db.Contents())).(shared := old(memory.State()));
            && retCode == Verdict(s, cmd, verdict) && memory.State() == SharedAfter(s, cmd)
            && db.Contents() == Effect(s.table, Execution(s.shared.request, s.table, retCode, newId, opStatus))
    ensures cmd.UpdateFaceProfile? && retCode == SUCCESS ==> db.file == Printed(db.Contents())
  {
    retCode := verdict;
    match cmd {
      case GenerateFaceId =>
        memory.ReportGenerated();
        if opStatus == SUCCESS {
          var added := db.AddFaceProfile(newId, DEFAULT_NAME);
        }
      case UpdateFaceProfile =>
        var updated := db.UpdateFaceProfile(memory.request.faceId, memory.request.name);
        retCode := if updated then SUCCESS else ERROR_GENERIC;
        if updated {
          db.FlushToDisk();
        }
      case ListFaceProfiles =>
        memory.FillProfiles(db.profiles[..db.count]);
        retCode := SUCCESS;
      case _ =>
    }
  }

  /** kt_app_execute_cmd, undisturbed by the other thread: it is the three steps Take, Execute and Finish, and
      leaves the file of profiles printed after a successful update. */
  method ExecuteCmd(memory: SharedMemory, db: FaceDb, verdict: int, newId: uint32, opStatus: int)
    requires db.Valid() && IsCString(memory.request.name)
    modifies memory, db`count, db.profiles, db`file
    ensures db.Valid()
    ensures var s := Start(old(db.Contents())).(shared := old(memory.State()));
            var t := Next(Next(Next(s, Take), Execute(verdict, newId, opStatus)), Finish);
            memory.State() == t.shared && db.Contents() == t.table
    // Without a request nothing happens; with one it is answered, with a verdict of its own.
    ensures !old(memory.pending) ==> memory.State() == old(memory.State()) && db.Contents() == old(db.Contents())
    ensures old(memory.pending) ==>
      && !memory.pending && memory.request == old(memory.request) && memory.response.cmd == old(memory.request.cmd)
      && memory.response.retCode ==
         match old(memory.request.cmd)
         case ListFaceProfiles => 0
         case UpdateFaceProfile =>
           if exists i :: 0 <= i < |old(db.Contents())| && old(db.Contents())[i].faceId == old(memory.request.faceId) then 0 else -1
         case _ => verdict
    // A list is answered with the table; a generation that succeeded adds a profile, an update renames one.
    ensures old(memory.pending) && old(memory.request.cmd).ListFaceProfiles? ==> memory.response.profiles == old(db.Contents())
    ensures old(memory.pending) && UniqueIds(old(db.Contents())) ==>
      var t, r, request := old(db.Contents()), db.Contents(), old(memory.request);
      match request.cmd
      case GenerateFaceId =>
        if opStatus == 0 && |t| < 100 then
          && Profile(newId, [68, 101, 102, 97, 117, 108, 116]) in r
          && forall p: Profile :: p.faceId != newId ==> (p in t <==> p in r)
        else r == t
      case UpdateFaceProfile =>
        && |r| == |t|
        && forall i :: 0 <= i < |t| ==> r[i] == if t[i].faceId == request.faceId then Profile(request.faceId, request.name) else t[i]
      case _ => r == t
    ensures old(memory.pending) && old(memory.request.cmd).UpdateFaceProfile? && Has(old(db.Contents()), old(memory.request.faceId)) ==>
      db.file == Printed(db.Contents())
  {
    var isPending, cmd := memory.PendingCommand();
    if !isPending {
      return;
    }
    ghost var t, request := db.Contents(), memory.request;
    var retCode := ExecuteTaken(memory, db, cmd, verdict, newId, opStatus);
    memory.Finish(cmd, retCode);
    ghost var e := Execution(request, t, retCode, newId, opStatus);
    assert db.Contents() == Effect(t, e);
    if UniqueIds(t) {
      EffectOnTheTable(t, e);
    }
  }
}
