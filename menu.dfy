/**
 * The main menu: read an option, run the matching operation on the registry,
 * and repeat until option 6. The terminal is replaced by a script of steps,
 * each holding the option typed and the answers to the prompts that follow it.
 */
module Menu {
  import opened Wrappers
  import opened Projects
  import opened ProjectRegistry
  import Dates

  datatype Command = CreateProject | ListProjects | ShowProject | AddMember | UpdateStatus | Exit | Invalid

  /** The option typed at the menu, compared as text: any text that selects a
      command is exactly the option shown for that command. */
  function Dispatch(choice: string): (c: Command)
    ensures c != Invalid ==> Key(c) == choice
  {
    if choice == "1" then CreateProject
    else if choice == "2" then ListProjects
    else if choice == "3" then ShowProject
    else if choice == "4" then AddMember
    else if choice == "5" then UpdateStatus
    else if choice == "6" then Exit
    else Invalid
  }

  /** The option number the menu shows for a command. */
  function Key(c: Command): string
    requires c != Invalid
  {
    match c
    case CreateProject => "1"
    case ListProjects => "2"
    case ShowProject => "3"
    case AddMember => "4"
    case UpdateStatus => "5"
    case Exit => "6"
  }

  /** Every command is reached by the option shown for it. */
  lemma DispatchKey(c: Command)
    requires c != Invalid
    ensures Dispatch(Key(c)) == c
  {
  }

  /** Whether a command asks for a project ID. */
  predicate TakesId(c: Command) {
    c == ShowProject || c == AddMember || c == UpdateStatus
  }

  /** The answers to the prompts that follow an option; each operation reads
      only the ones it prompts for. `budget` and `id` are the parsed numbers,
      `None` where the typed text is not a number. */
  datatype Answers = Answers(
    title: string,
    deadline: string,
    budget: Option<real>,
    areas: string,
    id: Option<int>,
    memberName: string,
    memberRole: string,
    statusAttempts: seq<Option<int>>)

  datatype Step = Step(choice: string, answers: Answers)

  /** What the user is shown after a step. */
  datatype Reply =
    | Created(id: int)
    | Listed(rows: seq<Row>)
    | Shown(project: Project)
    | Joined
    | StatusSet(status: Status)
    | Failed(error: Error)
    | Goodbye
    | UnknownOption

  /** Whether the menu loop stops after this reply: on option 6, or when the
      input runs out inside the status prompt. */
  predicate Stops(reply: Reply) {
    reply == Goodbye || reply == Failed(EndOfInput)
  }

  /** What option 1 promises: the deadline is checked before the budget, and a
      created project is stored, pending and without members, under the new ID;
      a refused one changes nothing. */
  ghost predicate CreateOutcome(before: map<int, Project>, after: map<int, Project>, a: Answers, reply: Reply) {
    && (reply.Failed? ==> after == before)
    && (Dates.ParseDate(a.deadline).None? ==> reply == Failed(InvalidDate))
    && (Dates.ParseDate(a.deadline).Some? && a.budget.None? ==> reply == Failed(InvalidNumber))
    && (reply.Created? <==> Dates.ParseDate(a.deadline).Some? && a.budget.Some?)
    && (reply.Created? ==>
          after == before[reply.id := Project(a.title, a.deadline, a.budget.value, Pending, NormalizeAreas(a.areas), [])])
  }

  /** What option 2 promises: one row per project, in ascending ID order. */
  ghost predicate ListOutcome(projects: map<int, Project>, nextId: int, reply: Reply) {
    && reply.Listed?
    && |reply.rows| == nextId - 1
    && forall k :: 0 <= k < |reply.rows| ==> k + 1 in projects && reply.rows[k] == RowOf(k + 1, projects[k + 1])
  }

  /** What option 3 promises for an integer ID: the stored project, or not found. */
  ghost predicate ShowOutcome(projects: map<int, Project>, id: int, reply: Reply) {
    reply == if id in projects then Shown(projects[id]) else Failed(NotFound)
  }

  /** What option 4 promises for an integer ID: not found, closed and duplicate
      name are checked in that order, each changing nothing; otherwise the member
      joins that project. */
  ghost predicate JoinOutcome(before: map<int, Project>, after: map<int, Project>, id: int, a: Answers, reply: Reply) {
    && (reply.Failed? ==> after == before)
    && (id !in before ==> reply == Failed(NotFound))
    && (id in before && before[id].status == Done ==> reply == Failed(ProjectClosed))
    && (id in before && before[id].status != Done && NameTaken(before[id].members, a.memberName)
        ==> reply == Failed(DuplicateMember))
    && (reply.Joined? <==> id in before && before[id].status != Done && !NameTaken(before[id].members, a.memberName))
    && (reply.Joined? ==>
          after == before[id := before[id].(members := before[id].members + [Member(a.memberName, a.memberRole)])])
  }

  /** What option 5 promises for an integer ID: not found, or the status of the
      first valid option overwrites that project's status; a failure changes nothing. */
  ghost predicate StatusOutcome(before: map<int, Project>, after: map<int, Project>, id: int,
                                attempts: seq<Option<int>>, reply: Reply) {
    && (reply.Failed? ==> after == before)
    && (id !in before ==> reply == Failed(NotFound))
    && (id in before && (forall j :: 0 <= j < |attempts| ==> !SelectsStatus(attempts[j]))
        ==> reply == Failed(EndOfInput))
    && (reply.StatusSet? <==> id in before && exists j :: 0 <= j < |attempts| && SelectsStatus(attempts[j]))
    && (reply.StatusSet? ==>
          && (exists k :: 0 <= k < |attempts| && attempts[k] == Some(ChoiceOf(reply.status))
                          && forall j :: 0 <= j < k ==> !SelectsStatus(attempts[j]))
          && id in before
          && after == before[id := before[id].(status := reply.status)])
  }

  /** Option 1: create a project from the answers. */
  method CreateStep(reg: Registry, a: Answers) returns (reply: Reply)
    requires reg.Valid()
    modifies reg
    ensures reg.Valid()
    ensures reply.Created? || reply.Failed?
    ensures CreateOutcome(old(reg.projects), reg.projects, a, reply)
    ensures reply.Failed? ==> unchanged(reg)
    ensures reply.Created? ==> reply.id == old(reg.nextId) && reg.nextId == old(reg.nextId) + 1
    ensures old(reg.projects).Keys <= reg.projects.Keys
  {
    var r := reg.AddProject(a.title, a.deadline, a.budget, a.areas);
    reply := if r.Ok? then Created(r.value) else Failed(r.error);
  }

  /** Option 3 with an integer ID: show that project. */
  method ShowStep(reg: Registry, id: int) returns (reply: Reply)
    requires reg.Valid()
    ensures reply.Shown? || reply == Failed(NotFound)
    ensures ShowOutcome(reg.projects, id, reply)
  {
    var r := reg.Detail(id);
    reply := if r.Ok? then Shown(r.value) else Failed(r.error);
  }

  /** Option 4 with an integer ID: add the member named in the answers. */
  method JoinStep(reg: Registry, id: int, a: Answers) returns (reply: Reply)
    requires reg.Valid()
    modifies reg
    ensures reg.Valid()
    ensures reply.Joined? || reply.Failed?
    ensures JoinOutcome(old(reg.projects), reg.projects, id, a, reply)
    ensures reply.Failed? ==> unchanged(reg)
    ensures reg.nextId == old(reg.nextId) && reg.order == old(reg.order)
    ensures old(reg.projects).Keys <= reg.projects.Keys
  {
    var r := reg.AddMember(id, a.memberName, a.memberRole);
    reply := if r.Ok? then Joined else Failed(r.error);
  }

  /** Option 5 with an integer ID: set the status chosen in the answers. */
  method StatusStep(reg: Registry, id: int, attempts: seq<Option<int>>) returns (reply: Reply)
    requires reg.Valid()
    modifies reg
    ensures reg.Valid()
    ensures reply.StatusSet? || reply.Failed?
    ensures StatusOutcome(old(reg.projects), reg.projects, id, attempts, reply)
    ensures reply.Failed? ==> unchanged(reg)
    ensures reg.nextId == old(reg.nextId) && reg.order == old(reg.order)
    ensures old(reg.projects).Keys <= reg.projects.Keys
  {
    var r := reg.UpdateStatus(id, attempts);
    reply := if r.Ok? then StatusSet(r.value) else Failed(r.error);
  }

  /** The reply each command gives and the registry it leaves, from the
      projects before (`before`, with counter `nextId`) to those after (`after`).
      An ID-taking command whose ID is not an integer, listing, showing, leaving
      and an unknown option change nothing. */
  ghost predicate Outcome(c: Command, a: Answers, before: map<int, Project>, nextId: int,
                          after: map<int, Project>, reply: Reply) {
    if TakesId(c) && a.id.None? then reply == Failed(InvalidInput) && after == before
    else match c
      case CreateProject =>
        && (reply.Created? || reply.Failed?)
        && (reply.Created? ==> reply.id == nextId)
        && CreateOutcome(before, after, a, reply)
      case ListProjects => after == before && ListOutcome(before, nextId, reply)
      case ShowProject => after == before && ShowOutcome(before, a.id.value, reply)
      case AddMember =>
        (reply.Joined? || reply.Failed?) && JoinOutcome(before, after, a.id.value, a, reply)
      case UpdateStatus =>
        (reply.StatusSet? || reply.Failed?) && StatusOutcome(before, after, a.id.value, a.statusAttempts, reply)
      case Exit => after == before && reply == Goodbye
      case Invalid => after == before && reply == UnknownOption
  }

  /** One pass of the menu loop, once the typed option has been dispatched to
      `c`: the command runs its registry operation on the answers it prompts
      for, and the operation's result becomes the reply. Only creation, member
      addition and status update change the registry, and only when they succeed. */
  method HandleStep(reg: Registry, c: Command, a: Answers) returns (reply: Reply)
    requires reg.Valid()
    modifies reg
    ensures reg.Valid()
    ensures Outcome(c, a, old(reg.projects), old(reg.nextId), reg.projects, reply)
    ensures c == Exit <==> reply == Goodbye
    ensures reply.Failed? || c !in {CreateProject, AddMember, UpdateStatus} ==> unchanged(reg)
    ensures reply.Created? ==> reg.nextId == old(reg.nextId) + 1
    ensures !reply.Created? ==> reg.nextId == old(reg.nextId) && reg.order == old(reg.order)
    ensures old(reg.projects).Keys <= reg.projects.Keys
  {
    match c
    case CreateProject =>
      reply := CreateStep(reg, a);
    case ListProjects =>
      var rows := reg.List();
      reply := Listed(rows);
    case ShowProject =>
      if a.id.None? {
        return Failed(InvalidInput);
      }
      reply := ShowStep(reg, a.id.value);
    case AddMember =>
      if a.id.None? {
        return Failed(InvalidInput);
      }
      reply := JoinStep(reg, a.id.value, a);
    case UpdateStatus =>
      if a.id.None? {
        return Failed(InvalidInput);
      }
      reply := StatusStep(reg, a.id.value, a.statusAttempts);
    case Exit =>
      reply := Goodbye;
    case Invalid =>
      reply := UnknownOption;
  }

  /** One pass of the loop as the terminal sees it: the option is read and
      dispatched, then handled. */
  method MenuPass(reg: Registry, step: Step) returns (reply: Reply)
    requires reg.Valid()
    modifies reg
    ensures reg.Valid()
    ensures Outcome(Dispatch(step.choice), step.answers, old(reg.projects), old(reg.nextId), reg.projects, reply)
    ensures reply == Goodbye <==> Dispatch(step.choice) == Exit
    ensures reply.Failed? || Dispatch(step.choice) !in {CreateProject, AddMember, UpdateStatus} ==> unchanged(reg)
    ensures reply.Created? ==> reg.nextId == old(reg.nextId) + 1
    ensures !reply.Created? ==> reg.nextId == old(reg.nextId) && reg.order == old(reg.order)
    ensures old(reg.projects).Keys <= reg.projects.Keys
  {
    reply := HandleStep(reg, Dispatch(step.choice), step.answers);
  }

  /** The number of projects a sequence of replies reports as created. */
  function CreatedCount(replies: seq<Reply>): (n: nat)
    ensures n <= |replies|
  {
    if replies == [] then 0
    else CreatedCount(replies[..|replies| - 1]) + (if replies[|replies| - 1].Created? then 1 else 0)
  }

  /** A command's outcome is `Goodbye` exactly when the command is option 6. */
  lemma OutcomeGoodbye(c: Command, a: Answers, before: map<int, Project>, nextId: int,
                       after: map<int, Project>, reply: Reply)
    requires Outcome(c, a, before, nextId, after, reply)
    ensures reply == Goodbye <==> c == Exit
  {
  }

  /** A trace of steps stays a trace when the next step's outcome and counter
      step are appended. */
  lemma ExtendTrace(steps: seq<Step>, replies: seq<Reply>, states: seq<map<int, Project>>, ids: seq<int>,
                    reply: Reply, after: map<int, Project>, nextId: int)
    requires |replies| < |steps| && |states| == |ids| == |replies| + 1
    requires forall j :: 0 <= j < |replies| ==>
               Outcome(Dispatch(steps[j].choice), steps[j].answers, states[j], ids[j], states[j + 1], replies[j])
    requires forall j :: 0 <= j < |replies| ==> ids[j + 1] == ids[j] + (if replies[j].Created? then 1 else 0)
    requires Outcome(Dispatch(steps[|replies|].choice), steps[|replies|].answers,
                     states[|replies|], ids[|replies|], after, reply)
    requires nextId == ids[|replies|] + (if reply.Created? then 1 else 0)
    ensures forall j :: 0 <= j < |replies| + 1 ==>
              Outcome(Dispatch(steps[j].choice), steps[j].answers, (states + [after])[j], (ids + [nextId])[j],
                      (states + [after])[j + 1], (replies + [reply])[j])
    ensures forall j :: 0 <= j < |replies| + 1 ==>
              (ids + [nextId])[j + 1] == (ids + [nextId])[j] + (if (replies + [reply])[j].Created? then 1 else 0)
  {
    forall j | 0 <= j < |replies| + 1
      ensures Outcome(Dispatch(steps[j].choice), steps[j].answers, (states + [after])[j], (ids + [nextId])[j],
                      (states + [after])[j + 1], (replies + [reply])[j])
    {
      assert (states + [after])[j] == states[j] && (ids + [nextId])[j] == ids[j];
      if j < |replies| {
        assert (states + [after])[j + 1] == states[j + 1] && (replies + [reply])[j] == replies[j];
      }
    }
    forall j | 0 <= j < |replies| + 1
      ensures (ids + [nextId])[j + 1] == (ids + [nextId])[j] + (if (replies + [reply])[j].Created? then 1 else 0)
    {
      if j < |replies| {
        assert (ids + [nextId])[j + 1] == ids[j + 1] && (replies + [reply])[j] == replies[j];
      }
    }
  }

  /** The menu loop, run over a script of steps. It stops after option 6, when
      the input runs out inside the status prompt, or when the script ends.
      `states[j]` and `ids[j]` are the projects and the counter before step `j`
      (and after the last step, for `j == |replies|`): each reply is the outcome
      of its own step's command on the registry as the previous step left it,
      and the counter moves on by one exactly at the steps that create a project. */
  method Run(reg: Registry, steps: seq<Step>)
    returns (replies: seq<Reply>, ghost states: seq<map<int, Project>>, ghost ids: seq<int>)
    requires reg.Valid()
    modifies reg
    ensures reg.Valid()
    ensures |replies| <= |steps|
    ensures |states| == |ids| == |replies| + 1
    ensures states[0] == old(reg.projects) && ids[0] == old(reg.nextId)
    ensures states[|replies|] == reg.projects && ids[|replies|] == reg.nextId
    ensures forall j :: 0 <= j < |replies| ==>
              Outcome(Dispatch(steps[j].choice), steps[j].answers, states[j], ids[j], states[j + 1], replies[j])
    ensures forall j :: 0 <= j < |replies| ==>
              ids[j + 1] == ids[j] + (if replies[j].Created? then 1 else 0)
    ensures forall j :: 0 <= j < |replies| ==>
              (replies[j] == Goodbye <==> Dispatch(steps[j].choice) == Exit)
    ensures forall j :: 0 <= j < |replies| - 1 ==> !Stops(replies[j])
    ensures |replies| < |steps| ==> replies != [] && Stops(replies[|replies| - 1])
    ensures reg.nextId == old(reg.nextId) + CreatedCount(replies)
    ensures old(reg.projects).Keys <= reg.projects.Keys
  {
    replies, states, ids := [], [reg.projects], [reg.nextId];
    var i := 0;
    while i < |steps| && (i == 0 || !Stops(replies[i - 1]))
      invariant reg.Valid()
      invariant i == |replies| <= |steps|
      invariant |states| == |ids| == i + 1
      invariant states[0] == old(reg.projects) && ids[0] == old(reg.nextId)
      invariant states[i] == reg.projects && ids[i] == reg.nextId
      invariant forall j :: 0 <= j < i ==>
                  Outcome(Dispatch(steps[j].choice), steps[j].answers, states[j], ids[j], states[j + 1], replies[j])
      invariant forall j :: 0 <= j < i ==> ids[j + 1] == ids[j] + (if replies[j].Created? then 1 else 0)
      invariant forall j :: 0 <= j < i - 1 ==> !Stops(replies[j])
      invariant reg.nextId == old(reg.nextId) + CreatedCount(replies)
      invariant old(reg.projects).Keys <= reg.projects.Keys
    {
      var reply := MenuPass(reg, steps[i]);
      ExtendTrace(steps, replies, states, ids, reply, reg.projects, reg.nextId);
      assert (replies + [reply])[..i] == replies;
      replies := replies + [reply];
      states, ids := states + [reg.projects], ids + [reg.nextId];
      i := i + 1;
    }
    forall j | 0 <= j < |replies|
      ensures replies[j] == Goodbye <==> Dispatch(steps[j].choice) == Exit
    {
      OutcomeGoodbye(Dispatch(steps[j].choice), steps[j].answers, states[j], ids[j], states[j + 1], replies[j]);
    }
  }
}
