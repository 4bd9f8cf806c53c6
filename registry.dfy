/**
 * The in-memory project registry: a dictionary from project ID to project,
 * iterated in insertion order, and the counter that hands out IDs. Projects
 * are never removed and an ID is consumed only by a successful creation, so
 * the keys are always exactly 1 .. nextId - 1, inserted in ascending order.
 */
module ProjectRegistry {
  import opened Wrappers
  import opened Text
  import opened Projects
  import Dates

  /** The ways an operation can be turned down. */
  datatype Error =
    | InvalidDate      // the deadline is not a DD/MM/YYYY calendar date
    | InvalidNumber    // the budget is not a number
    | NotFound         // no project has that ID
    | ProjectClosed    // members cannot join a CONCLUÍDO project
    | DuplicateMember  // a member with that name, up to case, already exists
    | InvalidInput     // the project ID typed is not an integer
    | EndOfInput       // the input ran out before a valid status option was typed

  datatype Result<T> = Ok(value: T) | Err(error: Error)

  /** One line of the project listing. */
  datatype Row = Row(id: int, title: string, deadline: string, status: Status, memberCount: nat)

  function RowOf(id: int, p: Project): Row {
    Row(id, p.title, p.deadline, p.status, |p.members|)
  }

  /** A typed status option that selects a status. */
  predicate SelectsStatus(attempt: Option<int>) {
    attempt.Some? && StatusOfChoice(attempt.value).Some?
  }

  /** The status prompt: keeps reading options until one is an integer from 1 to 4.
      `k` is the position of the accepted option; if none is valid, the input
      runs out and `k` is the number of options read. */
  method ChooseStatus(attempts: seq<Option<int>>) returns (status: Option<Status>, k: nat)
    ensures k <= |attempts|
    ensures forall j :: 0 <= j < k ==> !SelectsStatus(attempts[j])
    ensures status.None? <==> k == |attempts|
    ensures status.Some? ==> attempts[k].Some? && 1 <= attempts[k].value <= 4
                             && status.value == StatusOptions[attempts[k].value - 1]
  {
    k := 0;
    while k < |attempts|
      invariant k <= |attempts|
      invariant forall j :: 0 <= j < k ==> !SelectsStatus(attempts[j])
    {
      var attempt := attempts[k];
      if attempt.Some? && 1 <= attempt.value <= 4 {
        return Some(StatusOptions[attempt.value - 1]), k;
      }
      // not an integer, or out of range: report it and ask again
      k := k + 1;
    }
    status := None;
  }

  class Registry {
    /** The projects, by ID. */
    var projects: map<int, Project>
    /** The IDs in the order they were inserted, which is the order of iteration. */
    var order: seq<int>
    /** The ID the next successful creation receives. */
    var nextId: int

    ghost predicate Valid()
      reads this
    {
      && nextId >= 1
      && |order| == nextId - 1
      && (forall k :: 0 <= k < |order| ==> order[k] == k + 1)
      && (forall id :: id in projects <==> 1 <= id < nextId)
      && (forall id :: id in projects ==> WellFormed(projects[id]))
    }

    /** The registry at start-up: empty, with the counter at 1. */
    constructor ()
      ensures Valid()
      ensures projects == map[] && order == [] && nextId == 1
    {
      projects := map[];
      order := [];
      nextId := 1;
    }

    /** Creates a project. The deadline is checked first, then the budget; a
        failure leaves the registry and the counter as they were. */
    method AddProject(title: string, deadlineText: string, budget: Option<real>, areasText: string)
      returns (r: Result<int>)
      requires Valid()
      modifies this
      ensures Valid()
      ensures Dates.ParseDate(deadlineText).None? ==> r == Err(InvalidDate)
      ensures Dates.ParseDate(deadlineText).Some? && budget.None? ==> r == Err(InvalidNumber)
      ensures r.Err? ==> unchanged(this)
      ensures r.Ok? <==> Dates.ParseDate(deadlineText).Some? && budget.Some?
      ensures r.Ok? ==>
        && r.value == old(nextId)
        && r.value !in old(projects)
        && nextId == old(nextId) + 1
        && order == old(order) + [r.value]
        && projects == old(projects)[r.value := Project(title, deadlineText, budget.value, Pending,
                                                        NormalizeAreas(areasText), [])]
    {
      var id := nextId;
      var deadline := Dates.Deadline(deadlineText);
      if deadline.None? {
        return Err(InvalidDate);
      }
      if budget.None? {
        return Err(InvalidNumber);
      }
      var areas := NormalizeAreas(areasText);
      var p := Project(title, deadline.value, budget.value, Pending, areas, []);
      assert WellFormed(p);
      projects := projects[id := p];
      order := order + [id];
      nextId := nextId + 1;
      r := Ok(id);
    }

    /** Looks a project up for display. */
    method Detail(id: int) returns (r: Result<Project>)
      requires Valid()
      ensures r.Ok? <==> 1 <= id < nextId
      ensures r.Ok? ==> r.value == projects[id] && WellFormed(r.value)
      ensures r.Err? ==> r.error == NotFound
    {
      if id !in projects {
        return Err(NotFound);
      }
      r := Ok(projects[id]);
    }

    /** The listing: one row per project, in iteration order, which is ascending ID order. */
    method List() returns (rows: seq<Row>)
      requires Valid()
      ensures |rows| == nextId - 1
      ensures rows == [] <==> projects == map[]
      ensures forall k :: 0 <= k < |rows| ==> rows[k].id == k + 1 && rows[k] == RowOf(k + 1, projects[k + 1])
      ensures forall k, l :: 0 <= k < l < |rows| ==> rows[k].id < rows[l].id
    {
      if nextId == 1 {
        assert forall id :: id !in projects;
        assert projects == map[];
      } else {
        assert 1 in projects;
      }
      rows := [];
      var k := 0;
      while k < |order|
        invariant k <= |order|
        invariant |rows| == k
        invariant forall j :: 0 <= j < k ==> rows[j] == RowOf(j + 1, projects[j + 1])
      {
        var id := order[k];
        rows := rows + [RowOf(id, projects[id])];
        k := k + 1;
      }
    }

    /** Adds a member. Checked in order: the ID exists, the project is not
        CONCLUÍDO, no member has the same name up to case. Any failure leaves
        the registry as it was; success appends the member and changes nothing else. */
    method AddMember(id: int, name: string, role: string) returns (r: Result<()>)
      requires Valid()
      modifies this
      ensures Valid()
      ensures id !in old(projects) ==> r == Err(NotFound)
      ensures id in old(projects) && old(projects)[id].status == Done ==> r == Err(ProjectClosed)
      ensures id in old(projects) && old(projects)[id].status != Done && NameTaken(old(projects)[id].members, name)
              ==> r == Err(DuplicateMember)
      ensures r.Err? ==> unchanged(this)
      ensures r.Ok? <==> id in old(projects) && old(projects)[id].status != Done
                         && !NameTaken(old(projects)[id].members, name)
      ensures r.Ok? ==>
        && nextId == old(nextId) && order == old(order)
        && projects == old(projects)[id := old(projects)[id].(members := old(projects)[id].members + [Member(name, role)])]
    {
      if id !in projects {
        return Err(NotFound);
      }
      var p := projects[id];
      if Label(p.status) == "CONCLUÍDO" {
        return Err(ProjectClosed);
      }
      if NameTaken(p.members, name) {
        return Err(DuplicateMember);
      }
      AppendKeepsNamesDistinct(p.members, Member(name, role));
      projects := projects[id := p.(members := p.members + [Member(name, role)])];
      r := Ok(());
    }

    /** Updates a status: the ID must exist, then options are read until one
        selects a status, which overwrites the old one whatever it was. */
    method UpdateStatus(id: int, attempts: seq<Option<int>>) returns (r: Result<Status>)
      requires Valid()
      modifies this
      ensures Valid()
      ensures id !in old(projects) ==> r == Err(NotFound)
      ensures id in old(projects) && (forall j :: 0 <= j < |attempts| ==> !SelectsStatus(attempts[j]))
              ==> r == Err(EndOfInput)
      ensures r.Err? ==> unchanged(this)
      ensures r.Ok? <==> id in old(projects) && exists j :: 0 <= j < |attempts| && SelectsStatus(attempts[j])
      ensures r.Ok? ==>
        && (exists k :: 0 <= k < |attempts| && attempts[k] == Some(ChoiceOf(r.value))
                        && forall j :: 0 <= j < k ==> !SelectsStatus(attempts[j]))
        && nextId == old(nextId) && order == old(order)
        && projects == old(projects)[id := old(projects)[id].(status := r.value)]
    {
      if id !in projects {
        return Err(NotFound);
      }
      var status, k := ChooseStatus(attempts);
      if status.None? {
        return Err(EndOfInput);
      }
      StatusChoiceRoundTrip(status.value, attempts[k].value);
      var p := projects[id];
      projects := projects[id := p.(status := status.value)];
      r := Ok(status.value);
    }
  }

  // ---------------------------------------------------------------------------
  // Properties spanning several operations

  /** A rejected creation does not use up an ID: the next successful creation
      gets the ID it would have got had the rejected one never been tried. */
  method CreateAfterRejection(reg: Registry, rejected: (string, string, Option<real>, string),
                              title: string, deadline: string, budget: real, areas: string)
    returns (first: Result<int>, second: Result<int>)
    requires reg.Valid()
    requires Dates.ParseDate(rejected.1).None? || rejected.2.None?
    requires Dates.ParseDate(deadline).Some?
    modifies reg
    ensures reg.Valid()
    ensures first.Err? && second == Ok(old(reg.nextId))
    ensures reg.projects.Keys == old(reg.projects).Keys + {old(reg.nextId)}
  {
    first := reg.AddProject(rejected.0, rejected.1, rejected.2, rejected.3);
    second := reg.AddProject(title, deadline, Some(budget), areas);
  }

  /** Once a project is set to CONCLUÍDO (option 3), no member can join it. */
  method CloseThenAddMember(reg: Registry, id: int, name: string, role: string)
    returns (closed: Result<Status>, joined: Result<()>)
    requires reg.Valid() && id in reg.projects
    modifies reg
    ensures reg.Valid()
    ensures closed == Ok(Done) && joined == Err(ProjectClosed)
    ensures id in reg.projects && reg.projects[id].members == old(reg.projects)[id].members
  {
    var attempts := [Some(3)];
    assert SelectsStatus(attempts[0]);
    closed := reg.UpdateStatus(id, attempts);
    joined := reg.AddMember(id, name, role);
  }

  /** Adding "Ana" and then "ana" to an open project keeps only the first. */
  method SameNameTwice(reg: Registry, id: int, role1: string, role2: string)
    returns (first: Result<()>, second: Result<()>)
    requires reg.Valid() && id in reg.projects
    requires reg.projects[id].status != Done && !NameTaken(reg.projects[id].members, "Ana")
    modifies reg
    ensures reg.Valid()
    ensures first.Ok?
    ensures second == Err(DuplicateMember)
    ensures id in reg.projects
    ensures reg.projects[id].members == old(reg.projects)[id].members + [Member("Ana", role1)]
  {
    first := reg.AddMember(id, "Ana", role1);
    assert reg.projects[id].status == old(reg.projects)[id].status;
    assert NameTaken(reg.projects[id].members, "ana") by {
      var ms := reg.projects[id].members;
      assert ms[|ms| - 1] == Member("Ana", role1);
      assert Lower("Ana") == "ana" == Lower("ana");
    }
    second := reg.AddMember(id, "ana", role2);
  }

  /** An ID the registry never handed out is reported as not found by every
      operation that takes one, and nothing changes. */
  method UnknownId(reg: Registry, id: int, name: string, role: string, attempts: seq<Option<int>>)
    returns (shown: Result<Project>, joined: Result<()>, updated: Result<Status>)
    requires reg.Valid() && !(1 <= id < reg.nextId)
    modifies reg
    ensures shown == Err(NotFound) && joined == Err(NotFound) && updated == Err(NotFound)
    ensures unchanged(reg)
  {
    shown := reg.Detail(id);
    joined := reg.AddMember(id, name, role);
    updated := reg.UpdateStatus(id, attempts);
  }
}
