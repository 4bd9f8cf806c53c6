/**
 * The values the registry stores: projects, their members and status, and the
 * pure rules applied to them when a project is created, when a member joins and
 * when a status is chosen.
 */
module Projects {
  import opened Wrappers
  import opened Text
  import Dates

  // ---------------------------------------------------------------------------
  // Status

  datatype Status = Pending | InProgress | Done | Cancelled

  /** The label the registry stores and displays for each status: a new project's
      `PENDENTE`, and the `CONCLUÍDO` that closes a project to new members. */
  function Label(s: Status): (name: string)
    ensures name == "PENDENTE" <==> s == Pending
    ensures name == "CONCLUÍDO" <==> s == Done
  {
    match s
    case Pending => "PENDENTE"
    case InProgress => "EM ANDAMENTO"
    case Done => "CONCLUÍDO"
    case Cancelled => "CANCELADO"
  }

  /** Comparing stored labels is the same as comparing statuses. */
  lemma LabelInjective(a: Status, b: Status)
    requires Label(a) == Label(b)
    ensures a == b
  {
  }

  /** The status menu, in the order it is offered to the user (options 1 to 4). */
  const StatusOptions: seq<Status> := [Pending, InProgress, Done, Cancelled]

  /** The status menu offers the four labels in this order, as options 1 to 4. */
  lemma StatusMenuLabels()
    ensures |StatusOptions| == 4
    ensures forall i :: 0 <= i < 4 ==>
              Label(StatusOptions[i]) == ["PENDENTE", "EM ANDAMENTO", "CONCLUÍDO", "CANCELADO"][i]
  {
  }

  /** The status a typed option selects: only 1 to 4 select anything. */
  function StatusOfChoice(choice: int): (s: Option<Status>)
    ensures s.Some? <==> 1 <= choice <= 4
  {
    if 1 <= choice <= 4 then Some(StatusOptions[choice - 1]) else None
  }

  /** The option number under which a status is offered. */
  function ChoiceOf(s: Status): (choice: int)
    ensures 1 <= choice <= 4 && StatusOptions[choice - 1] == s
  {
    match s
    case Pending => 1
    case InProgress => 2
    case Done => 3
    case Cancelled => 4
  }

  /** Every status can be chosen, each by exactly one option. */
  lemma StatusChoiceRoundTrip(s: Status, choice: int)
    ensures StatusOfChoice(ChoiceOf(s)) == Some(s)
    ensures StatusOfChoice(choice) == Some(s) ==> choice == ChoiceOf(s)
  {
  }

  // ---------------------------------------------------------------------------
  // Members

  datatype Member = Member(name: string, role: string)

  /** The duplicate test of member addition: does any member's name equal `name`
      once both are lower-cased? */
  function NameTaken(members: seq<Member>, name: string): (taken: bool)
    ensures taken <==> exists i :: 0 <= i < |members| && Lower(members[i].name) == Lower(name)
  {
    if members == [] then false
    else Lower(members[0].name) == Lower(name) || NameTaken(members[1..], name)
  }

  /** No two members of a project share a name up to case. */
  ghost predicate DistinctNames(members: seq<Member>) {
    forall i, j :: 0 <= i < j < |members| ==> Lower(members[i].name) != Lower(members[j].name)
  }

  /** Appending a member whose name is not taken keeps the names distinct. */
  lemma AppendKeepsNamesDistinct(members: seq<Member>, m: Member)
    requires DistinctNames(members)
    requires !NameTaken(members, m.name)
    ensures DistinctNames(members + [m])
  {
    var ms := members + [m];
    forall i, j | 0 <= i < j < |ms|
      ensures Lower(ms[i].name) != Lower(ms[j].name)
    {
      if j == |members| {
        assert ms[i] == members[i];
      }
    }
  }

  /** "Ana" and "ana" are the same member name. */
  lemma NameTakenIgnoresCase(role: string)
    ensures NameTaken([Member("Ana", role)], "ana")
  {
    assert Lower("Ana") == "ana" == Lower("ana");
  }

  // ---------------------------------------------------------------------------
  // Knowledge areas

  /** A knowledge area as the registry keeps it: upper-case, trimmed, without commas. */
  predicate IsArea(a: string) {
    Upper(a) == a && Trimmed(a) && ',' !in a
  }

  function AreaOf(piece: string): string {
    Upper(Strip(piece))
  }

  /** A piece without a comma becomes a well-formed area. */
  lemma AreaOfIsArea(piece: string)
    requires ',' !in piece
    ensures IsArea(AreaOf(piece))
  {
    var t := Strip(piece);
    UpperKeepsTrimmed(t);
    UpperIdempotent(t);
  }

  lemma AreasOfPieces(pieces: seq<string>)
    requires forall k :: 0 <= k < |pieces| ==> ',' !in pieces[k]
    ensures forall k :: 0 <= k < |pieces| ==> IsArea(AreaOf(pieces[k]))
  {
    forall k | 0 <= k < |pieces|
      ensures IsArea(AreaOf(pieces[k]))
    {
      AreaOfIsArea(pieces[k]);
    }
  }

  /** The set of `strip().upper()` of every comma-separated piece of `text`:
      every area is upper-case, trimmed and comma-free. */
  function NormalizeAreas(text: string): (areas: set<string>)
    ensures forall a :: a in areas ==> IsArea(a)
  {
    AreasOfPieces(Split(text, ','));
    set piece | piece in Split(text, ',') :: AreaOf(piece)
  }

  /** There is always at least one area: even empty input yields the empty area. */
  lemma NormalizedAreasNonEmpty(text: string)
    ensures AreaOf(Split(text, ',')[0]) in NormalizeAreas(text)
    ensures NormalizeAreas(text) != {}
  {
  }

  /** A comma splits the input into two independent lists of areas. */
  lemma AreasOfConcat(x: string, y: string)
    ensures NormalizeAreas(x + "," + y) == NormalizeAreas(x) + NormalizeAreas(y)
  {
    SplitConcat(x, y, ',');
  }

  /** Input without a comma is a single area. */
  lemma AreasOfOnePiece(piece: string)
    requires ',' !in piece
    ensures NormalizeAreas(piece) == {AreaOf(piece)}
  {
    SplitWithoutSep(piece, ',');
  }

  /** Neither the order in which areas are typed nor repeating one changes the set. */
  lemma AreasIgnoreOrderAndRepetition(x: string, y: string)
    ensures NormalizeAreas(x + "," + y) == NormalizeAreas(y + "," + x)
    ensures NormalizeAreas(x + "," + x) == NormalizeAreas(x)
  {
    AreasOfConcat(x, y);
    AreasOfConcat(y, x);
    AreasOfConcat(x, x);
  }

  /** Normalising an already normal area gives that area alone. */
  lemma AreaIsFixedPoint(a: string)
    requires IsArea(a)
    ensures NormalizeAreas(a) == {a}
  {
    StripPadding([], a, []);
    assert [] + a + [] == a;
    assert AreaOf(a) == a;
    AreasOfOnePiece(a);
  }

  /** Empty input gives the one empty area, not the empty set. */
  lemma AreasOfEmptyInput()
    ensures NormalizeAreas("") == {""}
  {
    AreasOfOnePiece("");
    assert Upper(Strip("")) == "";
  }

  lemma AreaOfPaddedWord(a: string, t: string, b: string)
    requires AllSpace(a) && AllSpace(b) && Trimmed(t) && ',' !in a + t + b
    ensures NormalizeAreas(a + t + b) == {Upper(t)}
  {
    AreasOfOnePiece(a + t + b);
    StripPadding(a, t, b);
  }

  lemma UpperIa()
    ensures Upper("ia") == "IA"
  {
    var w := "ia";
    forall i | 0 <= i < |w| ensures Upper(w)[i] == "IA"[i] {
      assert UpperChar(w[i]) == "IA"[i];
    }
  }

  lemma AreasOfIa()
    ensures NormalizeAreas("ia") == {"IA"}
  {
    UpperIa();
    assert [] + "ia" + [] == "ia";
    AreaOfPaddedWord([], "ia", []);
  }

  lemma AreasOfSpaceIa()
    ensures NormalizeAreas(" ia") == {"IA"}
  {
    UpperIa();
    assert " " + "ia" + [] == " ia";
    AreaOfPaddedWord(" ", "ia", []);
  }

  lemma AreasOfRobotica()
    ensures NormalizeAreas(" Robótica ") == {"ROBÓTICA"}
  {
    var w := "Robótica";
    assert Upper(w) == "ROBÓTICA" by {
      forall i | 0 <= i < |w| ensures Upper(w)[i] == "ROBÓTICA"[i] {
        assert UpperChar(w[i]) == "ROBÓTICA"[i];
      }
    }
    assert " " + w + " " == " Robótica ";
    AreaOfPaddedWord(" ", w, " ");
  }

  /** "ia, Robótica , ia" gives exactly the areas IA and ROBÓTICA. */
  lemma AreasExample()
    ensures NormalizeAreas("ia, Robótica , ia") == {"IA", "ROBÓTICA"}
  {
    var rest := " Robótica " + "," + " ia";
    assert "ia, Robótica , ia" == "ia" + "," + rest;
    calc {
      NormalizeAreas("ia, Robótica , ia");
      { AreasOfConcat("ia", rest); }
      NormalizeAreas("ia") + NormalizeAreas(rest);
      { AreasOfConcat(" Robótica ", " ia"); }
      NormalizeAreas("ia") + (NormalizeAreas(" Robótica ") + NormalizeAreas(" ia"));
      { AreasOfIa(); AreasOfRobotica(); AreasOfSpaceIa(); }
      ({"IA"} + ({"ROBÓTICA"} + {"IA"}));
      ({"IA", "ROBÓTICA"});
    }
  }

  // ---------------------------------------------------------------------------
  // Projects

  /** A project record. `budget` is the number the budget text parsed to. */
  datatype Project = Project(
    title: string,
    deadline: string,
    budget: real,
    status: Status,
    areas: set<string>,
    members: seq<Member>)

  /** What the registry keeps true of every project it holds. */
  ghost predicate WellFormed(p: Project) {
    && Dates.ParseDate(p.deadline).Some?
    && (forall a :: a in p.areas ==> IsArea(a))
    && DistinctNames(p.members)
  }
}
