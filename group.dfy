/**
 * The "Group" section: the people list and the role buttons above it.
 * Pressing a button replaces the selected role; the list shown is the
 * people whose role equals the selection, or everyone for "All".
 */
module Group {
  import opened Wrappers
  import opened Filtering

  /** The closed set of roles a person can have. */
  datatype Role = PI | Postdoc | PhD | Masters | Alumni

  /**
   * One entry of the people list. `links` maps a link kind (scholar, orcid,
   * github, ...) to a URL; `year` is the graduation year, present for alumni.
   */
  datatype Person = Person(
    name: string,
    role: Role,
    field: string,
    email: string,
    img: string,
    links: map<string, string>,
    year: Option<int>)

  /** The selected button: the sentinel "All" or one role. */
  datatype RoleChoice = AllRoles | OnlyRole(role: Role)

  /** The buttons, in the order they are drawn; the page starts on the first. */
  const RoleButtons: seq<RoleChoice> :=
    [AllRoles, OnlyRole(PI), OnlyRole(Postdoc), OnlyRole(PhD), OnlyRole(Masters), OnlyRole(Alumni)]

  /** The text on a button, which is also the string the page stores as its filter. */
  function ChoiceLabel(c: RoleChoice): string {
    match c
    case AllRoles => "All"
    case OnlyRole(PI) => "PI"
    case OnlyRole(Postdoc) => "Postdoc"
    case OnlyRole(PhD) => "PhD"
    case OnlyRole(Masters) => "Masters"
    case OnlyRole(Alumni) => "Alumni"
  }

  /** The filter callback: `filter === "All" || p.role === filter`. */
  predicate IsShown(choice: RoleChoice, p: Person) {
    choice == AllRoles || p.role == choice.role
  }

  /** The people drawn for the current selection. */
  function PeopleShown(people: seq<Person>, choice: RoleChoice): seq<Person> {
    Filter(people, p => IsShown(choice, p))
  }

  /** Every role has a button, the first button is "All", and no two buttons carry the same text. */
  lemma RoleButtonsComplete()
    ensures RoleButtons[0] == AllRoles
    ensures forall r: Role :: OnlyRole(r) in RoleButtons
    ensures forall i, j :: 0 <= i < j < |RoleButtons| ==> ChoiceLabel(RoleButtons[i]) != ChoiceLabel(RoleButtons[j])
  {
    forall r: Role
      ensures OnlyRole(r) in RoleButtons
    {
      match r
      case PI => assert RoleButtons[1] == OnlyRole(r);
      case Postdoc => assert RoleButtons[2] == OnlyRole(r);
      case PhD => assert RoleButtons[3] == OnlyRole(r);
      case Masters => assert RoleButtons[4] == OnlyRole(r);
      case Alumni => assert RoleButtons[5] == OnlyRole(r);
    }
    forall i, j | 0 <= i < j < |RoleButtons|
      ensures ChoiceLabel(RoleButtons[i]) != ChoiceLabel(RoleButtons[j])
    {
      ChoiceLabelInjective(RoleButtons[i], RoleButtons[j]);
    }
  }

  /** Comparing labels is comparing choices, so the string state the page keeps loses nothing. */
  lemma ChoiceLabelInjective(c1: RoleChoice, c2: RoleChoice)
    ensures ChoiceLabel(c1) == ChoiceLabel(c2) <==> c1 == c2
  {
  }

  /** "All" shows the whole list, unchanged and in its own order. */
  lemma AllRolesShowsEveryone(people: seq<Person>)
    ensures PeopleShown(people, AllRoles) == people
  {
    FilterKeepsAll(people, p => IsShown(AllRoles, p));
  }

  /** A role button shows exactly the people with that role: nobody else, and nobody missing. */
  lemma OnlyRoleShowsExactly(people: seq<Person>, r: Role)
    ensures forall p :: p in PeopleShown(people, OnlyRole(r)) <==> p in people && p.role == r
  {
    FilterMembership(people, p => IsShown(OnlyRole(r), p));
  }

  /**
   * The list shown is the input read at the positions whose person passes,
   * in increasing position order: an order-preserving selection.
   */
  lemma PeopleShownInOrder(people: seq<Person>, choice: RoleChoice)
    ensures var shown, ps := PeopleShown(people, choice), KeptPositions(people, p => IsShown(choice, p));
      && IncreasingBelow(ps, |people|)
      && (forall j :: 0 <= j < |people| ==> (j in ps <==> IsShown(choice, people[j])))
      && |shown| == |ps| <= |people|
      && (forall k :: 0 <= k < |ps| ==> shown[k] == people[ps[k]])
  {
    KeptPositionsExact(people, p => IsShown(choice, p));
    FilterAtPositions(people, p => IsShown(choice, p));
  }
}
