/** The data-source logic of the employee detail screen: how many sections
    and rows it reports for one employee, and which cell or header it builds
    for an index. A summary section is always there; a contact section when
    the employee has an email or a phone; a projects section when the
    employee has projects. */
module EmployeeDetails {
  import opened Wrappers
  import opened EmployeeModel

  const ContactDetailsTitle: string := "Contact Details"
  const ProjectsTitle: string := "Projects"

  /** `employee.contactDetails?.email` */
  function Email(e: Employee): Option<string> {
    if e.contactDetails.Some? then e.contactDetails.value.email else None
  }

  /** `employee.contactDetails?.phone` */
  function Phone(e: Employee): Option<string> {
    if e.contactDetails.Some? then e.contactDetails.value.phone else None
  }

  predicate HasContactFields(e: Employee) {
    Email(e).Some? || Phone(e).Some?
  }

  predicate HasProjects(e: Employee) {
    e.projects.Some? && |e.projects.value| > 0
  }

  /** Which cell the screen builds for an index; `Fallthrough` is the
      assertion-failure path that returns a blank cell. */
  datatype Cell =
    | Summary(title: string, caption: string)
    | EmailCell(email: string)
    | PhoneCell(phone: string)
    | ProjectCell(name: string)
    | Fallthrough

  /** The section header: none, or a header view with a title. */
  datatype Header = NoHeader | Titled(title: string)

  // ---------------------------------------------------------------------
  // As written

  /** `numberOfSections(in:)`: one, plus one for contact fields, plus one
      for a non-empty project list. */
  function NumberOfSections(e: Employee): (r: nat)
    ensures 1 <= r <= 3
    ensures r == 1 + (if HasContactFields(e) then 1 else 0) + (if HasProjects(e) then 1 else 0)
  {
    var withContacts := if Email(e).Some? || Phone(e).Some? then 2 else 1;
    if e.projects.Some? && |e.projects.value| > 0 then withContacts + 1 else withContacts
  }

  /** `tableView(_:numberOfRowsInSection:)`. */
  function NumberOfRows(e: Employee, section: nat): nat {
    match section
    case 0 => 1
    case 1 =>
      var withEmail := if Email(e).Some? then 1 else 0;
      if Phone(e).Some? then withEmail + 1 else withEmail
    case 2 => if e.projects.Some? then |e.projects.value| else 0
    case _ => 0
  }

  /** `tableView(_:cellForRowAt:)`, which cell only. */
  function CellAt(e: Employee, section: nat, row: nat): Cell {
    if section == 0 then
      Summary(FullName(e), if e.position.Some? then Description(e.position.value) else "")
    else if section == 1 then
      if row == 0 && Email(e).Some? then EmailCell(Email(e).value)
      else if row == 1 && Phone(e).Some? then PhoneCell(Phone(e).value)
      else Fallthrough
    else if section == 2 then
      if e.projects.None? then Fallthrough
      else if |e.projects.value| <= row then Fallthrough
      else ProjectCell(e.projects.value[row])
    else Fallthrough
  }

  /** `tableView(_:viewForHeaderInSection:)`, which header only. */
  function HeaderAt(section: nat): Header {
    match section
    case 0 => NoHeader
    case 1 => Titled(ContactDetailsTitle)
    case 2 => Titled(ProjectsTitle)
    case _ => NoHeader
  }

  /** Section 0 always shows the summary: the full name and the position's
      description, or an empty caption. */
  lemma SummaryCell(e: Employee, row: nat)
    ensures CellAt(e, 0, row).Summary?
    ensures CellAt(e, 0, row).title == FullName(e)
    ensures e.position.None? <==> CellAt(e, 0, row).caption == ""
    ensures e.position.Some? ==> CellAt(e, 0, row).caption == Description(e.position.value)
  {
    if e.position.Some? {
      assert |Description(e.position.value)| > 0;
    }
  }

  /** In section 1, row 0 shows the email only if there is one and row 1
      the phone only if there is one; nothing else is shown there. */
  lemma ContactCellsAsWritten(e: Employee, row: nat)
    ensures CellAt(e, 1, row).EmailCell? <==> row == 0 && Email(e).Some?
    ensures CellAt(e, 1, row).PhoneCell? <==> row == 1 && Phone(e).Some?
    ensures CellAt(e, 1, row) != Fallthrough ==> CellAt(e, 1, row).EmailCell? || CellAt(e, 1, row).PhoneCell?
    ensures CellAt(e, 1, row).EmailCell? ==> CellAt(e, 1, row).email == Email(e).value
    ensures CellAt(e, 1, row).PhoneCell? ==> CellAt(e, 1, row).phone == Phone(e).value
  {
  }

  /** Section 2, row `r` shows project `r` exactly when there are more than `r` projects. */
  lemma ProjectCellsAsWritten(e: Employee, row: nat)
    ensures CellAt(e, 2, row).ProjectCell? <==> e.projects.Some? && row < |e.projects.value|
    ensures CellAt(e, 2, row).ProjectCell? ==> CellAt(e, 2, row).name == e.projects.value[row]
    ensures !CellAt(e, 2, row).ProjectCell? ==> CellAt(e, 2, row) == Fallthrough
  {
  }

  /** An index the table asks for: its section is below the section count
      and its row below that section's row count. */
  predicate Reachable(e: Employee, section: nat, row: nat) {
    section < NumberOfSections(e) && row < NumberOfRows(e, section)
  }

  /** With both contact fields or with only an email, every reachable
      contact row builds its cell. */
  lemma ContactRowsAgreeWithEmail(e: Employee, row: nat)
    requires Email(e).Some?
    requires Reachable(e, 1, row)
    ensures CellAt(e, 1, row) != Fallthrough
  {
  }

  /** With a phone but no email, section 1 reports one row and that row
      falls through: the phone is never shown. */
  lemma PhoneOnlyRowFallsThrough(e: Employee)
    requires Email(e).None? && Phone(e).Some?
    ensures Reachable(e, 1, 0) && CellAt(e, 1, 0) == Fallthrough
    ensures forall row :: Reachable(e, 1, row) ==> CellAt(e, 1, row) == Fallthrough
  {
  }

  /** Every index the table asks for builds a cell exactly when the
      employee is not one with a phone and no email. */
  lemma CountedCellsBuild(e: Employee)
    ensures (forall s, r :: Reachable(e, s, r) ==> CellAt(e, s, r) != Fallthrough) <==>
      !(Email(e).None? && Phone(e).Some?)
  {
    if Email(e).None? && Phone(e).Some? {
      PhoneOnlyRowFallsThrough(e);
    } else {
      forall s: nat, r: nat | Reachable(e, s, r)
        ensures CellAt(e, s, r) != Fallthrough
      {
        if s == 1 {
          ContactRowsAgreeWithEmail(e, r);
        }
      }
    }
  }

  /** With projects but no contact fields there are two sections; section 1
      has no rows and section 2 is never asked for, so no project is shown,
      while section 1 still gets the contact-details header. */
  lemma ProjectsUnreachableWithoutContacts(e: Employee)
    requires !HasContactFields(e) && HasProjects(e)
    ensures NumberOfSections(e) == 2 && NumberOfRows(e, 1) == 0
    ensures HeaderAt(1) == Titled(ContactDetailsTitle)
    ensures forall s, r :: Reachable(e, s, r) ==> !CellAt(e, s, r).ProjectCell?
  {
    forall s: nat, r: nat | Reachable(e, s, r)
      ensures !CellAt(e, s, r).ProjectCell?
    {
      assert s == 0;
    }
  }

  /** A concrete employee of the second kind. */
  lemma ProjectsOnlyExample()
    ensures var e := Employee(Some("Ann"), Some("Lee"), None, None, Some(["Maps"]), None);
      NumberOfSections(e) == 2 && NumberOfRows(e, 1) == 0 && NumberOfRows(e, 2) == 1 &&
      !Reachable(e, 2, 0) && CellAt(e, 2, 0) == ProjectCell("Maps")
  {
  }

  // ---------------------------------------------------------------------
  // As intended: sections are numbered by what is present, and the
  // contact rows are the present fields in order.

  datatype SectionKind = SummarySection | ContactSection | ProjectsSection

  /** The sections the screen has, in display order. */
  function Sections(e: Employee): (ks: seq<SectionKind>)
    ensures |ks| == NumberOfSections(e)
    ensures ks[0] == SummarySection
    ensures ContactSection in ks <==> HasContactFields(e)
    ensures ProjectsSection in ks <==> HasProjects(e)
    ensures HasContactFields(e) ==> ks[1] == ContactSection
    ensures HasProjects(e) ==> ks[|ks| - 1] == ProjectsSection
  {
    [SummarySection]
      + (if HasContactFields(e) then [ContactSection] else [])
      + (if HasProjects(e) then [ProjectsSection] else [])
  }

  /** The contact rows: the email when present, then the phone when present. */
  function ContactRows(e: Employee): (cells: seq<Cell>)
    ensures |cells| == NumberOfRows(e, 1)
    ensures forall i :: 0 <= i < |cells| ==> cells[i].EmailCell? || cells[i].PhoneCell?
    ensures Email(e).Some? ==> cells[0] == EmailCell(Email(e).value)
    ensures Phone(e).Some? ==> cells[|cells| - 1] == PhoneCell(Phone(e).value)
  {
    (if Email(e).Some? then [EmailCell(Email(e).value)] else [])
      + (if Phone(e).Some? then [PhoneCell(Phone(e).value)] else [])
  }

  function IntendedNumberOfRows(e: Employee, section: nat): nat {
    if section >= |Sections(e)| then 0
    else
      match Sections(e)[section]
      case SummarySection => 1
      case ContactSection => |ContactRows(e)|
      case ProjectsSection => |e.projects.value|
  }

  function IntendedCellAt(e: Employee, section: nat, row: nat): Cell {
    if section >= |Sections(e)| then Fallthrough
    else
      match Sections(e)[section]
      case SummarySection => CellAt(e, 0, row)
      case ContactSection => if row < |ContactRows(e)| then ContactRows(e)[row] else Fallthrough
      case ProjectsSection => CellAt(e, 2, row)
  }

  function IntendedHeaderAt(e: Employee, section: nat): Header {
    if section >= |Sections(e)| then NoHeader
    else
      match Sections(e)[section]
      case SummarySection => NoHeader
      case ContactSection => Titled(ContactDetailsTitle)
      case ProjectsSection => Titled(ProjectsTitle)
  }

  predicate IntendedReachable(e: Employee, section: nat, row: nat) {
    section < NumberOfSections(e) && row < IntendedNumberOfRows(e, section)
  }

  /** Corrected: every index the table asks for builds a cell. */
  lemma IntendedCellsNeverFallThrough(e: Employee, section: nat, row: nat)
    requires IntendedReachable(e, section, row)
    ensures IntendedCellAt(e, section, row) != Fallthrough
  {
  }

  /** Corrected: every present contact field and every project is shown at
      some index the table asks for. */
  lemma IntendedShowsEverything(e: Employee)
    ensures Email(e).Some? ==> exists s, r :: IntendedReachable(e, s, r) && IntendedCellAt(e, s, r) == EmailCell(Email(e).value)
    ensures Phone(e).Some? ==> exists s, r :: IntendedReachable(e, s, r) && IntendedCellAt(e, s, r) == PhoneCell(Phone(e).value)
    ensures e.projects.Some? ==> forall j :: 0 <= j < |e.projects.value| ==>
      exists s, r :: IntendedReachable(e, s, r) && IntendedCellAt(e, s, r) == ProjectCell(e.projects.value[j])
  {
    if Email(e).Some? {
      assert IntendedReachable(e, 1, 0) && IntendedCellAt(e, 1, 0) == EmailCell(Email(e).value);
    }
    if Phone(e).Some? {
      var r := if Email(e).Some? then 1 else 0;
      assert ContactRows(e)[r] == PhoneCell(Phone(e).value);
      assert IntendedReachable(e, 1, r) && IntendedCellAt(e, 1, r) == PhoneCell(Phone(e).value);
    }
    if e.projects.Some? {
      var s := if HasContactFields(e) then 2 else 1;
      forall j | 0 <= j < |e.projects.value|
        ensures exists s, r :: IntendedReachable(e, s, r) && IntendedCellAt(e, s, r) == ProjectCell(e.projects.value[j])
      {
        assert Sections(e)[s] == ProjectsSection;
        assert IntendedReachable(e, s, j) && IntendedCellAt(e, s, j) == ProjectCell(e.projects.value[j]);
      }
    }
  }

  /** Corrected: the section count is unchanged, each section gets the
      header of what it shows, and where the as-written screen was right
      (an email present, or neither contact fields nor projects) the two agree. */
  lemma IntendedAgreesWhereWritten(e: Employee, section: nat, row: nat)
    ensures |Sections(e)| == NumberOfSections(e)
    ensures section < |Sections(e)| ==>
      IntendedHeaderAt(e, section) == HeaderAt(match Sections(e)[section]
        case SummarySection => 0 case ContactSection => 1 case ProjectsSection => 2)
    ensures Email(e).Some? || (!HasContactFields(e) && !HasProjects(e)) ==>
      IntendedNumberOfRows(e, section) == NumberOfRows(e, section) &&
      IntendedCellAt(e, section, row) == (if section < NumberOfSections(e) then CellAt(e, section, row) else Fallthrough)
  {
  }
}
