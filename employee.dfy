/** The employee record, its display name, its (lastName, firstName) order and
    identity, and the closed set of positions with their raw values and
    descriptions. */
module EmployeeModel {
  import opened Wrappers
  import opened Strings

  datatype Position = IOS | PM | OTHER | WEB | ANDROID | SALES | TESTER

  datatype ContactDetails = ContactDetails(email: Option<string>, phone: Option<string>)

  /** Every decoded field is optional; `contactsCardIdentifier` is the one
      field the app overwrites after decoding. */
  datatype Employee = Employee(
    firstName: Option<string>,
    lastName: Option<string>,
    position: Option<Position>,
    contactDetails: Option<ContactDetails>,
    projects: Option<seq<string>>,
    contactsCardIdentifier: Option<string>)

  /** `fullName`: the first name, one space, the last name; an absent name is empty. */
  function FullName(e: Employee): (r: string)
    ensures |r| == |e.firstName.GetOr("")| + |e.lastName.GetOr("")| + 1
    ensures r[..|e.firstName.GetOr("")|] == e.firstName.GetOr("")
    ensures r[|e.firstName.GetOr("")|] == ' '
    ensures r[|e.firstName.GetOr("")| + 1..] == e.lastName.GetOr("")
  {
    e.firstName.GetOr("") + " " + e.lastName.GetOr("")
  }

  /** When first names hold no space, the full name determines both names
      (with an absent name read as empty). */
  lemma FullNameInjective(a: Employee, b: Employee)
    requires ' ' !in a.firstName.GetOr("") && ' ' !in b.firstName.GetOr("")
    requires FullName(a) == FullName(b)
    ensures a.firstName.GetOr("") == b.firstName.GetOr("")
    ensures a.lastName.GetOr("") == b.lastName.GetOr("")
  {
  }

  /** Employee `<`, as written: an absent name only sorts against another absent name. */
  predicate Less(a: Employee, b: Employee) {
    if a.lastName.None? || b.lastName.None? then
      a.lastName.None? && b.lastName.None?
    else if a.lastName.value != b.lastName.value then
      StrLess(a.lastName.value, b.lastName.value)
    else if a.firstName.None? || b.firstName.None? then
      a.firstName.None? && b.firstName.None?
    else
      StrLess(a.firstName.value, b.firstName.value)
  }

  /** Employee `==`, as written. Its first branch can only yield false, so
      equality is exactly equality of both names. */
  function Eq(a: Employee, b: Employee): (r: bool)
    ensures r <==> a.lastName == b.lastName && a.firstName == b.firstName
  {
    if a.lastName != b.lastName then a.lastName == b.lastName
    else a.firstName == b.firstName
  }

  /** Both names present: the employees `<` is meant for. */
  predicate Named(e: Employee) {
    e.lastName.Some? && e.firstName.Some?
  }

  /** Two absent last names: `<` holds whatever the first names, so `e < e`
      holds for every employee without a last name. */
  lemma LessWithoutLastNames(a: Employee, b: Employee)
    requires a.lastName.None? && b.lastName.None?
    ensures Less(a, b) && Less(b, a) && Less(a, a)
  {
  }

  /** Equal last names and two absent first names: `<` holds both ways too. */
  lemma LessWithoutFirstNames(a: Employee, b: Employee)
    requires a.lastName.Some? && a.lastName == b.lastName
    requires a.firstName.None? && b.firstName.None?
    ensures Less(a, b) && Less(b, a)
  {
  }

  /** Exactly one last name absent, or equal last names and exactly one first
      name absent: the two employees are incomparable. */
  lemma LessIncomparable(a: Employee, b: Employee)
    requires
      || (a.lastName.None? != b.lastName.None?)
      || (a.lastName.Some? && a.lastName == b.lastName && a.firstName.None? != b.firstName.None?)
    ensures !Less(a, b) && !Less(b, a)
  {
  }

  /** Different present last names decide the order alone. */
  lemma LessByLastName(a: Employee, b: Employee)
    requires a.lastName.Some? && b.lastName.Some? && a.lastName != b.lastName
    ensures Less(a, b) <==> StrLess(a.lastName.value, b.lastName.value)
  {
  }

  /** Equal last names and present first names: the first names decide. */
  lemma LessByFirstName(a: Employee, b: Employee)
    requires a.lastName.Some? && a.lastName == b.lastName
    requires a.firstName.Some? && b.firstName.Some?
    ensures Less(a, b) <==> StrLess(a.firstName.value, b.firstName.value)
  {
  }

  lemma LessIrreflexive(e: Employee)
    requires Named(e)
    ensures !Less(e, e)
  {
    StrLessIrreflexive(e.firstName.value);
  }

  lemma LessAsymmetric(a: Employee, b: Employee)
    requires Named(a) && Named(b)
    requires Less(a, b)
    ensures !Less(b, a)
  {
    if a.lastName != b.lastName {
      StrLessAsymmetric(a.lastName.value, b.lastName.value);
    } else {
      StrLessAsymmetric(a.firstName.value, b.firstName.value);
    }
  }

  lemma LessTransitive(a: Employee, b: Employee, c: Employee)
    requires Named(a) && Named(b) && Named(c)
    requires Less(a, b) && Less(b, c)
    ensures Less(a, c)
  {
    var la, lb, lc := a.lastName.value, b.lastName.value, c.lastName.value;
    if la != lb && lb != lc {
      StrLessTransitive(la, lb, lc);
      StrLessIrreflexive(la);
    } else if la == lb && lb == lc {
      StrLessTransitive(a.firstName.value, b.firstName.value, c.firstName.value);
    }
  }

  /** For named employees exactly one of `a < b`, `a == b`, `b < a` holds. */
  lemma LessTrichotomy(a: Employee, b: Employee)
    requires Named(a) && Named(b)
    ensures Less(a, b) || Eq(a, b) || Less(b, a)
    ensures !(Less(a, b) && Eq(a, b)) && !(Less(b, a) && Eq(a, b)) && !(Less(a, b) && Less(b, a))
  {
    if a.lastName != b.lastName {
      StrLessTotal(a.lastName.value, b.lastName.value);
    } else if a.firstName != b.firstName {
      StrLessTotal(a.firstName.value, b.firstName.value);
    } else {
      LessIrreflexive(a);
    }
    if Less(a, b) {
      LessAsymmetric(a, b);
    }
  }

  /** Without the names, trichotomy fails: an employee with no last name is
      both equal to and less than itself. */
  lemma TrichotomyFailsWithoutLastName(e: Employee)
    requires e.lastName.None?
    ensures Eq(e, e) && Less(e, e)
  {
  }

  /** `==` looks at the two names only. */
  lemma EqIgnoresOtherFields(a: Employee, b: Employee, p: Option<Position>, c: Option<ContactDetails>,
                             ps: Option<seq<string>>, id: Option<string>)
    ensures Eq(a, b) == Eq(a.(position := p, contactDetails := c, projects := ps, contactsCardIdentifier := id), b)
  {
  }

  /** The raw values the JSON decoder accepts for `position`. */
  function RawValue(p: Position): string {
    match p
    case IOS => "IOS"
    case PM => "PM"
    case OTHER => "OTHER"
    case WEB => "WEB"
    case ANDROID => "ANDROID"
    case SALES => "SALES"
    case TESTER => "TESTER"
  }

  /** `EmployeePosition(rawValue:)`: any other string is rejected. */
  function ParsePosition(s: string): Option<Position> {
    if s == "IOS" then Some(IOS)
    else if s == "PM" then Some(PM)
    else if s == "OTHER" then Some(OTHER)
    else if s == "WEB" then Some(WEB)
    else if s == "ANDROID" then Some(ANDROID)
    else if s == "SALES" then Some(SALES)
    else if s == "TESTER" then Some(TESTER)
    else None
  }

  /** Parsing a raw value gives back its position ... */
  lemma ParseRawValue(p: Position)
    ensures ParsePosition(RawValue(p)) == Some(p)
  {
  }

  /** ... and parsing succeeds only on a raw value, so the raw values are distinct. */
  lemma ParseOnlyRawValues(s: string, p: Position)
    requires ParsePosition(s) == Some(p)
    ensures RawValue(p) == s
  {
  }

  /** `description`, with the English texts. */
  function Description(p: Position): string {
    match p
    case IOS => "iOS Developer"
    case PM => "Project Manager"
    case OTHER => "Other Staff"
    case WEB => "Web Developer"
    case ANDROID => "Android Developer"
    case SALES => "Sales"
    case TESTER => "Software Tester"
  }

  /** Position `<`: lowercased descriptions compared as strings. */
  predicate PositionLess(a: Position, b: Position) {
    StrLess(Lowercased(Description(a)), Lowercased(Description(b)))
  }

  /** Alphabetical place of each lowercased description. */
  function AlphabeticalRank(p: Position): nat {
    match p
    case ANDROID => 0
    case IOS => 1
    case OTHER => 2
    case PM => 3
    case SALES => 4
    case TESTER => 5
    case WEB => 6
  }

  /** The first two characters of each lowercased description: enough to
      order them all. */
  lemma LowercasedDescriptionStart(p: Position)
    ensures |Lowercased(Description(p))| >= 2
    ensures Lowercased(Description(p))[..2] ==
      match p
      case IOS => "io"
      case PM => "pr"
      case OTHER => "ot"
      case WEB => "we"
      case ANDROID => "an"
      case SALES => "sa"
      case TESTER => "so"
  {
    var d := Description(p);
    assert Lowercased(d)[..2] == [Lower(d[0]), Lower(d[1])];
  }

  /** Position order is the alphabetical order of the descriptions. */
  lemma PositionLessByRank(a: Position, b: Position)
    ensures PositionLess(a, b) <==> AlphabeticalRank(a) < AlphabeticalRank(b)
  {
    var x, y := Lowercased(Description(a)), Lowercased(Description(b));
    if a == b {
      StrLessIrreflexive(x);
    } else {
      LowercasedDescriptionStart(a);
      LowercasedDescriptionStart(b);
      assert x[0] == x[..2][0] && x[1] == x[..2][1];
      assert y[0] == y[..2][0] && y[1] == y[..2][1];
      if x[0] == y[0] {
        assert x[1..][0] == x[1] && y[1..][0] == y[1];
      }
    }
  }

  /** Position order is a strict total order on the seven positions. */
  lemma PositionLessStrictTotalOrder(a: Position, b: Position, c: Position)
    ensures !PositionLess(a, a)
    ensures a != b ==> PositionLess(a, b) || PositionLess(b, a)
    ensures PositionLess(a, b) ==> !PositionLess(b, a)
    ensures PositionLess(a, b) && PositionLess(b, c) ==> PositionLess(a, c)
  {
    PositionLessByRank(a, a);
    PositionLessByRank(a, b);
    PositionLessByRank(b, a);
    PositionLessByRank(b, c);
    PositionLessByRank(a, c);
  }
}
