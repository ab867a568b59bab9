# ListOfEmployees: the model layer in Dafny

ListOfEmployees is an iOS employee directory. It downloads JSON rosters, caches
the raw payloads on disk, decodes and merges them into one list of employees,
optionally links each employee to a card in the device's Contacts, and shows
the result in a grouped table with a detail screen per employee. This project
models the parts of that app whose behaviour can be stated exactly:

- **Employee identity and ordering** (`employee.dfy`, module `EmployeeModel`):
  the `Employee` record and `fullName` (`FullName`). The `(lastName,
  firstName)` comparison `<` is the predicate `Less`, written branch for
  branch as the Swift, and `==` is `Eq`. `EmployeePosition` has its raw values
  (`RawValue`, `ParsePosition`), its descriptions (`Description`) and its
  order (`PositionLess`). Swift `String` comparison is `Strings.StrLess` and
  `lowercased()` is `Strings.Lowercased`, both in `strings.dfy`.
- **Decode-and-merge and contact enrichment** (`data_mapper.dfy`, module
  `DataMapper`): `parse` (`Parse`) decodes every payload and appends the
  lists in order, all or nothing; `DecodeAll` is that loop as a function.
  With a contacts store it then runs `fillEmployeesListWithContactsIdentifiers`
  (`FillContactIdentifiers`, specified by the function `Enriched`). That asks
  `getContactIdentifier` (`GetContactIdentifier`, with `FirstMatch` for the
  scan of the store's answer) for each employee and keeps the original list
  if any query throws. The JSON decoder (`Decoder`) and the store's name
  query (`ContactLookup`) are function parameters that return a `Result`.
- **On-disk cache** (`cache_storage.dfy`, module `PersistentCache`): class
  `CacheStorage` holds the cache directory as a map from file name to bytes,
  plus the `isDataCached` flag. Dot files are hidden from listings
  (`Hidden`, `VisibleNames`). Caching (`Cache`) cleans the directory
  (`CleanCacheDirectory`, `CleanDirectory`) and then writes `data0` …
  `data{n-1}` (`WriteDataFiles`; the resulting files are the function
  `Written`). Reading (`StartReadingCacheData`) lists the directory and
  loads every listed file. Which I/O step throws is a parameter (`IoFault`,
  `writeFailsAt`). The order of a directory listing is not fixed, so the
  loops pick the next name with a nondeterministic choice.
- **Grouped table** (`employees_table.dfy`, module `EmployeesTable`): class
  `EmployeesTableController` has the `employees` grouping (key character to
  employees). There is one section per key (`NumberOfSections`), and
  `EmployeesArray` maps section `s` to the group of the `s`-th key
  in ascending order (`SortedKeys`), and `EmployeeAt` looks up
  `(section, row)` with bounds checks.
- **Detail screen** (`employee_details.dfy`, module `EmployeeDetails`): pure
  functions of one employee give the section count (`NumberOfSections`), the
  row counts (`NumberOfRows`), the cell an index builds (`CellAt`) and the
  header a section gets (`HeaderAt`). The row counts and the cell lookup
  disagree for some employees (see Findings). The module also has an
  intended numbering (`Sections`, `IntendedCellAt`) that is proved to show
  every field.

Three behaviours of the code are easy to miss, and the model keeps them:

- A failed store query abandons the whole enrichment and returns the list
  unchanged (ListOfEmployees/Model/DataMapper.swift:70-79).
- Contacts are found by querying the store with the lowercased first name
  and then comparing lowercased family names
  (ListOfEmployees/Model/DataMapper.swift:87-95).
- Employee `<` is not a total order when names are missing. `e < e` holds
  for every employee missing a name (no last name, or a last name and no
  first name). Two employees are incomparable when exactly one last name is
  missing, or when the last names are equal and exactly one first name is
  missing (ListOfEmployees/Model/Employee.swift:36-46).

## Model

| member | source | states |
|---|---|---|
| `Strings.StrLessIsLexLess` | ListOfEmployees/Model/Employee.swift:40-48 | String `<` as used by the comparator is lexicographic: a proper prefix, or a smaller character at the first difference |
| `Strings.StrLessIrreflexive` | ListOfEmployees/Model/Employee.swift:40-48 | no string is below itself |
| `Strings.StrLessAsymmetric` | ListOfEmployees/Model/Employee.swift:40-48 | string order is asymmetric |
| `Strings.StrLessTransitive` | ListOfEmployees/Model/Employee.swift:40-48 | string order is transitive |
| `Strings.StrLessTotal` | ListOfEmployees/Model/Employee.swift:40-48 | two different strings are ordered one way or the other |
| `EmployeeModel.FullName` | ListOfEmployees/Model/Employee.swift:19-21 | the full name is the first name (empty if absent), one space, the last name (empty if absent); length is the sum plus one |
| `EmployeeModel.FullNameInjective` | ListOfEmployees/Model/Employee.swift:19-21 | if first names contain no space, equal full names mean equal first and last names |
| `EmployeeModel.Eq` | ListOfEmployees/Model/Employee.swift:52-59 | `==` holds exactly when last and first names are both equal; the first branch can only give false |
| `EmployeeModel.EqIgnoresOtherFields` | ListOfEmployees/Model/Employee.swift:52-59 | position, contact details, projects and card identifier do not affect `==` |
| `EmployeeModel.LessWithoutLastNames` | ListOfEmployees/Model/Employee.swift:36-38 | with both last names absent, `<` holds both ways and `e < e` holds |
| `EmployeeModel.LessWithoutFirstNames` | ListOfEmployees/Model/Employee.swift:44-46 | with equal last names and both first names absent, `<` holds both ways |
| `EmployeeModel.LessIncomparable` | ListOfEmployees/Model/Employee.swift:36-46 | exactly one last name absent, or equal last names with exactly one first name absent: neither `a < b` nor `b < a` |
| `EmployeeModel.LessByLastName` | ListOfEmployees/Model/Employee.swift:40-42 | different present last names: `a < b` iff the last names are in string order |
| `EmployeeModel.LessByFirstName` | ListOfEmployees/Model/Employee.swift:44-48 | equal last names, present first names: `a < b` iff the first names are in string order |
| `EmployeeModel.LessIrreflexive` | ListOfEmployees/Model/Employee.swift:33-49 | for an employee with both names, `e < e` is false |
| `EmployeeModel.LessAsymmetric` | ListOfEmployees/Model/Employee.swift:33-49 | with both names present everywhere, `a < b` excludes `b < a` |
| `EmployeeModel.LessTransitive` | ListOfEmployees/Model/Employee.swift:33-49 | with both names present everywhere, `<` is transitive |
| `EmployeeModel.LessTrichotomy` | ListOfEmployees/Model/Employee.swift:33-59 | with both names present, exactly one of `a < b`, `a == b`, `b < a` holds |
| `EmployeeModel.TrichotomyFailsWithoutLastName` | ListOfEmployees/Model/Employee.swift:36-38 | an employee without a last name is both equal to and less than itself |
| `EmployeeModel.ParseRawValue` | ListOfEmployees/Model/Employee.swift:61-68 | parsing each position's raw value gives that position back |
| `EmployeeModel.ParseOnlyRawValues` | ListOfEmployees/Model/Employee.swift:61-68 | parsing succeeds only on a raw value, and only for its own position, so the raw values are distinct |
| `EmployeeModel.PositionLessByRank` | ListOfEmployees/Model/Employee.swift:70-94 | position `<` (lowercased descriptions) orders ANDROID, IOS, OTHER, PM, SALES, TESTER, WEB, the alphabetical order of their descriptions |
| `EmployeeModel.PositionLessStrictTotalOrder` | ListOfEmployees/Model/Employee.swift:90-94 | position `<` is irreflexive, asymmetric, transitive and total on distinct positions |
| `DataMapper.DecodeAllIsConcatenation` | ListOfEmployees/Model/DataMapper.swift:36-40 | the batch decodes iff every payload decodes; it is then the in-order concatenation of the payloads' lists; otherwise its error is that of the first failing payload |
| `DataMapper.DecodeAllLength` | ListOfEmployees/Model/DataMapper.swift:36-40 | a decoded batch is as long as the payloads' lists together; no payloads give the empty list |
| `DataMapper.DecodeAllFailedPrefix` | ListOfEmployees/Model/DataMapper.swift:37-38 | once a prefix of the batch fails, the whole batch fails with that error |
| `DataMapper.Parse` | ListOfEmployees/Model/DataMapper.swift:28-51 | the completion gets an error and no list iff decoding fails; otherwise the decoded list, passed through unchanged without a store and enriched with one |
| `DataMapper.FirstMatch` | ListOfEmployees/Model/DataMapper.swift:89-95 | the identifier of the first contact in store order whose lowercased family name equals the lowercased last name; none iff no contact matches |
| `DataMapper.GetContactIdentifier` | ListOfEmployees/Model/DataMapper.swift:82-96 | no first name gives no identifier whatever the store does; the call fails iff the store's query for the lowercased first name fails; otherwise the result is the identifier of the first contact, in store order, whose lowercased family name matches the lowercased last name, and none iff no contact matches (always none without a last name) |
| `DataMapper.FillContactIdentifiers` | ListOfEmployees/Model/DataMapper.swift:68-80 | the result is every employee with its identifier overwritten when every lookup succeeds, and the original list otherwise |
| `DataMapper.EnrichedChangesOnlyIdentifiers` | ListOfEmployees/Model/DataMapper.swift:69-74 | enrichment keeps length, order and every field except the card identifier |
| `DataMapper.EnrichedOverwritesAll` | ListOfEmployees/Model/DataMapper.swift:69-74 | on success every identifier is overwritten, with none where no contact matches or the first name is absent |
| `DataMapper.EnrichedAllOrNothing` | ListOfEmployees/Model/DataMapper.swift:70-79 | one failing lookup leaves the whole list as it was |
| `PersistentCache.FileName` | ListOfEmployees/Model/PersistentCacheStorage.swift:68 | the positional names `data{i}` are never hidden |
| `PersistentCache.DecimalInjective` | ListOfEmployees/Model/PersistentCacheStorage.swift:68 | different indices print as different decimal strings, so `data{i}` names are distinct |
| `PersistentCache.WrittenFiles` | ListOfEmployees/Model/PersistentCacheStorage.swift:67-72 | writing n payloads produces exactly `data0` … `data{n-1}`, with `data{i}` holding payload `i` |
| `PersistentCache.HiddenPartAfterWrites` | ListOfEmployees/Model/PersistentCacheStorage.swift:67-72 | writing the positional files leaves the hidden files as they were, and the listed names are exactly the written ones |
| `PersistentCache.ReadBackFiles` | ListOfEmployees/Model/PersistentCacheStorage.swift:91-98 | reading every listed file of a directory, in any listing order, yields the files' contents counted with multiplicity |
| `PersistentCache.ReadBackWritten` | ListOfEmployees/Model/PersistentCacheStorage.swift:91-98 | reading the written files back in any listing order gives the written payloads as a multiset |
| `PersistentCache.CacheStorage.Open` | ListOfEmployees/Model/PersistentCacheStorage.swift:35-52 | initialisation fails iff the caches directory cannot be found, or the directory is missing and cannot be created; afterwards the flag is set iff the directory already existed, and a new directory is empty |
| `PersistentCache.CacheStorage.CleanDirectory` | ListOfEmployees/Model/PersistentCacheStorage.swift:114-119 | succeeds iff listing and every removal succeed, and then only hidden files remain; hidden files are never removed; a removal failure at position k leaves exactly k files removed |
| `PersistentCache.CacheStorage.CleanCacheDirectory` | ListOfEmployees/Model/PersistentCacheStorage.swift:109-119 | successful cleaning leaves only hidden files and clears the flag; a failure leaves the flag as it was; hidden files never change; a listing failure leaves the directory untouched; a removal failure at position k leaves exactly k files removed |
| `PersistentCache.CacheStorage.Cache` | ListOfEmployees/Model/PersistentCacheStorage.swift:56-81 | success iff cleaning and every write succeed; the flag is set iff it succeeded; on success the directory is the hidden files plus exactly `data0` … `data{n-1}`; after a failed write at k the files `data0` … `data{k-1}` remain; a listing failure leaves the old cache untouched; a removal failure at position k leaves exactly k files removed; hidden files never change |
| `PersistentCache.CacheStorage.WriteDataFiles` | ListOfEmployees/Model/PersistentCacheStorage.swift:67-72 | every write succeeds iff no write fails before the end; the directory gains exactly `data0` … `data{n-1}`, or `data0` … `data{k-1}` when write k fails; the flag is untouched |
| `PersistentCache.CacheStorage.StartReadingCacheData` | ListOfEmployees/Model/PersistentCacheStorage.swift:83-105 | payloads are delivered iff listing and every read succeed; then one payload per non-hidden file, in listing order; directory and flag are untouched |
| `PersistentCache.CacheThenReadRoundTrip` | ListOfEmployees/Model/PersistentCacheStorage.swift:65-98 | the state a successful cache leaves, read back successfully, gives the cached payloads as a multiset |
| `PersistentCache.CacheThenRead` | ListOfEmployees/Model/PersistentCacheStorage.swift:56-105 | caching and then reading with no failure returns the cached payloads up to order and leaves the flag set |
| `EmployeesTable.SortedKeys` | ListOfEmployees/Controllers/EmployeesTableViewController.swift:86 | the sorted keys are as many as the keys, and each is a key |
| `EmployeesTable.SortedKeysComplete` | ListOfEmployees/Controllers/EmployeesTableViewController.swift:86 | every key appears among the sorted keys |
| `EmployeesTable.SortedKeysAscending` | ListOfEmployees/Controllers/EmployeesTableViewController.swift:86 | the sorted keys are strictly ascending, so each key appears once |
| `EmployeesTable.SortedKeyRank` | ListOfEmployees/Controllers/EmployeesTableViewController.swift:86-91 | the key at position `i` of the sorted keys has exactly `i` keys below it |
| `EmployeesTable.EmployeesTableController.constructor` | ListOfEmployees/Controllers/EmployeesTableViewController.swift:21-27 | the grouping starts empty, so there are no sections |
| `EmployeesTable.EmployeesTableController.Reload` | ListOfEmployees/Controllers/EmployeesTableViewController.swift:77-83 | the grouping is replaced wholesale by the provider's, as on appearance and on each update notification |
| `EmployeesTable.EmployeesTableController.EveryKeyHasItsSection` | ListOfEmployees/Controllers/EmployeesTableViewController.swift:54-57 | one section per key: every key has a section below the section count, numbered by how many keys are below it, and that section shows the key's group |
| `EmployeesTable.EmployeesTableController.EmployeesArray` | ListOfEmployees/Controllers/EmployeesTableViewController.swift:85-97 | a group is returned iff the section is below the key count, and it is the group of the key with exactly `section` keys below it |
| `EmployeesTable.EmployeesTableController.NumberOfRows` | ListOfEmployees/Controllers/EmployeesTableViewController.swift:59-61 | the section's group size, 0 when out of range |
| `EmployeesTable.EmployeesTableController.EmployeeAt` | ListOfEmployees/Controllers/EmployeesTableViewController.swift:99-110 | an employee is returned iff section and row are in range, and it is `group[row]` |
| `EmployeesTable.EmployeesTableController.RowsAddUpToGroupedEmployees` | ListOfEmployees/Controllers/EmployeesTableViewController.swift:54-61 | the row counts of all sections add up to the number of grouped employees, counted over the keys in any order |
| `EmployeeDetails.NumberOfSections` | ListOfEmployees/Controllers/EmployeeDetailsViewController.swift:40-50 | one section, plus one if an email or a phone is present, plus one if projects are non-empty; always 1 to 3 |
| `EmployeeDetails.CountedCellsBuild` | ListOfEmployees/Controllers/EmployeeDetailsViewController.swift:52-104 | every section and row the screen counts builds a cell exactly when the employee does not have a phone without an email |
| `EmployeeDetails.SummaryCell` | ListOfEmployees/Controllers/EmployeeDetailsViewController.swift:74-76 | section 0 shows the full name, with the position's description as caption, empty iff there is no position |
| `EmployeeDetails.ContactCellsAsWritten` | ListOfEmployees/Controllers/EmployeeDetailsViewController.swift:78-86 | in section 1, row 0 shows the email iff it is present; row 1 shows the phone iff it is present; a shown cell carries the employee's own email or phone; everything else falls through |
| `EmployeeDetails.ProjectCellsAsWritten` | ListOfEmployees/Controllers/EmployeeDetailsViewController.swift:89-99 | in section 2, row `r` shows project `r` iff there are more than `r` projects; otherwise it falls through |
| `EmployeeDetails.ContactRowsAgreeWithEmail` | ListOfEmployees/Controllers/EmployeeDetailsViewController.swift:56-86 | with an email present, every contact row the table asks for builds a cell |
| `EmployeeDetails.PhoneOnlyRowFallsThrough` | ListOfEmployees/Controllers/EmployeeDetailsViewController.swift:56-86 | with a phone and no email, section 1 reports one row and that row falls through |
| `EmployeeDetails.ProjectsUnreachableWithoutContacts` | ListOfEmployees/Controllers/EmployeeDetailsViewController.swift:40-66 | with projects and no contact fields there are two sections; section 1 has 0 rows under a contact-details header; no project cell is reachable |
| `EmployeeDetails.ProjectsOnlyExample` | ListOfEmployees/Controllers/EmployeeDetailsViewController.swift:40-66 | a concrete employee with one project and no contact fields whose project is never asked for |
| `EmployeeDetails.Sections` | ListOfEmployees/Controllers/EmployeeDetailsViewController.swift:40-50 | intended numbering: the summary first, then the contact section iff contact fields exist (always at index 1), then the projects section iff projects exist (always last); as many sections as counted |
| `EmployeeDetails.ContactRows` | ListOfEmployees/Controllers/EmployeeDetailsViewController.swift:56-64 | intended contact rows: the present fields in order, the email first and the phone last, as many as counted |
| `EmployeeDetails.IntendedCellsNeverFallThrough` | ListOfEmployees/Controllers/EmployeeDetailsViewController.swift:73-104 | with the intended numbering, every index the table asks for builds a cell |
| `EmployeeDetails.IntendedShowsEverything` | ListOfEmployees/Controllers/EmployeeDetailsViewController.swift:73-104 | with the intended numbering, every present contact field and every project is shown at an index the table asks for |
| `EmployeeDetails.IntendedAgreesWhereWritten` | ListOfEmployees/Controllers/EmployeeDetailsViewController.swift:40-125 | the intended numbering has as many sections as counted, each headed by the kind it shows; with an email present, or with neither contact fields nor projects, its rows and cells are the code's |

## Findings

| source | as written | input that shows it | evidently intended | confidence | as-written member | corrected member |
|---|---|---|---|---|---|---|
| ListOfEmployees/Controllers/EmployeeDetailsViewController.swift:78-86 | Row 0 of the contact section is built only from the email and row 1 only from the phone, but the row count counts present fields | an employee with a phone and no email: section 1 reports one row, row 0, and it falls through to a blank cell | the contact rows are the present fields in order, so the phone is row 0 | high; not executed | `EmployeeDetails.PhoneOnlyRowFallsThrough` | `EmployeeDetails.IntendedCellsNeverFallThrough` |
| ListOfEmployees/Controllers/EmployeeDetailsViewController.swift:40-66 | Sections are counted by what is present but numbered by fixed kind (1 contacts, 2 projects) | an employee with projects and no email or phone: 2 sections, section 1 has 0 rows under a contact-details header, and the projects section 2 is never asked for | sections are numbered by what is present, so the projects are section 1 | high; not executed | `EmployeeDetails.ProjectsUnreachableWithoutContacts` | `EmployeeDetails.IntendedShowsEverything` |

## Left out

- Fetching over the network (`RemoteDataFether.swift`). It is a URL-session client with asynchronous callbacks.
- `ApplicationModel.swift` orchestrates through delegates from an older revision. It uses types that this snapshot does not have.
- `JsonParser.swift` is an older copy of the decode-and-append loop. It also declares its own `Employee` and `EmployeePosition`.
- `PersistentStorage.swift` writes one file fire-and-forget, and its read is a stub.
- `DataMapper.contact(forIdentifier:)` and all Contacts-framework calls are foreign library calls. Only the name query survives, as the `ContactLookup` parameter.
- JSON decoding (`JSONDecoder`, the coding keys) is the `Decoder` parameter. Its results are not constrained.
- `Strings.Lower`: only ASCII letters are case-mapped. Unicode case mapping and Swift's Unicode-aware `String` comparison are not modelled. Strings compare character by character.
- `NSLocalizedString`: the English texts are used.
- Dispatch queues and `weak self` are not modelled; every operation runs to completion in sequence. `assertionFailure` (a no-op in release builds) is not modelled either: its path is the value returned after it. Notifications and logging are left out too.
- The data provider (`sortedEmployees`) is not part of this model. `Reload` takes the provided grouping as its argument.
- `PersistentCache.Hidden`: `.skipsHiddenFiles` also skips files that carry the file system's hidden flag. The model has no file attributes, so only dot files are hidden.
- `EmployeesTable.Grouping`: the grouping keys are Swift `Character`s (grapheme clusters), modelled as single `char`s. Their order is the order of code points.
- Views, `DetailsViewController.swift`, cell construction, colours, fonts and row heights are UI layout.
- `AppDelegate.swift`, `Errors.swift` and `Extentions.swift` cover app lifecycle, error texts and logging helpers.
- `PersistentCache.CacheStorage.Cache`: a write that throws leaves no file under its name. A partially written file is not modelled.
- `PersistentCache.CacheStorage.CleanDirectory`: after a failed removal the contract says how many files went, not which. The listing order decides that, and the order is not fixed.
- `EmployeesTable.EmployeesTableController.EmployeesArray`: sections and rows are natural numbers. The negative `Int` that Swift would trap on is not modelled.
- `EmployeeDetails.CellAt`: sections and rows are natural numbers. The blank cell returned on the assertion path is modelled as `Fallthrough`.
