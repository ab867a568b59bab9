/** The data-source arithmetic of the grouped employee list: section `s` shows
    the group of the `s`-th grouping key in ascending order, and a
    (section, row) pair is looked up with bounds checks. */
module EmployeesTable {
  import opened Wrappers
  import opened EmployeeModel

  /** Grouping key (a character) to the employees listed under it. */
  type Grouping = map<char, seq<Employee>>

  /** Every non-empty set of characters has a least element. */
  lemma {:induction false} LeastKeyExists(keys: set<char>)
    requires keys != {}
    ensures exists m :: m in keys && forall k :: k in keys ==> m <= k
    decreases |keys|
  {
    var x :| x in keys;
    if keys - {x} != {} {
      LeastKeyExists(keys - {x});
      var m :| m in keys - {x} && forall k :: k in keys - {x} ==> m <= k;
      var least := if x < m then x else m;
      forall k | k in keys
        ensures least <= k
      {
        if k != x {
          assert k in keys - {x};
        }
      }
    } else {
      assert keys == {x};
    }
  }

  /** The least key. */
  function LeastKey(keys: set<char>): (m: char)
    requires keys != {}
    ensures m in keys && forall k :: k in keys ==> m <= k
  {
    LeastKeyExists(keys);
    var m :| m in keys && forall k :: k in keys ==> m <= k;
    m
  }

  /** `keys.sorted()`: the least key first, then the rest sorted. */
  function SortedKeys(keys: set<char>): (r: seq<char>)
    ensures |r| == |keys|
    ensures forall i :: 0 <= i < |r| ==> r[i] in keys
    decreases |keys|
  {
    if keys == {} then []
    else
      var m := LeastKey(keys);
      [m] + SortedKeys(keys - {m})
  }

  /** The sorted keys list every key ... */
  lemma {:induction false} SortedKeysComplete(keys: set<char>)
    ensures forall k :: k in keys ==> k in SortedKeys(keys)
    decreases |keys|
  {
    if keys != {} {
      var m := LeastKey(keys);
      var rest := SortedKeys(keys - {m});
      assert SortedKeys(keys) == [m] + rest;
      SortedKeysComplete(keys - {m});
      forall k | k in keys
        ensures k in [m] + rest
      {
        if k != m {
          assert k in rest;
        }
      }
    }
  }

  /** ... in strictly ascending order, so each key exactly once. */
  lemma {:induction false} SortedKeysAscending(keys: set<char>)
    ensures forall i, j :: 0 <= i < j < |keys| ==> SortedKeys(keys)[i] < SortedKeys(keys)[j]
    decreases |keys|
  {
    if keys != {} {
      var m := LeastKey(keys);
      var rest := SortedKeys(keys - {m});
      var r := [m] + rest;
      assert SortedKeys(keys) == r;
      SortedKeysAscending(keys - {m});
      forall i, j | 0 <= i < j < |keys|
        ensures r[i] < r[j]
      {
        assert r[j] == rest[j - 1];
        assert rest[j - 1] in keys - {m};
        if 0 < i {
          assert r[i] == rest[i - 1];
        }
      }
    }
  }

  /** The number of keys below a key. */
  function KeysBelow(keys: set<char>, key: char): set<char> {
    set k | k in keys && k < key
  }

  lemma KeysBelowWithoutLeast(keys: set<char>, m: char, key: char)
    requires m in keys && m < key
    ensures KeysBelow(keys, key) == KeysBelow(keys - {m}, key) + {m}
    ensures |KeysBelow(keys, key)| == |KeysBelow(keys - {m}, key)| + 1
  {
    assert m !in KeysBelow(keys - {m}, key);
  }

  /** The sorted keys start with the least key ... */
  lemma SortedKeysHead(keys: set<char>)
    requires keys != {}
    ensures SortedKeys(keys)[0] == LeastKey(keys)
  {
  }

  /** ... and go on with the sorted keys of the rest, all above it. */
  lemma SortedKeysTail(keys: set<char>, i: nat)
    requires 0 < i < |keys|
    ensures var m := LeastKey(keys);
      && SortedKeys(keys)[i] == SortedKeys(keys - {m})[i - 1]
      && SortedKeys(keys)[i] in keys - {m}
      && m < SortedKeys(keys)[i]
  {
    var m := LeastKey(keys);
    var rest := SortedKeys(keys - {m});
    assert SortedKeys(keys) == [m] + rest;
    assert ([m] + rest)[i] == rest[i - 1];
    assert rest[i - 1] in keys - {m};
  }

  /** The key at position `i` of the sorted keys has exactly `i` keys below it. */
  lemma {:induction false} SortedKeyRank(keys: set<char>, i: nat)
    requires i < |keys|
    ensures |KeysBelow(keys, SortedKeys(keys)[i])| == i
    decreases |keys|
  {
    var m := LeastKey(keys);
    if i == 0 {
      SortedKeysHead(keys);
      assert KeysBelow(keys, m) == {};
    } else {
      SortedKeysTail(keys, i);
      SortedKeyRank(keys - {m}, i - 1);
      KeysBelowWithoutLeast(keys, m, SortedKeys(keys)[i]);
    }
  }

  /** Employees in all groups, counted once per group membership. */
  ghost function TotalGrouped(g: Grouping): nat
    decreases |g.Keys|
  {
    if g.Keys == {} then 0
    else
      var k :| k in g;
      |g[k]| + TotalGrouped(g - {k})
  }

  /** The total does not depend on which key is taken first. */
  lemma {:induction false} TotalGroupedWithout(g: Grouping, key: char)
    requires key in g
    ensures TotalGrouped(g) == |g[key]| + TotalGrouped(g - {key})
    decreases |g.Keys|
  {
    var k :| k in g && TotalGrouped(g) == |g[k]| + TotalGrouped(g - {k});
    if k != key {
      var both := g - {k} - {key};
      assert g - {key} - {k} == both;
      assert TotalGrouped(g - {k}) == |g[key]| + TotalGrouped(both) by {
        TotalGroupedWithout(g - {k}, key);
      }
      assert TotalGrouped(g - {key}) == |g[k]| + TotalGrouped(both) by {
        TotalGroupedWithout(g - {key}, k);
      }
    }
  }

  /** Group sizes summed along a sequence of keys. */
  function SumAlong(g: Grouping, ks: seq<char>): nat
    requires forall i :: 0 <= i < |ks| ==> ks[i] in g
  {
    if ks == [] then 0 else SumAlong(g, ks[..|ks| - 1]) + |g[ks[|ks| - 1]]|
  }

  lemma SumAlongStep(g: Grouping, ks: seq<char>, n: nat)
    requires 0 < n <= |ks|
    requires forall i :: 0 <= i < |ks| ==> ks[i] in g
    ensures SumAlong(g, ks[..n]) == SumAlong(g, ks[..n - 1]) + |g[ks[n - 1]]|
  {
    assert ks[..n][..n - 1] == ks[..n - 1];
  }

  lemma {:induction false} SumAlongUnchanged(g: Grouping, g': Grouping, ks: seq<char>)
    requires forall i :: 0 <= i < |ks| ==> ks[i] in g && ks[i] in g' && g[ks[i]] == g'[ks[i]]
    ensures SumAlong(g, ks) == SumAlong(g', ks)
  {
    if ks != [] {
      SumAlongUnchanged(g, g', ks[..|ks| - 1]);
    }
  }

  /** Summing along any enumeration of the keys, each once, gives the total. */
  lemma {:induction false} SumAlongEnumeration(g: Grouping, ks: seq<char>)
    requires forall i, j :: 0 <= i < j < |ks| ==> ks[i] != ks[j]
    requires forall i :: 0 <= i < |ks| ==> ks[i] in g
    requires forall k :: k in g ==> k in ks
    ensures SumAlong(g, ks) == TotalGrouped(g)
  {
    if ks == [] {
      assert g.Keys == {};
    } else {
      var n := |ks| - 1;
      var last := ks[n];
      var g' := g - {last};
      forall k | k in g'
        ensures k in ks[..n]
      {
        var i :| 0 <= i < |ks| && ks[i] == k;
        assert i != n;
      }
      SumAlongEnumeration(g', ks[..n]);
      SumAlongUnchanged(g, g', ks[..n]);
      TotalGroupedWithout(g, last);
    }
  }

  /** Summing along the sorted keys gives the total. */
  lemma SumAlongSortedKeys(g: Grouping)
    ensures SumAlong(g, SortedKeys(g.Keys)) == TotalGrouped(g)
  {
    var ks := SortedKeys(g.Keys);
    SortedKeysAscending(g.Keys);
    SortedKeysComplete(g.Keys);
    forall i, j | 0 <= i < j < |ks|
      ensures ks[i] != ks[j]
    {
      assert ks[i] < ks[j];
    }
    SumAlongEnumeration(g, ks);
  }

  class EmployeesTableController {
    /** `employees`: the grouping shown, replaced wholesale from the data provider. */
    var employees: Grouping

    /** `init(usingDataProvider:)`: nothing grouped yet, so no sections. */
    constructor ()
      ensures employees == map[]
      ensures NumberOfSections() == 0
    {
      employees := map[];
    }

    /** `viewWillAppear` and the update notification: the grouping is replaced by
        the provider's current one. */
    method Reload(provided: Grouping)
      modifies this
      ensures employees == provided
    {
      employees := provided;
    }

    /** `numberOfSections(in:)`: one section per key. */
    function NumberOfSections(): nat
      reads this
    {
      |employees.Keys|
    }

    /** `employeesArray(forSection:)`: the group of the key with exactly
        `section` keys below it, or nothing when `section` is past the last key. */
    function EmployeesArray(section: nat): (r: Option<seq<Employee>>)
      reads this
      ensures r.Some? <==> section < NumberOfSections()
      ensures r.Some? ==>
        exists key :: key in employees && |KeysBelow(employees.Keys, key)| == section && r.value == employees[key]
    {
      var sortedKeys := SortedKeys(employees.Keys);
      if |sortedKeys| <= section then None
      else
        var key := sortedKeys[section];
        SortedKeyRank(employees.Keys, section);
        Some(employees[key])
    }

    /** `tableView(_:numberOfRowsInSection:)`: the group's size, 0 out of range. */
    function NumberOfRows(section: nat): (r: nat)
      reads this
      ensures section >= NumberOfSections() ==> r == 0
      ensures section < NumberOfSections() ==> r == |EmployeesArray(section).value|
    {
      match EmployeesArray(section)
      case Some(group) => |group|
      case None => 0
    }

    /** `employee(forIndexPath:)`: the employee at `row` of the section's group,
        when both are in range. */
    function EmployeeAt(section: nat, row: nat): (r: Option<Employee>)
      reads this
      ensures r.Some? <==> section < NumberOfSections() && row < NumberOfRows(section)
      ensures r.Some? ==> r == Some(EmployeesArray(section).value[row])
    {
      match EmployeesArray(section)
      case None => None
      case Some(group) => if |group| > row then Some(group[row]) else None
    }

    /** Rows of the first `n` sections. */
    ghost function RowsUpTo(n: nat): nat
      reads this
    {
      if n == 0 then 0 else RowsUpTo(n - 1) + NumberOfRows(n - 1)
    }

    /** One more section adds the group of the next sorted key. */
    lemma RowsUpToStep(n: nat)
      requires 0 < n <= NumberOfSections()
      ensures RowsUpTo(n) == RowsUpTo(n - 1) + |employees[SortedKeys(employees.Keys)[n - 1]]|
    {
    }

    /** The rows of the first `n` sections are the group sizes along the first `n` sorted keys. */
    lemma {:induction false} RowsUpToIsSumAlong(n: nat)
      requires n <= NumberOfSections()
      ensures RowsUpTo(n) == SumAlong(employees, SortedKeys(employees.Keys)[..n])
    {
      if n > 0 {
        RowsUpToIsSumAlong(n - 1);
        RowsUpToStep(n);
        SumAlongStep(employees, SortedKeys(employees.Keys), n);
      }
    }

    /** One section per key: every key has a section, the one numbered by
        the count of keys below it, and that section shows the key's group. */
    lemma EveryKeyHasItsSection(k: char)
      requires k in employees
      ensures |KeysBelow(employees.Keys, k)| < NumberOfSections()
      ensures EmployeesArray(|KeysBelow(employees.Keys, k)|) == Some(employees[k])
    {
      var ks := SortedKeys(employees.Keys);
      SortedKeysComplete(employees.Keys);
      var i :| 0 <= i < |ks| && ks[i] == k;
      SortedKeyRank(employees.Keys, i);
    }

    /** The rows of all sections add up to the number of grouped employees. */
    lemma RowsAddUpToGroupedEmployees()
      ensures RowsUpTo(NumberOfSections()) == TotalGrouped(employees)
    {
      var ks := SortedKeys(employees.Keys);
      RowsUpToIsSumAlong(|ks|);
      assert ks[..|ks|] == ks;
      SumAlongSortedKeys(employees);
    }
  }
}
