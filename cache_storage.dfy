/** The on-disk payload cache: one directory of files, a flag saying whether
    its contents are ready to be read, a clear-then-write operation that
    stores payloads under positional names and a read-all operation. The file
    system is a map from file name to bytes; I/O failures are parameters that
    say which step throws. */
module PersistentCache {
  import opened Wrappers

  type Bytes = seq<bv8>

  /** The cache directory: file name to contents. */
  type Directory = map<string, Bytes>

  /** Dot files, which directory listings skip. */
  predicate Hidden(name: string) {
    |name| > 0 && name[0] == '.'
  }

  function VisibleNames(dir: Directory): set<string> {
    set name | name in dir && !Hidden(name)
  }

  /** The directory without its listed (non-hidden) files. */
  function HiddenPart(dir: Directory): (h: Directory)
    ensures forall name :: name in h ==> Hidden(name)
  {
    dir - VisibleNames(dir)
  }

  /** Which step of a listing-then-per-item loop throws: the listing itself,
      the item at a given position, or none. */
  datatype IoFault = NoFault | ListingFails | ItemFails(at: nat)

  /** The delegate callback a caching attempt ends with. */
  datatype Outcome = Succeeded | Failed

  /** A loop over a listing of `count` items gets through when nothing
      throws or the failing position is past its end. */
  predicate GetsThrough(fault: IoFault, count: nat) {
    fault.NoFault? || (fault.ItemFails? && fault.at >= count)
  }

  function DigitChar(d: nat): char
    requires d < 10
  {
    ('0' as int + d) as char
  }

  /** Decimal rendering of `n`, as string interpolation prints it. */
  function Decimal(n: nat): (r: string)
    ensures |r| >= 1
    ensures n >= 10 ==> |r| >= 2
  {
    if n < 10 then [DigitChar(n)] else Decimal(n / 10) + [DigitChar(n % 10)]
  }

  lemma {:induction false} DecimalInjective(a: nat, b: nat)
    requires Decimal(a) == Decimal(b)
    ensures a == b
  {
    if a >= 10 && b >= 10 {
      var ra, rb := Decimal(a), Decimal(b);
      assert ra[..|ra| - 1] == Decimal(a / 10) && rb[..|rb| - 1] == Decimal(b / 10);
      DecimalInjective(a / 10, b / 10);
    }
  }

  /** `"data\(index)"`: the name under which the `index`-th payload is written. */
  function FileName(index: nat): (name: string)
    ensures !Hidden(name)
  {
    "data" + Decimal(index)
  }

  lemma FileNameInjective(i: nat, j: nat)
    requires FileName(i) == FileName(j)
    ensures i == j
  {
    assert FileName(i)[4..] == Decimal(i) && FileName(j)[4..] == Decimal(j);
    DecimalInjective(i, j);
  }

  /** The files that writing `dataObjects` in order produces. */
  function Written(dataObjects: seq<Bytes>): Directory {
    if dataObjects == [] then map[]
    else Written(dataObjects[..|dataObjects| - 1])[FileName(|dataObjects| - 1) := dataObjects[|dataObjects| - 1]]
  }

  /** Writing `dataObjects` produces exactly `data0` ... `data{n-1}`, the
      `i`-th holding the `i`-th payload. */
  lemma {:induction false} WrittenFiles(dataObjects: seq<Bytes>)
    ensures forall i :: 0 <= i < |dataObjects| ==>
      FileName(i) in Written(dataObjects) && Written(dataObjects)[FileName(i)] == dataObjects[i]
    ensures forall name :: name in Written(dataObjects) ==>
      exists i :: 0 <= i < |dataObjects| && name == FileName(i)
  {
    if dataObjects != [] {
      var n := |dataObjects| - 1;
      var front := dataObjects[..n];
      WrittenFiles(front);
      forall i | 0 <= i < n
        ensures FileName(i) in Written(dataObjects) && Written(dataObjects)[FileName(i)] == dataObjects[i]
      {
        if FileName(i) == FileName(n) {
          FileNameInjective(i, n);
        }
      }
    }
  }

  /** `listing` names every element of `names` exactly once. */
  ghost predicate Enumerates(listing: seq<string>, names: set<string>) {
    && (forall i, j :: 0 <= i < j < |listing| ==> listing[i] != listing[j])
    && (forall j :: 0 <= j < |listing| ==> listing[j] in names)
    && (forall name :: name in names ==> name in listing)
  }

  /** The listing of a directory: each non-hidden name exactly once, in some order. */
  ghost predicate IsListing(listing: seq<string>, dir: Directory) {
    Enumerates(listing, VisibleNames(dir))
  }

  lemma EnumerationWithout(listing: seq<string>, names: set<string>, p: nat)
    requires Enumerates(listing, names) && p < |listing|
    ensures Enumerates(listing[..p] + listing[p + 1..], names - {listing[p]})
  {
    var rest := listing[..p] + listing[p + 1..];
    forall i, j | 0 <= i < j < |rest|
      ensures rest[i] != rest[j]
    {
      var i0 := if i < p then i else i + 1;
      var j0 := if j < p then j else j + 1;
      assert rest[i] == listing[i0] && rest[j] == listing[j0];
    }
    forall j | 0 <= j < |rest|
      ensures rest[j] in names - {listing[p]}
    {
      var j0 := if j < p then j else j + 1;
      assert rest[j] == listing[j0];
    }
    forall name | name in names - {listing[p]}
      ensures name in rest
    {
      var j0 :| 0 <= j0 < |listing| && listing[j0] == name;
      assert rest[if j0 < p then j0 else j0 - 1] == name;
    }
  }

  /** Indexing a sequence with one position taken out. */
  lemma IndexWithout<T>(s: seq<T>, p: nat, j: nat)
    requires p < |s| && j < |s| - 1
    ensures (s[..p] + s[p + 1..])[j] == s[if j < p then j else j + 1]
  {
  }

  lemma MultisetWithout(s: seq<Bytes>, p: nat)
    requires p < |s|
    ensures multiset(s) == multiset(s[..p] + s[p + 1..]) + multiset{s[p]}
  {
    assert s == s[..p] + [s[p]] + s[p + 1..];
  }

  /** Taking one file out of a directory and out of its listing leaves a
      listing of the smaller directory, with the matching payloads. */
  lemma ListingWithout(files: Directory, files': Directory, taken: string, listing: seq<string>,
                       payloads: seq<Bytes>, p: nat, listing': seq<string>, payloads': seq<Bytes>)
    requires taken in files && files'.Keys == files.Keys - {taken}
    requires forall name :: name in files' ==> files'[name] == files[name]
    requires Enumerates(listing, files.Keys)
    requires |payloads| == |listing|
    requires forall j :: 0 <= j < |listing| ==> payloads[j] == files[listing[j]]
    requires p < |listing| && listing[p] == taken
    requires listing' == listing[..p] + listing[p + 1..] && payloads' == payloads[..p] + payloads[p + 1..]
    ensures Enumerates(listing', files'.Keys)
    ensures forall j :: 0 <= j < |listing'| ==> payloads'[j] == files'[listing'[j]]
  {
    EnumerationWithout(listing, files.Keys, p);
    forall j | 0 <= j < |listing'|
      ensures payloads'[j] == files'[listing'[j]]
    {
      IndexWithout(listing, p, j);
      IndexWithout(payloads, p, j);
    }
  }

  /** Taking one payload out, and the last value off, keeps two equal
      multisets equal. */
  lemma MultisetLastStep(payloads: seq<Bytes>, p: nat, payloads': seq<Bytes>, values: seq<Bytes>)
    requires p < |payloads| && payloads' == payloads[..p] + payloads[p + 1..]
    requires values != [] && payloads[p] == values[|values| - 1]
    requires multiset(payloads') == multiset(values[..|values| - 1])
    ensures multiset(payloads) == multiset(values)
  {
    MultisetWithout(payloads, p);
    assert values == values[..|values| - 1] + [values[|values| - 1]];
  }

  /** Reading back a directory whose files are `names`, holding `values`,
      in any order that lists each file once, yields `values` counted with
      multiplicity. */
  lemma {:induction false} ReadBackFiles(files: Directory, names: seq<string>, values: seq<Bytes>,
                                         listing: seq<string>, payloads: seq<Bytes>)
    requires |names| == |values|
    requires forall i, j :: 0 <= i < j < |names| ==> names[i] != names[j]
    requires forall i :: 0 <= i < |names| ==> names[i] in files && files[names[i]] == values[i]
    requires forall name :: name in files ==> name in names
    requires Enumerates(listing, files.Keys)
    requires |payloads| == |listing|
    requires forall j :: 0 <= j < |listing| ==> payloads[j] == files[listing[j]]
    ensures multiset(payloads) == multiset(values)
    decreases |names|
  {
    if names != [] {
      var n := |names| - 1;
      var taken := names[n];
      assert taken in listing;
      var p :| 0 <= p < |listing| && listing[p] == taken;
      var payloads' := payloads[..p] + payloads[p + 1..];
      assert multiset(payloads') == multiset(values[..n]) by {
        var files' := files - {taken};
        var listing' := listing[..p] + listing[p + 1..];
        ListingWithout(files, files', taken, listing, payloads, p, listing', payloads');
        forall name | name in files'
          ensures name in names[..n]
        {
          var i :| 0 <= i < |names| && names[i] == name;
          assert names[..n][i] == name;
        }
        ReadBackFiles(files', names[..n], values[..n], listing', payloads');
      }
      MultisetLastStep(payloads, p, payloads', values);
    }
  }

  /** Reading back the files written from `dataObjects`, in any order that
      names each once, yields the same payloads counted with multiplicity. */
  lemma ReadBackWritten(dataObjects: seq<Bytes>, listing: seq<string>, payloads: seq<Bytes>)
    requires Enumerates(listing, Written(dataObjects).Keys)
    requires |payloads| == |listing|
    requires forall j :: 0 <= j < |listing| ==> payloads[j] == Written(dataObjects)[listing[j]]
    ensures multiset(payloads) == multiset(dataObjects)
  {
    var names := seq(|dataObjects|, i requires 0 <= i => FileName(i));
    WrittenFiles(dataObjects);
    forall i, j | 0 <= i < j < |names|
      ensures names[i] != names[j]
    {
      if names[i] == names[j] {
        FileNameInjective(i, j);
      }
    }
    forall name | name in Written(dataObjects)
      ensures name in names
    {
      var i :| 0 <= i < |dataObjects| && name == FileName(i);
      assert names[i] == name;
    }
    ReadBackFiles(Written(dataObjects), names, dataObjects, listing, payloads);
  }

  /** Writing the next positional file extends what is on disk by one file. */
  lemma WriteNext(hidden: Directory, dataObjects: seq<Bytes>, i: nat)
    requires i < |dataObjects|
    ensures (hidden + Written(dataObjects[..i]))[FileName(i) := dataObjects[i]] == hidden + Written(dataObjects[..i + 1])
  {
    assert dataObjects[..i + 1][..i] == dataObjects[..i];
  }

  /** Writing positional files leaves the hidden files as they were. */
  lemma HiddenPartAfterWrites(hidden: Directory, dataObjects: seq<Bytes>)
    requires forall name :: name in hidden ==> Hidden(name)
    ensures HiddenPart(hidden + Written(dataObjects)) == hidden
    ensures VisibleNames(hidden + Written(dataObjects)) == Written(dataObjects).Keys
  {
    WrittenFiles(dataObjects);
    var dir := hidden + Written(dataObjects);
    forall name | name in Written(dataObjects)
      ensures !Hidden(name)
    {
      var i :| 0 <= i < |dataObjects| && name == FileName(i);
    }
    assert VisibleNames(dir) == Written(dataObjects).Keys;
  }


  class CacheStorage {
    /** The cache directory's files. */
    var dir: Directory
    /** Whether the cached data is ready to be read. */
    var isDataCached: bool

    constructor (contents: Directory, cached: bool)
      ensures dir == contents && isDataCached == cached
    {
      dir := contents;
      isDataCached := cached;
    }

    /** `init(directoryName:queue:)`. `located` says whether the caches
        directory could be found, `existing` what is already on disk, and
        `createOk` whether creating a missing directory works. A throwing
        initialiser gives no storage. The flag is set iff the directory was
        already there. */
    static method Open(located: bool, existing: Option<Directory>, createOk: bool) returns (s: CacheStorage?)
      ensures s == null <==> !located || (existing.None? && !createOk)
      ensures s != null ==> fresh(s)
      ensures s != null ==> (s.isDataCached <==> existing.Some?)
      ensures s != null ==> s.dir == existing.GetOr(map[])
    {
      if !located {
        return null;
      }
      if existing.None? {
        if !createOk {
          return null;
        }
        s := new CacheStorage(map[], false);
      } else {
        s := new CacheStorage(existing.value, true);
      }
    }

    /** `cleanDirectory(url:)`: list the non-hidden files, then remove them one
        by one in listing order; the first failure stops the loop. */
    method CleanDirectory(fault: IoFault) returns (ok: bool)
      modifies this
      ensures isDataCached == old(isDataCached)
      ensures ok <==> GetsThrough(fault, |VisibleNames(old(dir))|)
      ensures ok ==> dir == HiddenPart(old(dir))
      ensures HiddenPart(dir) == HiddenPart(old(dir))
      ensures VisibleNames(dir) <= VisibleNames(old(dir))
      ensures forall name :: name in dir ==> name in old(dir) && dir[name] == old(dir)[name]
      ensures fault.ListingFails? ==> dir == old(dir)
      ensures fault.ItemFails? && !ok ==> |VisibleNames(old(dir))| - |VisibleNames(dir)| == fault.at
    {
      if fault.ListingFails? {
        return false;
      }
      ghost var listed := VisibleNames(dir);
      var contents := VisibleNames(dir);
      var removed: nat := 0;
      while contents != {}
        invariant contents <= listed
        invariant dir == old(dir) - (listed - contents)
        invariant VisibleNames(dir) == contents
        invariant removed + |contents| == |listed|
        invariant isDataCached == old(isDataCached)
        invariant fault.ItemFails? ==> removed <= fault.at
        decreases contents
      {
        var name :| name in contents;
        if fault.ItemFails? && fault.at == removed {
          return false;
        }
        dir := dir - {name};
        contents := contents - {name};
        removed := removed + 1;
      }
      return true;
    }

    /** `cleanCacheDirectory()`: the flag is cleared once cleaning succeeded. */
    method CleanCacheDirectory(fault: IoFault) returns (ok: bool)
      modifies this
      ensures ok <==> GetsThrough(fault, |VisibleNames(old(dir))|)
      ensures ok ==> dir == HiddenPart(old(dir)) && !isDataCached
      ensures !ok ==> isDataCached == old(isDataCached)
      ensures HiddenPart(dir) == HiddenPart(old(dir))
      ensures forall name :: name in dir ==> name in old(dir) && dir[name] == old(dir)[name]
      ensures fault.ListingFails? ==> dir == old(dir)
      ensures fault.ItemFails? && !ok ==> |VisibleNames(old(dir))| - |VisibleNames(dir)| == fault.at
    {
      ok := CleanDirectory(fault);
      if ok {
        isDataCached := false;
      }
    }

    /** `cache(dataObjects:)`: clear the flag, clean the directory, write
        `data0` ... `data{n-1}` in order, then report success and set the flag.
        `cleanFault` says where cleaning throws and `writeFailsAt` which write
        throws. Files written before a failure stay. */
    method Cache(dataObjects: seq<Bytes>, cleanFault: IoFault, writeFailsAt: Option<nat>) returns (outcome: Outcome)
      modifies this
      ensures outcome == Succeeded <==>
        GetsThrough(cleanFault, |VisibleNames(old(dir))|) &&
        (writeFailsAt.None? || writeFailsAt.value >= |dataObjects|)
      ensures isDataCached <==> outcome == Succeeded
      ensures HiddenPart(dir) == HiddenPart(old(dir))
      ensures outcome == Succeeded ==> dir == HiddenPart(old(dir)) + Written(dataObjects)
      ensures GetsThrough(cleanFault, |VisibleNames(old(dir))|) && writeFailsAt.Some? && writeFailsAt.value < |dataObjects| ==>
        dir == HiddenPart(old(dir)) + Written(dataObjects[..writeFailsAt.value])
      ensures !GetsThrough(cleanFault, |VisibleNames(old(dir))|) ==>
        forall name :: name in dir ==> name in old(dir) && dir[name] == old(dir)[name]
      ensures cleanFault.ListingFails? ==> dir == old(dir)
      ensures cleanFault.ItemFails? && !GetsThrough(cleanFault, |VisibleNames(old(dir))|) ==>
        |VisibleNames(old(dir))| - |VisibleNames(dir)| == cleanFault.at
    {
      isDataCached := false;
      var cleaned := CleanCacheDirectory(cleanFault);
      if !cleaned {
        return Failed;
      }
      ghost var hidden := dir;
      var written := WriteDataFiles(dataObjects, writeFailsAt);
      if !written {
        HiddenPartAfterWrites(hidden, dataObjects[..writeFailsAt.value]);
        return Failed;
      }
      HiddenPartAfterWrites(hidden, dataObjects);
      isDataCached := true;
      return Succeeded;
    }

    /** The loop of `cache(dataObjects:)`: write `data0` ... `data{n-1}` in
        order; `writeFailsAt` says which write throws, and the files written
        before it stay. */
    method WriteDataFiles(dataObjects: seq<Bytes>, writeFailsAt: Option<nat>) returns (ok: bool)
      modifies this
      ensures ok <==> writeFailsAt.None? || writeFailsAt.value >= |dataObjects|
      ensures ok ==> dir == old(dir) + Written(dataObjects)
      ensures !ok ==> dir == old(dir) + Written(dataObjects[..writeFailsAt.value])
      ensures isDataCached == old(isDataCached)
    {
      for i := 0 to |dataObjects|
        invariant dir == old(dir) + Written(dataObjects[..i])
        invariant isDataCached == old(isDataCached)
        invariant writeFailsAt.None? || writeFailsAt.value >= i
      {
        if writeFailsAt == Some(i) {
          return false;
        }
        WriteNext(old(dir), dataObjects, i);
        dir := dir[FileName(i) := dataObjects[i]];
      }
      assert dataObjects[..|dataObjects|] == dataObjects;
      return true;
    }

    /** `startReadingCacheData()`: list the non-hidden files and read each in
        listing order; any failure delivers no payloads. The order the
        listing comes in is not fixed; `listing` records the one taken. */
    method StartReadingCacheData(fault: IoFault) returns (payloads: Option<seq<Bytes>>, ghost listing: seq<string>)
      ensures payloads.Some? <==> GetsThrough(fault, |VisibleNames(dir)|)
      ensures payloads.Some? ==> IsListing(listing, dir) && |payloads.value| == |listing|
      ensures payloads.Some? ==> forall j :: 0 <= j < |listing| ==> payloads.value[j] == dir[listing[j]]
    {
      listing := [];
      if fault.ListingFails? {
        return None, listing;
      }
      var contents := VisibleNames(dir);
      var dataObjects: seq<Bytes> := [];
      while contents != {}
        invariant contents <= VisibleNames(dir)
        invariant forall i, j :: 0 <= i < j < |listing| ==> listing[i] != listing[j]
        invariant forall name :: name in listing <==> name in VisibleNames(dir) - contents
        invariant |listing| + |contents| == |VisibleNames(dir)|
        invariant |dataObjects| == |listing|
        invariant forall j :: 0 <= j < |listing| ==> listing[j] in VisibleNames(dir) && dataObjects[j] == dir[listing[j]]
        invariant fault.ItemFails? ==> |listing| <= fault.at
        decreases contents
      {
        var name :| name in contents;
        assert name !in listing;
        if fault.ItemFails? && fault.at == |dataObjects| {
          return None, listing;
        }
        dataObjects := dataObjects + [dir[name]];
        listing := listing + [name];
        contents := contents - {name};
      }
      return Some(dataObjects), listing;
    }
  }

  /** A successful cache of `dataObjects` followed by a successful read, with
      nothing in between, gives back exactly those payloads in some order. */
  lemma CacheThenReadRoundTrip(before: Directory, dataObjects: seq<Bytes>, after: Directory,
                               listing: seq<string>, payloads: seq<Bytes>)
    requires after == HiddenPart(before) + Written(dataObjects)
    requires IsListing(listing, after)
    requires |payloads| == |listing|
    requires forall j :: 0 <= j < |listing| ==> payloads[j] == after[listing[j]]
    ensures multiset(payloads) == multiset(dataObjects)
  {
    HiddenPartAfterWrites(HiddenPart(before), dataObjects);
    ReadBackWritten(dataObjects, listing, payloads);
  }

  /** Caching and then reading with no failure: the read returns the
      payloads just cached, up to order, and the flag is set. */
  method CacheThenRead(storage: CacheStorage, dataObjects: seq<Bytes>) returns (payloads: Option<seq<Bytes>>)
    modifies storage
    ensures storage.isDataCached
    ensures payloads.Some? && multiset(payloads.value) == multiset(dataObjects)
  {
    var outcome := storage.Cache(dataObjects, NoFault, None);
    ghost var listing;
    payloads, listing := storage.StartReadingCacheData(NoFault);
    CacheThenReadRoundTrip(old(storage.dir), dataObjects, storage.dir, listing, payloads.value);
  }
}
