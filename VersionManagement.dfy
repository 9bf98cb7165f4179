/**
 * VersionManager: the process-wide registry of the Geode versions available to
 * backward-compatibility tests, loaded once from the generated properties file.
 *
 * The properties file is an input: `Some(entries)` when the file was found (the
 * entries in the order the Properties table yields them), `None` when it was found at
 * neither path.  A Java `null` string is `None`.
 */
module VersionManagement {
  import opened JavaStrings
  import opened VersionProperties

  /** The entries loaded from `file`; an absent file contributes none. */
  function Entries(file: Option<seq<Entry>>): seq<Entry>
  {
    if file.Some? then file.value else []
  }

  /** The value findVersions leaves in `oldestVersion`: still null when the file is absent. */
  function OldestAfterLoad(file: Option<seq<Entry>>): (r: Option<string>)
    ensures r.None? <==> file.None?
    ensures r.Some? ==> r.value == CurrentVersion || Below(r.value, Seed)
  {
    if file.Some? then
      RunningMinIsMinimum(file.value);
      Some(Oldest(file.value))
    else None
  }

  /**
   * The relation between the three fields that loading establishes: every listed
   * version has a class path and nothing else does, and the oldest version (once set)
   * is "000" or a listed version below "ZZZ" that no other listed version but "000"
   * sorts before.
   */
  ghost predicate Consistent(classPaths: map<string, string>, testVersions: seq<string>, oldest: Option<string>)
  {
    && classPaths.Keys == (set v | v in testVersions)
    && (oldest.Some? ==>
          && (oldest.value == CurrentVersion || (oldest.value in testVersions && Below(oldest.value, Seed)))
          && forall v :: v in testVersions && v != CurrentVersion ==> !Below(v, oldest.value))
  }

  /** Whatever the file holds, or if it is absent, the loaded registry is consistent. */
  lemma LoadedConsistent(file: Option<seq<Entry>>)
    ensures Consistent(ClassPaths(Entries(file)), Recorded(Entries(file)), OldestAfterLoad(file))
  {
    var e := Entries(file);
    ClassPathKeys(e);
    if file.Some? {
      var o := Oldest(e);
      OldestIsMinimum(e);
      forall v | v in Recorded(e) && v != CurrentVersion
        ensures v in Candidates(e)
      {
        RecordedElements(e, v);
        var i :| 0 <= i < |e| && VersionOf(e[i].key) == Some(v);
      }
      if o != CurrentVersion {
        var i :| 0 <= i < |e| && Candidate(e[i].key) == Some(o);
        RecordedElements(e, o);
      }
      forall v | v in Recorded(e) && v != CurrentVersion
        ensures !Below(v, o)
      {
        if o == CurrentVersion && Below(v, o) {
          BelowTransitive(v, o, Seed);
        }
      }
    }
  }

  /** `List.remove(Object)`: drops the first element equal to x, if there is one. */
  function RemoveFirst(s: seq<string>, x: string): seq<string>
  {
    if s == [] then []
    else if s[0] == x then s[1..]
    else [s[0]] + RemoveFirst(s[1..], x)
  }

  /** RemoveFirst leaves a list without x unchanged. */
  lemma {:induction false} RemoveFirstAbsent(s: seq<string>, x: string)
    requires x !in s
    ensures RemoveFirst(s, x) == s
  {
    if s != [] {
      RemoveFirstAbsent(s[1..], x);
      assert s == [s[0]] + s[1..];
    }
  }

  /** The position of the first x in s. */
  function FirstIndex(s: seq<string>, x: string): (k: nat)
    requires x in s
    ensures k < |s| && s[k] == x && x !in s[..k]
  {
    if s[0] == x then 0
    else
      assert s == [s[0]] + s[1..];
      var k := FirstIndex(s[1..], x);
      assert s[..k + 1] == [s[0]] + s[1..][..k];
      k + 1
  }

  /** RemoveFirst cuts out exactly the first occurrence of x, keeping the rest in order. */
  lemma {:induction false} RemoveFirstCutsFirst(s: seq<string>, x: string)
    requires x in s
    ensures RemoveFirst(s, x) == s[..FirstIndex(s, x)] + s[FirstIndex(s, x) + 1..]
  {
    if s[0] != x {
      var t := s[1..];
      assert s == [s[0]] + t;
      RemoveFirstCutsFirst(t, x);
      var k := FirstIndex(t, x);
      assert s[..k + 1] == [s[0]] + t[..k];
      assert s[k + 2..] == t[k + 1..];
    }
  }

  /** RemoveFirst takes one x out of the multiset of elements, and nothing else. */
  lemma {:induction false} RemoveFirstMultiset(s: seq<string>, x: string)
    ensures multiset(RemoveFirst(s, x)) == multiset(s) - multiset{x}
  {
    if s != [] {
      var t := s[1..];
      assert s == [s[0]] + t;
      assert multiset(s) == multiset{s[0]} + multiset(t);
      if s[0] != x {
        RemoveFirstMultiset(t, x);
        assert multiset(RemoveFirst(s, x)) == multiset{s[0]} + multiset(RemoveFirst(t, x));
      }
    }
  }

  class VersionManager {
    /** Class paths of the old versions, by version. */
    var classPaths: map<string, string>
    /** The versions, in the order their entries were read. */
    var testVersions: seq<string>
    /** The oldest version; None (Java null) until a file has been loaded. */
    var oldestVersion: Option<string>

    ghost predicate Valid()
      reads this
    {
      Consistent(classPaths, testVersions, oldestVersion)
    }

    /** The fields hold what loading `file` produces. */
    ghost predicate LoadedFrom(file: Option<seq<Entry>>)
      reads this
    {
      && classPaths == ClassPaths(Entries(file))
      && testVersions == Recorded(Entries(file))
      && oldestVersion == OldestAfterLoad(file)
    }

    /** A new registry is empty, the same state as one whose file was absent. */
    constructor ()
      ensures LoadedFrom(None) && Valid()
    {
      classPaths := map[];
      testVersions := [];
      oldestVersion := None;
    }

    /**
     * findVersions: run once on a new registry.  With the file present, every entry
     * whose key starts with "test" puts its class path under its version and appends
     * the version to testVersions, and oldestVersion is set from the running minimum;
     * with the file absent nothing changes.
     */
    method FindVersions(file: Option<seq<Entry>>)
      requires LoadedFrom(None)
      modifies this
      ensures LoadedFrom(file) && Valid()
    {
      var oldver := Seed;
      if file.Some? {
        var entries := file.value;
        var i := 0;
        while i < |entries|
          invariant 0 <= i <= |entries|
          invariant testVersions == Recorded(entries[..i])
          invariant classPaths == ClassPaths(entries[..i])
          invariant oldver == RunningMin(entries[..i])
          invariant oldestVersion == None
        {
          var key := entries[i].key;
          if StartsWith(key, Prefix) && |key| >= |Prefix| {
            var version;
            if key == Prefix {
              version := CurrentVersion;
            } else {
              version := key[|Prefix|..];
              if CompareTo(version, oldver) < 0 {
                oldver := version;
              }
            }
            classPaths := classPaths[version := entries[i].value];
            testVersions := testVersions + [version];
          }
          assert entries[..i + 1][..i] == entries[..i];
          i := i + 1;
        }
        assert entries[..i] == entries;
        if oldver == Seed {
          oldestVersion := Some(CurrentVersion);
        } else {
          oldestVersion := Some(oldver);
        }
      }
      LoadedConsistent(file);
    }

    /** isValidVersion: "000", or a version listed by GetVersions. */
    function IsValidVersion(version: string): (b: bool)
      reads this
      requires Valid()
      ensures b <==> version == CurrentVersion || version in testVersions
      ensures IsCurrentVersion(version) ==> b
    {
      version == CurrentVersion || version in classPaths
    }

    /** isCurrentVersion: the version that the bare key "test" is recorded under. */
    static function IsCurrentVersion(version: string): (b: bool)
      ensures b <==> VersionOf(Prefix) == Some(version)
    {
      version == CurrentVersion
    }

    /** getClasspath: the class path of a listed version, None (null) for any other. */
    function GetClasspath(version: string): (r: Option<string>)
      reads this
      requires Valid()
      ensures r.Some? <==> version in testVersions
      ensures r.Some? ==> version in classPaths && r.value == classPaths[version]
    {
      if version in classPaths then Some(classPaths[version]) else None
    }

    /** getVersions: the recorded versions, in reading order, each with a class path. */
    function GetVersions(): (r: seq<string>)
      reads this
      requires Valid()
      ensures r == testVersions
      ensures forall v :: v in r <==> v in classPaths
    {
      testVersions
    }

    /**
     * getVersionsWithoutCurrent: a copy of testVersions from which the first "000",
     * if any, has been removed.
     */
    method GetVersionsWithoutCurrent() returns (result: seq<string>)
      ensures result == RemoveFirst(testVersions, CurrentVersion)
    {
      result := testVersions;
      var i := 0;
      while i < |result| && result[i] != CurrentVersion
        invariant 0 <= i <= |result|
        invariant CurrentVersion !in result[..i]
        invariant RemoveFirst(result, CurrentVersion) == result[..i] + RemoveFirst(result[i..], CurrentVersion)
      {
        assert result[i..] == [result[i]] + result[i + 1..];
        assert result[..i + 1] == result[..i] + [result[i]];
        i := i + 1;
      }
      if i < |result| {
        result := result[..i] + result[i + 1..];
      }
    }

    /** getOldestVersion: "000" or the smallest listed version other than "000"; None (null) before loading a file. */
    function GetOldestVersion(): (r: Option<string>)
      reads this
      requires Valid()
      ensures r == oldestVersion
      ensures r.Some? ==> r.value == CurrentVersion || (r.value in classPaths && Below(r.value, Seed))
      ensures r.Some? ==> forall v :: v in testVersions && v != CurrentVersion ==> !Below(v, r.value)
    {
      oldestVersion
    }
  }

  /** The static part of VersionManager: the lazily created `instance`. */
  class VersionManagerStatics {
    var instance: VersionManager?

    ghost predicate Valid()
      reads this, instance
    {
      instance != null ==> instance.Valid()
    }

    /** Before the first getInstance, there is no instance. */
    constructor ()
      ensures instance == null && Valid()
    {
      instance := null;
    }

    /** init: create a registry, publish it, and load it from `file`. */
    method Init(file: Option<seq<Entry>>)
      modifies this
      ensures instance != null && fresh(instance)
      ensures instance.LoadedFrom(file) && Valid()
    {
      instance := new VersionManager();
      instance.FindVersions(file);
    }

    /**
     * getInstance: the first call loads the registry from `file`; every later call
     * returns that same registry, unchanged, and does not look at `file` at all.
     */
    method GetInstance(file: Option<seq<Entry>>) returns (vm: VersionManager)
      requires Valid()
      modifies this
      ensures Valid() && instance == vm
      ensures old(instance) == null ==> fresh(vm) && vm.LoadedFrom(file)
      ensures old(instance) != null ==> vm == old(instance) && unchanged(vm)
    {
      if instance == null {
        Init(file);
      }
      vm := instance;
    }
  }

  /**
   * A registry whose file was absent accepts only "000", lists nothing, has no
   * class path for anything, and leaves the oldest version null.
   */
  lemma AbsentFileRegistry(vm: VersionManager, v: string)
    requires vm.LoadedFrom(None)
    ensures vm.Valid()
    ensures vm.IsValidVersion(v) <==> v == CurrentVersion
    ensures vm.GetClasspath(v) == None && vm.GetVersions() == []
    ensures vm.GetOldestVersion() == None
  {
    LoadedConsistent(None);
  }

  /**
   * After loading a file, a version is valid exactly when it is "000" or some entry's
   * key yields it.
   */
  lemma ValidAfterLoad(vm: VersionManager, entries: seq<Entry>, v: string)
    requires vm.LoadedFrom(Some(entries))
    ensures vm.Valid()
    ensures vm.IsValidVersion(v) <==>
              v == CurrentVersion || exists i :: 0 <= i < |entries| && VersionOf(entries[i].key) == Some(v)
  {
    LoadedConsistent(Some(entries));
    RecordedElements(entries, v);
  }

  /**
   * After loading distinct-keyed entries, a version other than "000" resolves to the
   * class path of the one entry whose key is "test" followed by that version.
   */
  lemma ClasspathAfterLoad(vm: VersionManager, entries: seq<Entry>, i: int)
    requires vm.LoadedFrom(Some(entries)) && DistinctKeys(entries)
    requires 0 <= i < |entries| && Candidate(entries[i].key).Some?
    requires Candidate(entries[i].key).value != CurrentVersion
    ensures vm.Valid()
    ensures vm.GetClasspath(entries[i].key[|Prefix|..]) == Some(entries[i].value)
  {
    LoadedConsistent(Some(entries));
    ClassPathKeys(entries);
    ClassPathOfKey(entries, i, Candidate(entries[i].key).value);
  }

  /**
   * The two-entry file {test=/path/current, test1.8.0=/path/old}, in both orders the
   * Properties table may yield it.  Read as test, test1.8.0 the versions are
   * ["000", "1.8.0"]; read as test1.8.0, test they are ["1.8.0", "000"].  Either way
   * the list without current is ["1.8.0"], the oldest is "1.8.0", the class path of
   * "1.8.0" is "/path/old" and "9.9.9" has none.
   */
  lemma TwoEntryFile()
    ensures var e := [Entry("test", "/path/current"), Entry("test1.8.0", "/path/old")];
            && Recorded(e) == [CurrentVersion, "1.8.0"]
            && RemoveFirst(Recorded(e), CurrentVersion) == ["1.8.0"]
            && Oldest(e) == "1.8.0"
            && ClassPaths(e)["1.8.0"] == "/path/old"
            && "9.9.9" !in ClassPaths(e)
    ensures var e := [Entry("test1.8.0", "/path/old"), Entry("test", "/path/current")];
            && Recorded(e) == ["1.8.0", CurrentVersion]
            && RemoveFirst(Recorded(e), CurrentVersion) == ["1.8.0"]
            && Oldest(e) == "1.8.0"
            && ClassPaths(e)["1.8.0"] == "/path/old"
            && "9.9.9" !in ClassPaths(e)
  {
    assert VersionOf("test1.8.0") == Some("1.8.0");
    assert CompareTo("1.8.0", Seed) < 0;
    var e := [Entry("test", "/path/current"), Entry("test1.8.0", "/path/old")];
    assert e[..1] == [Entry("test", "/path/current")];
    assert RunningMin(e[..1]) == Seed;
    assert RunningMin(e) == "1.8.0";
    var f := [Entry("test1.8.0", "/path/old"), Entry("test", "/path/current")];
    assert f[..1] == [Entry("test1.8.0", "/path/old")];
    assert RunningMin(f[..1]) == "1.8.0";
    assert RunningMin(f) == "1.8.0";
  }
}
