/**
 * The entry-processing step of VersionManager.findVersions, stated as functions of
 * the sequence of (key, value) entries read from geodeOldVersionClasspaths.txt, in
 * the order in which the Properties table happens to yield them.  Each function folds
 * over the entries from the first to the last, the way the loop does, so that the
 * value for a prefix of the entries is the state of the loop after that prefix.
 */
module VersionProperties {
  import opened JavaStrings

  datatype Option<T> = None | Some(value: T)

  /** VersionManager.CURRENT_VERSION: the version under development. */
  const CurrentVersion: string := "000"

  /** The key prefix that marks a class-path entry. */
  const Prefix: string := "test"

  /** The initial value of the running minimum `oldver`. */
  const Seed: string := "ZZZ"

  /** One `key=value` entry of the properties file. */
  datatype Entry = Entry(key: string, value: string)

  /** The keys of a Properties table are distinct. */
  ghost predicate DistinctKeys(entries: seq<Entry>)
  {
    forall i, j :: 0 <= i < j < |entries| ==> entries[i].key != entries[j].key
  }

  /** The guard of the loop body: the key starts with "test" and is at least that long. */
  predicate IsTestKey(key: string)
  {
    StartsWith(key, Prefix) && |key| >= |Prefix|
  }

  /**
   * The version an entry is recorded under, or None for an ignored entry: "000" for
   * the bare key "test", otherwise the key without its first four characters.
   */
  function VersionOf(key: string): (r: Option<string>)
    ensures r.Some? <==> IsTestKey(key)
    ensures r.Some? && key != Prefix ==> key == Prefix + r.value
    ensures r.Some? ==> (r.value == CurrentVersion <==> key == Prefix || key == Prefix + CurrentVersion)
  {
    if !IsTestKey(key) then None
    else if key == Prefix then Some(CurrentVersion)
    else Some(key[|Prefix|..])
  }

  /**
   * The stripped version an entry offers to the running minimum; the bare key
   * "test" offers none.
   */
  function Candidate(key: string): (r: Option<string>)
    ensures r.Some? <==> IsTestKey(key) && key != Prefix
    ensures r.Some? ==> VersionOf(key) == r
  {
    if IsTestKey(key) && key != Prefix then Some(key[|Prefix|..]) else None
  }

  /** The list `testVersions` after the loop has processed `entries`. */
  function Recorded(entries: seq<Entry>): seq<string>
  {
    if entries == [] then []
    else
      var last := entries[|entries| - 1];
      var front := Recorded(entries[..|entries| - 1]);
      match VersionOf(last.key)
      case Some(v) => front + [v]
      case None => front
  }

  /** The map `classPaths` after the loop has processed `entries`: a later put wins. */
  function ClassPaths(entries: seq<Entry>): map<string, string>
  {
    if entries == [] then map[]
    else
      var last := entries[|entries| - 1];
      var front := ClassPaths(entries[..|entries| - 1]);
      match VersionOf(last.key)
      case Some(v) => front[v := last.value]
      case None => front
  }

  /** The accumulator `oldver` after the loop has processed `entries`. */
  function RunningMin(entries: seq<Entry>): string
  {
    if entries == [] then Seed
    else
      var last := entries[|entries| - 1];
      var front := RunningMin(entries[..|entries| - 1]);
      match Candidate(last.key)
      case Some(v) => if CompareTo(v, front) < 0 then v else front
      case None => front
  }

  /** The value findVersions gives `oldestVersion` when the file is present. */
  function Oldest(entries: seq<Entry>): string
  {
    var m := RunningMin(entries);
    if m == Seed then CurrentVersion else m
  }

  // ---------------------------------------------------------------------------
  // The recorded versions

  /**
   * One step of the loop: an entry whose key does not start with "test" changes
   * nothing; any other entry appends its version to the list, puts its value under
   * that version, and offers its stripped version (if any) to the running minimum.
   */
  lemma ProcessEntry(entries: seq<Entry>, x: Entry)
    ensures !IsTestKey(x.key) ==>
              && Recorded(entries + [x]) == Recorded(entries)
              && ClassPaths(entries + [x]) == ClassPaths(entries)
              && RunningMin(entries + [x]) == RunningMin(entries)
    ensures IsTestKey(x.key) ==>
              var v := VersionOf(x.key).value;
              && Recorded(entries + [x]) == Recorded(entries) + [v]
              && ClassPaths(entries + [x]) == ClassPaths(entries)[v := x.value]
    ensures x.key == Prefix ==> RunningMin(entries + [x]) == RunningMin(entries)
  {
    assert (entries + [x])[..|entries|] == entries;
  }

  /** Processing two runs of entries one after the other appends their versions. */
  lemma {:induction false} RecordedAppend(a: seq<Entry>, b: seq<Entry>)
    ensures Recorded(a + b) == Recorded(a) + Recorded(b)
  {
    if b == [] {
      assert a + b == a;
    } else {
      var b' := b[..|b| - 1];
      assert (a + b)[..|a + b| - 1] == a + b';
      RecordedAppend(a, b');
    }
  }

  /** The positions of the entries whose key passes the prefix test. */
  ghost function TestKeyPositions(entries: seq<Entry>): set<int>
  {
    set i | 0 <= i < |entries| && IsTestKey(entries[i].key)
  }

  /** One version is recorded per "test"-prefixed key, and none for the other keys. */
  lemma {:induction false} RecordedCount(entries: seq<Entry>)
    ensures |Recorded(entries)| == |TestKeyPositions(entries)|
  {
    if entries != [] {
      var n := |entries| - 1;
      var front := entries[..n];
      RecordedCount(front);
      if IsTestKey(entries[n].key) {
        assert TestKeyPositions(entries) == TestKeyPositions(front) + {n};
      } else {
        assert TestKeyPositions(entries) == TestKeyPositions(front);
      }
    }
  }

  /** A version is recorded exactly when some entry's key yields it. */
  lemma {:induction false} RecordedElements(entries: seq<Entry>, v: string)
    ensures v in Recorded(entries) <==> exists i :: 0 <= i < |entries| && VersionOf(entries[i].key) == Some(v)
  {
    if entries != [] {
      var n := |entries| - 1;
      var front := entries[..n];
      RecordedElements(front, v);
      if exists i :: 0 <= i < |entries| && VersionOf(entries[i].key) == Some(v) {
        var i :| 0 <= i < |entries| && VersionOf(entries[i].key) == Some(v);
        if i < n {
          assert front[i] == entries[i];
        }
      }
      if exists i :: 0 <= i < n && VersionOf(front[i].key) == Some(v) {
        var i :| 0 <= i < n && VersionOf(front[i].key) == Some(v);
        assert entries[i] == front[i];
      }
    }
  }

  // ---------------------------------------------------------------------------
  // The class-path map

  /** The keys of classPaths are exactly the elements of testVersions. */
  lemma {:induction false} ClassPathKeys(entries: seq<Entry>)
    ensures ClassPaths(entries).Keys == set v | v in Recorded(entries)
  {
    if entries != [] {
      ClassPathKeys(entries[..|entries| - 1]);
    }
  }

  /**
   * A version is bound to the value of the last entry whose key yields it, whatever
   * entries come after that one.
   */
  lemma {:induction false} ClassPathLastWins(entries: seq<Entry>, i: int, v: string)
    requires 0 <= i < |entries| && VersionOf(entries[i].key) == Some(v)
    requires forall j :: i < j < |entries| ==> VersionOf(entries[j].key) != Some(v)
    ensures v in ClassPaths(entries) && ClassPaths(entries)[v] == entries[i].value
  {
    var n := |entries| - 1;
    if i < n {
      var front := entries[..n];
      assert front[i] == entries[i];
      ClassPathLastWins(front, i, v);
    }
  }

  /**
   * Two distinct recorded keys yield the same version exactly when they are "test"
   * and "test000", which both yield CurrentVersion.
   */
  lemma VersionOfCollision(k1: string, k2: string)
    requires k1 != k2 && VersionOf(k1).Some? && VersionOf(k2).Some?
    ensures VersionOf(k1) == VersionOf(k2) <==> {k1, k2} == {Prefix, Prefix + CurrentVersion}
  {
    if {k1, k2} == {Prefix, Prefix + CurrentVersion} {
      assert k1 == Prefix || k1 == Prefix + CurrentVersion;
      assert k2 == Prefix || k2 == Prefix + CurrentVersion;
    }
  }

  /**
   * With distinct keys, a version other than "000" comes from one entry only, so it
   * is bound to that entry's value in whatever order the entries were read.
   */
  lemma ClassPathOfKey(entries: seq<Entry>, i: int, v: string)
    requires DistinctKeys(entries)
    requires 0 <= i < |entries| && VersionOf(entries[i].key) == Some(v) && v != CurrentVersion
    ensures v in ClassPaths(entries) && ClassPaths(entries)[v] == entries[i].value
  {
    forall j | i < j < |entries|
      ensures VersionOf(entries[j].key) != Some(v)
    {
      if VersionOf(entries[j].key).Some? {
        VersionOfCollision(entries[i].key, entries[j].key);
      }
    }
    ClassPathLastWins(entries, i, v);
  }

  /**
   * Reading the same distinct-keyed entries in another order gives the same keys,
   * and the same class path for every version but "000".
   */
  lemma ClassPathsOrderIndependent(e1: seq<Entry>, e2: seq<Entry>)
    requires multiset(e1) == multiset(e2) && DistinctKeys(e1) && DistinctKeys(e2)
    ensures ClassPaths(e1).Keys == ClassPaths(e2).Keys
    ensures forall v :: v in ClassPaths(e1) && v != CurrentVersion ==> ClassPaths(e1)[v] == ClassPaths(e2)[v]
  {
    ClassPathKeys(e1);
    ClassPathKeys(e2);
    forall v | v in ClassPaths(e1)
      ensures v in ClassPaths(e2)
      ensures v != CurrentVersion ==> ClassPaths(e1)[v] == ClassPaths(e2)[v]
    {
      RecordedElements(e1, v);
      RecordedElements(e2, v);
      var i :| 0 <= i < |e1| && VersionOf(e1[i].key) == Some(v);
      assert e1[i] in multiset(e2);
      var j :| 0 <= j < |e2| && e2[j] == e1[i];
      if v != CurrentVersion {
        ClassPathOfKey(e1, i, v);
        ClassPathOfKey(e2, j, v);
      }
    }
    forall v | v in ClassPaths(e2)
      ensures v in ClassPaths(e1)
    {
      RecordedElements(e1, v);
      RecordedElements(e2, v);
      var j :| 0 <= j < |e2| && VersionOf(e2[j].key) == Some(v);
      assert e2[j] in multiset(e1);
      var i :| 0 <= i < |e1| && e1[i] == e2[j];
    }
  }

  /**
   * The class path of "000" does depend on the order: with both "test" and "test000"
   * present, whichever is read last wins, and "000" is recorded twice.
   */
  lemma CurrentClassPathDependsOnOrder()
    ensures var e1 := [Entry("test", "a"), Entry("test000", "b")];
            var e2 := [Entry("test000", "b"), Entry("test", "a")];
            && multiset(e1) == multiset(e2) && DistinctKeys(e1) && DistinctKeys(e2)
            && ClassPaths(e1)[CurrentVersion] == "b" && ClassPaths(e2)[CurrentVersion] == "a"
            && Recorded(e1) == [CurrentVersion, CurrentVersion]
            && Recorded(e2) == [CurrentVersion, CurrentVersion]
  {
    var e1 := [Entry("test", "a"), Entry("test000", "b")];
    var e2 := [Entry("test000", "b"), Entry("test", "a")];
    assert e1[..1] == [Entry("test", "a")] && e2[..1] == [Entry("test000", "b")];
    assert VersionOf("test000") == Some(CurrentVersion);
  }

  /**
   * With distinct keys, when both "test" and "test000" are present the class path of
   * "000" is the value of whichever of the two is read later.
   */
  lemma CurrentClassPathLastRead(entries: seq<Entry>, i: int, j: int)
    requires DistinctKeys(entries) && 0 <= i < j < |entries|
    requires {entries[i].key, entries[j].key} == {Prefix, Prefix + CurrentVersion}
    ensures CurrentVersion in ClassPaths(entries) && ClassPaths(entries)[CurrentVersion] == entries[j].value
  {
    assert VersionOf(Prefix) == Some(CurrentVersion);
    assert VersionOf(Prefix + CurrentVersion) == Some(CurrentVersion);
    assert entries[j].key == Prefix || entries[j].key == Prefix + CurrentVersion;
    forall k | j < k < |entries|
      ensures VersionOf(entries[k].key) != Some(CurrentVersion)
    {
      assert entries[k].key != entries[i].key && entries[k].key != entries[j].key;
    }
    ClassPathLastWins(entries, j, CurrentVersion);
  }

  /**
   * Without the bare "test", a "test000" entry is the only one recorded as "000":
   * "000" is listed once and bound to that entry's value.
   */
  lemma {:induction false} Test000Alone(entries: seq<Entry>, i: int)
    requires DistinctKeys(entries) && 0 <= i < |entries| && entries[i].key == Prefix + CurrentVersion
    requires forall k :: 0 <= k < |entries| ==> entries[k].key != Prefix
    ensures CurrentVersion in ClassPaths(entries) && ClassPaths(entries)[CurrentVersion] == entries[i].value
    ensures multiset(Recorded(entries))[CurrentVersion] == 1
  {
    assert VersionOf(Prefix + CurrentVersion) == Some(CurrentVersion);
    forall k | 0 <= k < |entries| && k != i
      ensures VersionOf(entries[k].key) != Some(CurrentVersion)
    {
      assert entries[k].key != entries[i].key;
    }
    ClassPathLastWins(entries, i, CurrentVersion);
    var n := |entries| - 1;
    var front := entries[..n];
    if i == n {
      forall k | 0 <= k < n
        ensures VersionOf(front[k].key) != Some(CurrentVersion)
      {
        assert front[k] == entries[k];
      }
      RecordedElements(front, CurrentVersion);
      assert Recorded(entries) == Recorded(front) + [CurrentVersion];
    } else {
      assert front[i] == entries[i];
      Test000Alone(front, i);
      assert VersionOf(entries[n].key) != Some(CurrentVersion);
    }
  }

  // ---------------------------------------------------------------------------
  // The oldest version

  /**
   * The running minimum never exceeds the seed; unless it is still the seed it is
   * one of the stripped versions and lies below the seed; and it is at most every
   * stripped version seen so far.
   */
  lemma {:induction false} RunningMinIsMinimum(entries: seq<Entry>)
    ensures var m := RunningMin(entries);
            && (m == Seed || exists i :: 0 <= i < |entries| && Candidate(entries[i].key) == Some(m))
            && (m == Seed || Below(m, Seed))
            && forall i :: 0 <= i < |entries| && Candidate(entries[i].key).Some? ==>
                 !Below(Candidate(entries[i].key).value, m)
  {
    if entries != [] {
      var n := |entries| - 1;
      var front := entries[..n];
      RunningMinIsMinimum(front);
      var f := RunningMin(front);
      var m := RunningMin(entries);
      if exists i :: 0 <= i < n && Candidate(front[i].key) == Some(f) {
        var i :| 0 <= i < n && Candidate(front[i].key) == Some(f);
        assert entries[i] == front[i];
      }
      if m != f && f != Seed {
        BelowTransitive(m, f, Seed);
      }
      forall i | 0 <= i < |entries| && Candidate(entries[i].key).Some?
        ensures !Below(Candidate(entries[i].key).value, m)
      {
        var c := Candidate(entries[i].key).value;
        if i < n {
          assert front[i] == entries[i];
          if m != f && Below(c, m) {
            BelowTransitive(c, m, f);
          }
        } else {
          BelowTotal(c, f);
        }
      }
    }
  }

  /** The stripped versions the entries offer to the running minimum. */
  ghost function Candidates(entries: seq<Entry>): set<string>
  {
    set i | 0 <= i < |entries| && Candidate(entries[i].key).Some? :: Candidate(entries[i].key).value
  }

  /**
   * oldestVersion is "000" when no stripped version lies below "ZZZ"; otherwise it
   * is the smallest stripped version under compareTo.  The bare key "test" never
   * takes part.
   */
  lemma OldestIsMinimum(entries: seq<Entry>)
    ensures (forall c :: c in Candidates(entries) ==> !Below(c, Seed)) ==> Oldest(entries) == CurrentVersion
    ensures (exists c :: c in Candidates(entries) && Below(c, Seed)) ==>
              && Oldest(entries) in Candidates(entries)
              && Below(Oldest(entries), Seed)
              && forall c :: c in Candidates(entries) ==> !Below(c, Oldest(entries))
  {
    RunningMinIsMinimum(entries);
    var m := RunningMin(entries);
    BelowIrreflexive(Seed);
    forall c | c in Candidates(entries)
      ensures !Below(c, m)
    {
      var i :| 0 <= i < |entries| && Candidate(entries[i].key) == Some(c);
    }
    if m != Seed {
      var i :| 0 <= i < |entries| && Candidate(entries[i].key) == Some(m);
      assert m in Candidates(entries);
    }
  }

  /** A stripped version at or above "ZZZ", such as "abc", never becomes the oldest. */
  lemma NeverOldestAboveSeed(entries: seq<Entry>, c: string)
    requires c in Candidates(entries) && !Below(c, Seed)
    ensures Oldest(entries) != c
  {
    OldestIsMinimum(entries);
    assert Below(CurrentVersion, Seed);
  }

  /** Entries with the same multiset offer the same stripped versions. */
  lemma CandidatesOfPermutation(e1: seq<Entry>, e2: seq<Entry>)
    requires multiset(e1) == multiset(e2)
    ensures Candidates(e1) == Candidates(e2)
  {
    forall c | c in Candidates(e1)
      ensures c in Candidates(e2)
    {
      var i :| 0 <= i < |e1| && Candidate(e1[i].key) == Some(c);
      assert e1[i] in multiset(e2);
      var j :| 0 <= j < |e2| && e2[j] == e1[i];
    }
    forall c | c in Candidates(e2)
      ensures c in Candidates(e1)
    {
      var j :| 0 <= j < |e2| && Candidate(e2[j].key) == Some(c);
      assert e2[j] in multiset(e1);
      var i :| 0 <= i < |e1| && e1[i] == e2[j];
    }
  }

  /** The oldest version does not depend on the order in which the entries are read. */
  lemma OldestOrderIndependent(e1: seq<Entry>, e2: seq<Entry>)
    requires multiset(e1) == multiset(e2)
    ensures Oldest(e1) == Oldest(e2)
  {
    CandidatesOfPermutation(e1, e2);
    OldestIsMinimum(e1);
    OldestIsMinimum(e2);
    BelowTotal(Oldest(e1), Oldest(e2));
  }

  /** The minimum is lexicographic: "1.10.0" counts as older than "1.8.0". */
  lemma LexicographicOldest()
    ensures Oldest([Entry("test1.8.0", "old8"), Entry("test1.10.0", "old10")]) == "1.10.0"
  {
    var e := [Entry("test1.8.0", "old8"), Entry("test1.10.0", "old10")];
    assert e[..1] == [Entry("test1.8.0", "old8")];
    assert Candidate("test1.8.0") == Some("1.8.0");
    assert Candidate("test1.10.0") == Some("1.10.0");
    assert CompareTo("1.8.0", Seed) < 0;
    assert "1.10.0"[2..] == "10.0" && "1.8.0"[2..] == "8.0";
    assert CompareTo("10.0", "8.0") < 0;
    assert CompareTo("1.10.0", "1.8.0") < 0;
    assert RunningMin(e[..1]) == "1.8.0";
    assert RunningMin(e) == "1.10.0";
  }
}
