/**
 * The enrolment diff engine of `src/lib/course-new.ts`: enrolment records are
 * sorted in place, filtered to lab sections, keyed by `sid,semester,course`
 * (comma-joined) and compared as two maps key -> section, giving the drops
 * (keys only in the old snapshot), the adds (keys only in the new one) and the
 * swaps (common keys whose section changed, valued `old->new`).
 */
module EnrolmentDiff {
  import opened Results
  import opened Strings

  /** One (student, semester, course) -> section membership fact. */
  datatype EnrolmentData = EnrolmentData(sid: string, semester: nat, course: string, section: string)

  // ---------------------------------------------------------------------------
  // Lab filter (filterLabs)
  // ---------------------------------------------------------------------------

  /** Only lab sections, whose names start with "LA", take part in the diff. */
  predicate IsLab(d: EnrolmentData)
  {
    StartsWith(d.section, "LA")
  }

  /** `data.filter(filterLabs)`: the lab records, in their original order. */
  function FilterLabs(data: seq<EnrolmentData>): (r: seq<EnrolmentData>)
    ensures |r| <= |data|
    ensures forall d :: d in r <==> d in data && IsLab(d)
  {
    if data == [] then []
    else (if IsLab(data[0]) then [data[0]] else []) + FilterLabs(data[1..])
  }

  // ---------------------------------------------------------------------------
  // Key codec (toEnrolmentMap's key, extractKey) and swap values
  // ---------------------------------------------------------------------------

  /** `[sid, semester, course].toString()`: the three fields joined by commas. */
  function KeyOf(d: EnrolmentData): string
  {
    Join([d.sid, NatToString(d.semester), d.course], ",")
  }

  /** `extractKey`: the key split at every comma. */
  function ExtractKey(key: string): seq<string>
  {
    Split(key, ",")
  }

  /** No field of the key contains the separator. */
  predicate CommaFree(d: EnrolmentData)
  {
    ',' !in d.sid && ',' !in d.course
  }

  /** Decoding a key gives back the student id, the semester and the course when neither text field holds a comma. */
  lemma KeyRoundTrip(d: EnrolmentData)
    requires CommaFree(d)
    ensures ExtractKey(KeyOf(d)) == [d.sid, NatToString(d.semester), d.course]
    ensures ParseInt(ExtractKey(KeyOf(d))[1]) == Some(d.semester)
  {
    var fields := [d.sid, NatToString(d.semester), d.course];
    FreeOfChar(d.sid, ',');
    FreeOfChar(d.course, ',');
    FreeOfChar(NatToString(d.semester), ',');
    assert Unbordered(",");
    SplitJoin(fields, ",");
    ParseIntNatToString(d.semester);
  }

  /** For comma-free records, two records share a key exactly when they agree on student, semester and course. */
  lemma KeyInjective(a: EnrolmentData, b: EnrolmentData)
    requires CommaFree(a) && CommaFree(b)
    ensures KeyOf(a) == KeyOf(b) <==> (a.sid, a.semester, a.course) == (b.sid, b.semester, b.course)
  {
    KeyRoundTrip(a);
    KeyRoundTrip(b);
  }

  /** The swap value `${old}->${new}`. */
  function SwapValue(oldSection: string, newSection: string): string
  {
    oldSection + "->" + newSection
  }

  /** `v.split("->")`, as the swap procedure decodes a swap value. */
  function SplitSwap(v: string): seq<string>
  {
    Split(v, "->")
  }

  /** A swap value splits back into its two sections when neither contains "->". */
  lemma SwapRoundTrip(oldSection: string, newSection: string)
    requires Free(oldSection, "->") && Free(newSection, "->")
    ensures SplitSwap(SwapValue(oldSection, newSection)) == [oldSection, newSection]
  {
    assert Unbordered("->");
    SplitJoin([oldSection, newSection], "->");
  }

  // ---------------------------------------------------------------------------
  // Sorting (sortBySidThenCourse, Array.prototype.sort)
  // ---------------------------------------------------------------------------

  /** String comparison by character code, standing in for `localeCompare`: -1, 0 or 1. */
  function CompareStrings(a: string, b: string): int
  {
    if a == [] && b == [] then 0
    else if a == [] then -1
    else if b == [] then 1
    else if a[0] < b[0] then -1
    else if a[0] > b[0] then 1
    else CompareStrings(a[1..], b[1..])
  }

  lemma {:induction false} CompareStringsAntisymmetric(a: string, b: string)
    ensures CompareStrings(a, b) == -CompareStrings(b, a)
    ensures CompareStrings(a, b) == 0 <==> a == b
  {
    if a != [] && b != [] && a[0] == b[0] {
      CompareStringsAntisymmetric(a[1..], b[1..]);
      assert a == [a[0]] + a[1..] && b == [b[0]] + b[1..];
    }
  }

  /** The comparator: by student id, then by course. */
  function SortBySidThenCourse(a: EnrolmentData, b: EnrolmentData): int
  {
    var bySid := CompareStrings(a.sid, b.sid);
    if bySid == 0 then CompareStrings(a.course, b.course) else bySid
  }

  /** The comparator is antisymmetric, so it orders every pair one way or the other. */
  lemma ComparatorAntisymmetric(a: EnrolmentData, b: EnrolmentData)
    ensures SortBySidThenCourse(a, b) == -SortBySidThenCourse(b, a)
  {
    CompareStringsAntisymmetric(a.sid, b.sid);
    CompareStringsAntisymmetric(a.course, b.course);
  }

  /** Every neighbouring pair is in comparator order. */
  ghost predicate Sorted(s: seq<EnrolmentData>)
  {
    forall i :: 0 < i < |s| ==> SortBySidThenCourse(s[i - 1], s[i]) <= 0
  }

  /** `data.sort(sortBySidThenCourse)`: sorts the caller's array in place. */
  method SortInPlace(a: array<EnrolmentData>)
    modifies a
    ensures Sorted(a[..])
    ensures multiset(a[..]) == old(multiset(a[..]))
  {
    var cmp := SortBySidThenCourse;
    forall x, y
      ensures cmp(x, y) == -cmp(y, x)
    {
      ComparatorAntisymmetric(x, y);
    }
    var i := 1;
    while i < a.Length
      invariant a.Length == 0 || 1 <= i <= a.Length
      invariant forall k :: 0 < k < i && k < a.Length ==> cmp(a[k - 1], a[k]) <= 0
      invariant multiset(a[..]) == old(multiset(a[..]))
    {
      InsertIntoSorted(a, i, cmp);
      i := i + 1;
    }
  }

  /**
   * One insertion step under an antisymmetric comparator: moves `a[i]` down
   * into the sorted run `a[..i]`.
   */
  method InsertIntoSorted<T(!new)>(a: array<T>, i: nat, cmp: (T, T) -> int)
    requires 0 < i < a.Length
    requires forall x, y :: cmp(x, y) == -cmp(y, x)
    requires forall k :: 0 < k < i ==> cmp(a[k - 1], a[k]) <= 0
    modifies a
    ensures forall k :: 0 < k <= i ==> cmp(a[k - 1], a[k]) <= 0
    ensures multiset(a[..]) == old(multiset(a[..]))
  {
    var j := i;
    while j > 0 && cmp(a[j - 1], a[j]) > 0
      invariant 0 <= j <= i
      invariant SortedExceptAt(a[..], i, j, cmp)
      invariant multiset(a[..]) == old(multiset(a[..]))
    {
      ghost var before := a[..];
      a[j - 1], a[j] := a[j], a[j - 1];
      assert a[..] == before[j - 1 := before[j]][j := before[j - 1]];
      SwapDown(before, i, j, cmp);
      j := j - 1;
    }
  }

  /**
   * The insertion invariant: the run `s[..i+1]` is in order except at the gap
   * `j`, and the neighbours of the gap are in order with each other.
   */
  ghost predicate SortedExceptAt<T>(s: seq<T>, i: nat, j: nat, cmp: (T, T) -> int)
  {
    && j <= i < |s|
    && (forall k :: 0 < k <= i && k != j ==> cmp(s[k - 1], s[k]) <= 0)
    && (0 < j < i ==> cmp(s[j - 1], s[j + 1]) <= 0)
  }

  /** Swapping an out-of-order pair at the gap moves the gap one place down. */
  lemma SwapDown<T(!new)>(s: seq<T>, i: nat, j: nat, cmp: (T, T) -> int)
    requires 0 < j && SortedExceptAt(s, i, j, cmp) && cmp(s[j - 1], s[j]) > 0
    requires forall x, y :: cmp(x, y) == -cmp(y, x)
    ensures SortedExceptAt(s[j - 1 := s[j]][j := s[j - 1]], i, j - 1, cmp)
    ensures multiset(s[j - 1 := s[j]][j := s[j - 1]]) == multiset(s)
  {
    assert cmp(s[j], s[j - 1]) < 0;
  }

  // ---------------------------------------------------------------------------
  // toEnrolmentMap
  // ---------------------------------------------------------------------------

  /** The map built by `map.set(key, section)` over the records in order: a later record overwrites an earlier one. */
  function EnrolmentMap(data: seq<EnrolmentData>): map<string, string>
  {
    if data == [] then map[]
    else EnrolmentMap(data[..|data| - 1])[KeyOf(data[|data| - 1]) := data[|data| - 1].section]
  }

  /** Index `i` holds the last record of `data` with key `k`. */
  ghost predicate LastWithKey(data: seq<EnrolmentData>, k: string, i: int)
  {
    0 <= i < |data| && KeyOf(data[i]) == k && forall j :: i < j < |data| ==> KeyOf(data[j]) != k
  }

  /** The map holds exactly the records' keys, each valued by the section of the LAST record with that key. */
  lemma EnrolmentMapEntries(data: seq<EnrolmentData>, k: string)
    ensures k in EnrolmentMap(data) <==> exists i :: 0 <= i < |data| && KeyOf(data[i]) == k
    ensures k in EnrolmentMap(data) ==> exists i :: LastWithKey(data, k, i) && EnrolmentMap(data)[k] == data[i].section
  {
    EnrolmentMapKeys(data, k);
    if k in EnrolmentMap(data) {
      EnrolmentMapLast(data, k);
    }
  }

  lemma {:induction false} EnrolmentMapKeys(data: seq<EnrolmentData>, k: string)
    ensures k in EnrolmentMap(data) <==> exists i :: 0 <= i < |data| && KeyOf(data[i]) == k
  {
    if data != [] {
      var n := |data| - 1;
      var prefix := data[..n];
      EnrolmentMapKeys(prefix, k);
      if KeyOf(data[n]) != k && exists i :: 0 <= i < |data| && KeyOf(data[i]) == k {
        var i :| 0 <= i < |data| && KeyOf(data[i]) == k;
        assert prefix[i] == data[i];
      }
    }
  }

  lemma {:induction false} EnrolmentMapLast(data: seq<EnrolmentData>, k: string)
    requires k in EnrolmentMap(data)
    ensures exists i :: LastWithKey(data, k, i) && EnrolmentMap(data)[k] == data[i].section
  {
    var n := |data| - 1;
    var prefix := data[..n];
    if KeyOf(data[n]) == k {
      assert LastWithKey(data, k, n);
    } else {
      EnrolmentMapLast(prefix, k);
      var i :| LastWithKey(prefix, k, i) && EnrolmentMap(prefix)[k] == prefix[i].section;
      assert LastWithKey(data, k, i);
    }
  }

  /** `toEnrolmentMap`: builds the map record by record. */
  method ToEnrolmentMap(data: seq<EnrolmentData>) returns (m: map<string, string>)
    ensures m == EnrolmentMap(data)
  {
    m := map[];
    for i := 0 to |data|
      invariant m == EnrolmentMap(data[..i])
    {
      assert data[..i + 1][..i] == data[..i];
      m := m[KeyOf(data[i]) := data[i].section];
    }
    assert data[..|data|] == data;
  }

  /** No two records with the same key disagree on the section (the snapshot invariant). */
  ghost predicate ConsistentKeys(data: seq<EnrolmentData>)
  {
    forall x, y :: x in data && y in data && KeyOf(x) == KeyOf(y) ==> x.section == y.section
  }

  /** With consistent keys, each record's key maps to that record's own section. */
  lemma EnrolmentMapOfConsistent(data: seq<EnrolmentData>, d: EnrolmentData)
    requires ConsistentKeys(data) && d in data
    ensures KeyOf(d) in EnrolmentMap(data) && EnrolmentMap(data)[KeyOf(d)] == d.section
  {
    var i :| 0 <= i < |data| && data[i] == d;
    EnrolmentMapEntries(data, KeyOf(d));
  }

  /** With consistent keys, the map depends only on which records are present, not on their order or repetition. */
  lemma {:induction false} EnrolmentMapOrderFree(s: seq<EnrolmentData>, t: seq<EnrolmentData>)
    requires ConsistentKeys(s) && forall d :: d in s <==> d in t
    ensures EnrolmentMap(s) == EnrolmentMap(t)
  {
    forall k
      ensures k in EnrolmentMap(s) <==> k in EnrolmentMap(t)
      ensures k in EnrolmentMap(s) ==> EnrolmentMap(s)[k] == EnrolmentMap(t)[k]
    {
      EnrolmentMapEntries(s, k);
      EnrolmentMapEntries(t, k);
      if k in EnrolmentMap(s) {
        var i :| 0 <= i < |s| && KeyOf(s[i]) == k;
        EnrolmentMapOfConsistent(s, s[i]);
        var j :| LastWithKey(t, k, j) && EnrolmentMap(t)[k] == t[j].section;
        assert t[j] in s;
      }
      if k in EnrolmentMap(t) {
        var j :| 0 <= j < |t| && KeyOf(t[j]) == k;
        assert t[j] in s;
      }
    }
  }

  // ---------------------------------------------------------------------------
  // diff
  // ---------------------------------------------------------------------------

  /** The three result maps of `diff`, keyed by enrolment key. */
  datatype Deltas = Deltas(drops: map<string, string>, adds: map<string, string>, swaps: map<string, string>)

  /**
   * What `diff` computes from the two keyed snapshots: the old-only keys with their
   * old section, the new-only keys with their new section, and the common keys
   * whose section differs, valued `old->new`.
   */
  function DiffMaps(oldMap: map<string, string>, newMap: map<string, string>): Deltas
  {
    Deltas(
      map k | k in oldMap && k !in newMap :: oldMap[k],
      map k | k in newMap && k !in oldMap :: newMap[k],
      map k | k in oldMap && k in newMap && oldMap[k] != newMap[k] :: SwapValue(oldMap[k], newMap[k]))
  }

  /** The diff of two record lists: filter to labs, key, then compare. */
  function DiffOf(oldData: seq<EnrolmentData>, newData: seq<EnrolmentData>): Deltas
  {
    DiffMaps(EnrolmentMap(FilterLabs(oldData)), EnrolmentMap(FilterLabs(newData)))
  }

  /**
   * The `forEach` that moves a batch of keys out of a working map:
   * `result.set(k, m.get(k)); m.delete(k)` for every key of the batch.
   */
  method MoveEntries(m: map<string, string>, keys: set<string>) returns (moved: map<string, string>, rest: map<string, string>)
    requires keys <= m.Keys
    ensures moved.Keys == keys && rest.Keys == m.Keys - keys
    ensures forall k :: k in moved ==> moved[k] == m[k]
    ensures forall k :: k in rest ==> rest[k] == m[k]
  {
    moved, rest := map[], m;
    var todo := keys;
    while todo != {}
      invariant todo <= keys
      invariant moved.Keys == keys - todo && rest.Keys == m.Keys - (keys - todo)
      invariant forall k :: k in moved ==> moved[k] == m[k]
      invariant forall k :: k in rest ==> rest[k] == m[k]
      decreases todo
    {
      var k :| k in todo;
      moved := moved[k := rest[k]];
      rest := rest - {k};
      todo := todo - {k};
    }
  }

  /** Three maps with the keys and values of the specification are the specification's deltas. */
  lemma DiffMapsFromParts(oldMap: map<string, string>, newMap: map<string, string>,
                          drops: map<string, string>, adds: map<string, string>, swaps: map<string, string>)
    requires forall k :: k in drops <==> k in oldMap && k !in newMap
    requires forall k :: k in drops ==> drops[k] == oldMap[k]
    requires forall k :: k in adds <==> k in newMap && k !in oldMap
    requires forall k :: k in adds ==> adds[k] == newMap[k]
    requires forall k :: k in swaps <==> k in oldMap && k in newMap && oldMap[k] != newMap[k]
    requires forall k :: k in swaps ==> swaps[k] == SwapValue(oldMap[k], newMap[k])
    ensures Deltas(drops, adds, swaps) == DiffMaps(oldMap, newMap)
  {
  }

  /**
   * After the drop keys are deleted from the old map and the add keys (computed
   * against the reduced old map) from the new map, both maps hold exactly the keys
   * the two snapshots share, each with its original section.
   */
  lemma RemainingKeysAgree(oldMap: map<string, string>, newMap: map<string, string>,
                           oldRemaining: map<string, string>, newRemaining: map<string, string>)
    requires oldRemaining.Keys == oldMap.Keys - (set k | k in oldMap && k !in newMap)
    requires newRemaining.Keys == newMap.Keys - (set k | k in newMap && k !in oldRemaining)
    ensures oldRemaining.Keys == newRemaining.Keys == oldMap.Keys * newMap.Keys
    ensures |oldRemaining| == |newRemaining|
  {
    assert oldRemaining.Keys == oldMap.Keys * newMap.Keys;
    assert newRemaining.Keys == oldMap.Keys * newMap.Keys;
  }

  /** The swaps `filter` and `forEach` over the remaining keys: common keys whose sections differ. */
  method CollectSwaps(oldRemaining: map<string, string>, newRemaining: map<string, string>) returns (swaps: map<string, string>)
    requires oldRemaining.Keys == newRemaining.Keys
    ensures forall k :: k in swaps <==> k in newRemaining && oldRemaining[k] != newRemaining[k]
    ensures forall k :: k in swaps ==> swaps[k] == SwapValue(oldRemaining[k], newRemaining[k])
  {
    swaps := map[];
    var swapsKeys := set k | k in newRemaining && oldRemaining[k] != newRemaining[k];
    var todo := swapsKeys;
    while todo != {}
      invariant todo <= swapsKeys
      invariant swaps.Keys == swapsKeys - todo
      invariant forall k :: k in swaps ==> swaps[k] == SwapValue(oldRemaining[k], newRemaining[k])
      decreases todo
    {
      var k :| k in todo;
      swaps := swaps[k := SwapValue(oldRemaining[k], newRemaining[k])];
      todo := todo - {k};
    }
  }

  /**
   * The body of `diff` after the maps are built: drop keys are deleted from the old
   * map as they are found, then add keys from the new map, the two sizes are
   * compared (throwing on a mismatch) and the swaps are read off the remaining
   * keys. The mismatch never happens (RemainingKeysAgree), so the result is
   * always the three deltas.
   */
  method SplitDeltas(oldMap: map<string, string>, newMap: map<string, string>) returns (r: Result<Deltas>)
    ensures r.Ok?
    ensures r == Ok(DiffMaps(oldMap, newMap))
  {
    var drops, adds, oldRemaining, newRemaining := SplitOffDropsAndAdds(oldMap, newMap);
    var message := MismatchMessage(|newRemaining|, |oldRemaining|);
    if |newRemaining| != |oldRemaining| {
      assert false;
      r := Err(message);
      return;
    }

    var swaps := CollectSwaps(oldRemaining, newRemaining);
    DiffMapsFromParts(oldMap, newMap, drops, adds, swaps);
    r := Ok(Deltas(drops, adds, swaps));
  }

  /** The message `diff` throws when the remaining maps differ in size. */
  function MismatchMessage(newSize: nat, oldSize: nat): string
  {
    "Inconsistent data sets detected, new map has size " + NatToString(newSize) + " while old had " + NatToString(oldSize)
  }

  /** The drop and add passes of `diff`, with what they leave of the two maps. */
  method SplitOffDropsAndAdds(oldMap: map<string, string>, newMap: map<string, string>)
    returns (drops: map<string, string>, adds: map<string, string>,
             oldRemaining: map<string, string>, newRemaining: map<string, string>)
    ensures forall k :: k in drops <==> k in oldMap && k !in newMap
    ensures forall k :: k in drops ==> drops[k] == oldMap[k]
    ensures forall k :: k in adds <==> k in newMap && k !in oldMap
    ensures forall k :: k in adds ==> adds[k] == newMap[k]
    ensures oldRemaining.Keys == newRemaining.Keys == oldMap.Keys * newMap.Keys
    ensures |oldRemaining| == |newRemaining|
    ensures forall k :: k in oldRemaining ==> oldRemaining[k] == oldMap[k] && newRemaining[k] == newMap[k]
  {
    var dropsKeys := set k | k in oldMap && k !in newMap;
    drops, oldRemaining := MoveEntries(oldMap, dropsKeys);
    var addsKeys := set k | k in newMap && k !in oldRemaining;
    adds, newRemaining := MoveEntries(newMap, addsKeys);
    RemainingKeysAgree(oldMap, newMap, oldRemaining, newRemaining);
  }

  /**
   * `diff(oldData, newData)`: sorts both caller arrays in place, keys their lab
   * records and splits the result into drops, adds and swaps.
   */
  method Diff(oldData: array<EnrolmentData>, newData: array<EnrolmentData>) returns (r: Result<Deltas>)
    modifies oldData, newData
    ensures Sorted(oldData[..]) && multiset(oldData[..]) == old(multiset(oldData[..]))
    ensures Sorted(newData[..]) && multiset(newData[..]) == old(multiset(newData[..]))
    ensures r == Ok(DiffOf(oldData[..], newData[..]))
  {
    SortInPlace(oldData);
    SortInPlace(newData);
    var oldMap := ToEnrolmentMap(FilterLabs(oldData[..]));
    var newMap := ToEnrolmentMap(FilterLabs(newData[..]));
    r := SplitDeltas(oldMap, newMap);
  }
}
