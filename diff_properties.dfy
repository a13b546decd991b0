/**
 * Properties of the enrolment diff of `src/lib/course-new.ts`: the three deltas
 * partition the changed keys, only lab records take part, the diff of a snapshot
 * with itself is empty, swapping the snapshots swaps drops and adds, applying the
 * deltas to the old roster gives the new one, and the order of the records does
 * not matter when keys are consistent.
 */
module DiffProperties {
  import opened Strings
  import opened EnrolmentDiff

  /**
   * Drops, adds and swaps are pairwise disjoint, and a key lies in one of them
   * exactly when it is in one snapshot only or in both with different sections.
   */
  lemma DeltasPartition(oldMap: map<string, string>, newMap: map<string, string>)
    ensures var d := DiffMaps(oldMap, newMap);
      d.drops.Keys !! d.adds.Keys && d.drops.Keys !! d.swaps.Keys && d.adds.Keys !! d.swaps.Keys
    ensures var d := DiffMaps(oldMap, newMap);
      forall k :: k in d.drops || k in d.adds || k in d.swaps
        <==> (k in oldMap || k in newMap) && !(k in oldMap && k in newMap && oldMap[k] == newMap[k])
  {
  }

  /** `diff(S, S)` yields three empty maps. */
  lemma DiffOfSelf(data: seq<EnrolmentData>)
    ensures DiffOf(data, data) == Deltas(map[], map[], map[])
  {
    var d := DiffOf(data, data);
    assert d.drops.Keys == {} && d.adds.Keys == {} && d.swaps.Keys == {};
  }

  /** Exchanging the snapshots exchanges drops and adds and keeps the swapped keys, each swap reversed. */
  lemma DiffMapsReversed(oldMap: map<string, string>, newMap: map<string, string>)
    ensures DiffMaps(newMap, oldMap).drops == DiffMaps(oldMap, newMap).adds
    ensures DiffMaps(newMap, oldMap).adds == DiffMaps(oldMap, newMap).drops
    ensures DiffMaps(newMap, oldMap).swaps.Keys == DiffMaps(oldMap, newMap).swaps.Keys
    ensures forall k :: k in DiffMaps(newMap, oldMap).swaps ==>
      DiffMaps(newMap, oldMap).swaps[k] == SwapValue(newMap[k], oldMap[k])
  {
  }

  /** Some lab record of `data` has key `k`. */
  ghost predicate HasLabKey(data: seq<EnrolmentData>, k: string)
  {
    exists d :: d in data && IsLab(d) && KeyOf(d) == k
  }

  /** A key is in the lab map exactly when some lab record carries it; its value is the section of one such record. */
  lemma LabMapEntries(data: seq<EnrolmentData>, k: string)
    ensures k in EnrolmentMap(FilterLabs(data)) <==> HasLabKey(data, k)
    ensures k in EnrolmentMap(FilterLabs(data)) ==>
      exists d :: d in data && IsLab(d) && KeyOf(d) == k && EnrolmentMap(FilterLabs(data))[k] == d.section
  {
    var labs := FilterLabs(data);
    EnrolmentMapEntries(labs, k);
    if HasLabKey(data, k) {
      var d :| d in data && IsLab(d) && KeyOf(d) == k;
      var i :| 0 <= i < |labs| && labs[i] == d;
    }
    if k in EnrolmentMap(labs) {
      var i :| LastWithKey(labs, k, i) && EnrolmentMap(labs)[k] == labs[i].section;
      assert labs[i] in labs;
    }
  }

  /**
   * A dropped key is carried by a lab record of the old snapshot and by none of
   * the new one, and it is valued by an old lab record's section; an added key
   * likewise the other way round.
   */
  lemma DropsAndAddsOfRecords(oldData: seq<EnrolmentData>, newData: seq<EnrolmentData>, k: string)
    ensures k in DiffOf(oldData, newData).drops <==> HasLabKey(oldData, k) && !HasLabKey(newData, k)
    ensures k in DiffOf(oldData, newData).adds <==> HasLabKey(newData, k) && !HasLabKey(oldData, k)
    ensures k in DiffOf(oldData, newData).drops ==>
      exists d :: d in oldData && IsLab(d) && KeyOf(d) == k && DiffOf(oldData, newData).drops[k] == d.section
    ensures k in DiffOf(oldData, newData).adds ==>
      exists d :: d in newData && IsLab(d) && KeyOf(d) == k && DiffOf(oldData, newData).adds[k] == d.section
  {
    LabMapEntries(oldData, k);
    LabMapEntries(newData, k);
  }

  /**
   * Only lab records take part: a key that no lab record of either snapshot
   * carries appears in no delta, whatever its non-lab records say.
   */
  lemma NonLabKeysIgnored(oldData: seq<EnrolmentData>, newData: seq<EnrolmentData>, k: string)
    requires !HasLabKey(oldData, k) && !HasLabKey(newData, k)
    ensures k !in DiffOf(oldData, newData).drops
    ensures k !in DiffOf(oldData, newData).adds
    ensures k !in DiffOf(oldData, newData).swaps
  {
    LabMapEntries(oldData, k);
    LabMapEntries(newData, k);
  }

  /** Non-lab records can be added to or removed from either snapshot without changing the diff. */
  lemma NonLabRecordsIrrelevant(oldData: seq<EnrolmentData>, newData: seq<EnrolmentData>, extra: EnrolmentData)
    requires !IsLab(extra)
    ensures DiffOf(oldData + [extra], newData) == DiffOf(oldData, newData)
    ensures DiffOf(oldData, newData + [extra]) == DiffOf(oldData, newData)
  {
    FilterLabsAppendNonLab(oldData, extra);
    FilterLabsAppendNonLab(newData, extra);
  }

  lemma {:induction false} FilterLabsAppendNonLab(data: seq<EnrolmentData>, extra: EnrolmentData)
    requires !IsLab(extra)
    ensures FilterLabs(data + [extra]) == FilterLabs(data)
  {
    if data == [] {
      assert FilterLabs([extra]) == [] + FilterLabs([]);
    } else {
      assert (data + [extra])[1..] == data[1..] + [extra];
      FilterLabsAppendNonLab(data[1..], extra);
    }
  }

  /**
   * What the three apply procedures do to a roster (key -> section): drops leave
   * it, adds join it, and a swapped key moves to the section after "->".
   */
  function ApplyDeltas(roster: map<string, string>, d: Deltas): map<string, string>
  {
    map k | k in (roster.Keys - d.drops.Keys) + d.adds.Keys ::
      if k in d.adds then d.adds[k]
      else if k in d.swaps && |SplitSwap(d.swaps[k])| >= 2 then SplitSwap(d.swaps[k])[1]
      else roster[k]
  }

  /** No section name in the roster contains the swap separator. */
  ghost predicate ArrowFree(m: map<string, string>)
  {
    forall k :: k in m ==> Free(m[k], "->")
  }

  /** Applying the deltas of the diff to the old roster yields exactly the new roster. */
  lemma ApplyDiffYieldsNew(oldMap: map<string, string>, newMap: map<string, string>)
    requires ArrowFree(oldMap) && ArrowFree(newMap)
    ensures ApplyDeltas(oldMap, DiffMaps(oldMap, newMap)) == newMap
  {
    var d := DiffMaps(oldMap, newMap);
    var applied := ApplyDeltas(oldMap, d);
    assert applied.Keys == newMap.Keys;
    forall k | k in newMap
      ensures applied[k] == newMap[k]
    {
      if k in d.swaps {
        SwapRoundTrip(oldMap[k], newMap[k]);
      }
    }
  }

  /**
   * With consistent keys, the diff depends only on which records each snapshot
   * holds: sorting, reordering or repeating records does not change it.
   */
  lemma DiffOfPermutationInvariant(oldData: seq<EnrolmentData>, newData: seq<EnrolmentData>,
                                   oldData': seq<EnrolmentData>, newData': seq<EnrolmentData>)
    requires multiset(oldData) == multiset(oldData') && multiset(newData) == multiset(newData')
    requires ConsistentKeys(FilterLabs(oldData)) && ConsistentKeys(FilterLabs(newData))
    ensures DiffOf(oldData, newData) == DiffOf(oldData', newData')
  {
    SameLabRecords(oldData, oldData');
    SameLabRecords(newData, newData');
    EnrolmentMapOrderFree(FilterLabs(oldData), FilterLabs(oldData'));
    EnrolmentMapOrderFree(FilterLabs(newData), FilterLabs(newData'));
  }

  lemma SameLabRecords(s: seq<EnrolmentData>, t: seq<EnrolmentData>)
    requires multiset(s) == multiset(t)
    ensures forall d :: d in FilterLabs(s) <==> d in FilterLabs(t)
  {
    forall d
      ensures d in s <==> d in t
    {
      assert d in s <==> d in multiset(s);
      assert d in t <==> d in multiset(t);
    }
  }
}
