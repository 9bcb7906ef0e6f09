/** Reports and desires as JSON values: merge, diff, clean and patch, and the laws that tie them together. */
module Shadow {
  import opened Wrappers

  /** Arrays are leaves here, as they are for merging and for merge patches. */
  datatype Json =
    | Null
    | Bool(b: bool)
    | Number(n: real)
    | Text(s: string)
    | Array(items: seq<Json>)
    | Object(fields: map<string, Json>)

  const EMPTY := Object(map[])

  /** Not null, and no null as the value of a key in nested objects. */
  predicate NullFree(j: Json) {
    j != Null && (j.Object? ==> forall k | k in j.fields :: NullFree(j.fields[k]))
  }

  // ---------- The merge patch library ----------

  /** MergePatch of section 2 of RFC 7396; a target that is not there is passed as Null. */
  function Apply(target: Json, patch: Json): Json
    decreases patch
  {
    if !patch.Object? then patch
    else
      var base := if target.Object? then target.fields else map[];
      Object(map k | k in base.Keys + patch.fields.Keys && !(k in patch.fields && patch.fields[k] == Null) ::
        if k in patch.fields then Apply(if k in base then base[k] else Null, patch.fields[k]) else base[k])
  }

  /** The entry of a generated merge patch for one key: nothing where both sides agree, null for a key that is gone. */
  function PatchAt(was: Json, now: Json, k: string): Option<Json>
    requires was.Object? && now.Object? && (k in was.fields || k in now.fields)
    decreases was, 0
  {
    if k !in now.fields then Some(Null)
    else if k !in was.fields then Some(now.fields[k])
    else if was.fields[k].Object? && now.fields[k].Object? then
      var nested := MakePatch(was.fields[k], now.fields[k]);
      if nested == EMPTY then None else Some(nested)
    else if was.fields[k] == now.fields[k] then None
    else Some(now.fields[k])
  }

  /** The merge patch generated from one object to another, nested objects compared key by key. */
  function MakePatch(was: Json, now: Json): (p: Json)
    requires was.Object? && now.Object?
    ensures p.Object?
    decreases was, 1
  {
    Object(map k | k in was.fields.Keys + now.fields.Keys && PatchAt(was, now, k) != None :: PatchAt(was, now, k).value)
  }

  // ---------- The shadow operations ----------

  /** clean: drops null values, in nested objects too. Objects that become empty stay. */
  function Clean(j: Json): Json {
    if !j.Object? then j
    else Object(map k | k in j.fields && j.fields[k] != Null :: Clean(j.fields[k]))
  }

  function DiffWithNil(desire: Json, report: Json): Json
    requires desire.Object? && report.Object?
  {
    MakePatch(report, desire)
  }

  function Diff(desire: Json, report: Json): Json
    requires desire.Object? && report.Object?
  {
    Clean(MakePatch(report, desire))
  }

  function Patch(doc: Json, delta: Json): Json
    requires doc.Object? && delta.Object?
  {
    Apply(doc, delta)
  }

  /** merge without its depth limit: right wins except where both sides hold an object. */
  function DeepMerge(left: Json, right: Json): (merged: Json)
    ensures merged.Object? <==> right.Object?
    decreases right
  {
    if !(left.Object? && right.Object?) then right
    else
      Object(map k | k in left.fields.Keys + right.fields.Keys ::
        if k !in right.fields then left.fields[k]
        else if k !in left.fields then right.fields[k]
        else DeepMerge(left.fields[k], right.fields[k]))
  }

  /** There is a path of n keys along which both sides hold objects. */
  predicate BothDeep(left: Json, right: Json, n: nat)
    decreases n
  {
    left.Object? && right.Object? &&
    (n == 0 || exists k | k in right.fields :: k in left.fields && BothDeep(left.fields[k], right.fields[k], n - 1))
  }

  /** What a merge that was cut off by its depth limit leaves on the left: each key old, merged, or partly merged itself. */
  predicate PartlyMerged(left: Json, right: Json, now: Json)
    decreases now
  {
    && left.Object? && right.Object? && now.Object?
    && left.fields.Keys <= now.fields.Keys <= left.fields.Keys + right.fields.Keys
    && forall k | k in now.fields :: PartlyAt(left, right, now, k)
  }

  predicate PartlyAt(left: Json, right: Json, now: Json, k: string)
    requires left.Object? && right.Object? && now.Object? && k in now.fields
    decreases now, 0
  {
    var l := if k in left.fields then left.fields[k] else Null;
    || (k in left.fields && now.fields[k] == l)
    || (k in right.fields && now.fields[k] == DeepMerge(l, right.fields[k]))
    || (k in left.fields && k in right.fields && PartlyMerged(l, right.fields[k], now.fields[k]))
  }

  /** DeepMerge key by key, with Null standing for a key that the left does not have. */
  lemma MergeEntry(left: Json, right: Json, k: string)
    requires left.Object? && right.Object?
    ensures var merged := DeepMerge(left, right).fields;
            && (k in merged <==> k in left.fields || k in right.fields)
            && (k in right.fields ==> merged[k] == DeepMerge(if k in left.fields then left.fields[k] else Null, right.fields[k]))
            && (k in left.fields && k !in right.fields ==> merged[k] == left.fields[k])
  {
  }

  // ---------- When the laws hold ----------

  /** Wherever the desire holds a null, the report already holds one: inside objects that are new to the report there is none. */
  predicate NullsReported(report: Json, desire: Json)
    requires report.Object? && desire.Object?
    decreases desire
  {
    forall k | k in desire.fields :: NullReportedAt(report, desire, k)
  }

  predicate NullReportedAt(report: Json, desire: Json, k: string)
    requires report.Object? && desire.Object? && k in desire.fields
    decreases desire, 0
  {
    var d := desire.fields[k];
    if d == Null then k in report.fields && report.fields[k] == Null
    else if d.Object? && k in report.fields && report.fields[k].Object? then NullsReported(report.fields[k], d)
    else NullFree(d)
  }

  lemma {:induction false} NullFreeIsReported(report: Json, desire: Json)
    requires report.Object? && desire.Object? && NullFree(desire)
    ensures NullsReported(report, desire)
    decreases desire
  {
    forall k | k in desire.fields
      ensures NullReportedAt(report, desire, k)
    {
      if desire.fields[k].Object? && k in report.fields && report.fields[k].Object? {
        NullFreeIsReported(report.fields[k], desire.fields[k]);
      }
    }
  }

  // ---------- Applying patches ----------

  /** A patch applied where no object was: its nulls vanish. */
  lemma {:induction false} ApplyToNothing(target: Json, patch: Json)
    requires !target.Object? && patch != Null
    ensures Apply(target, patch) == Clean(patch)
    decreases patch
  {
    if patch.Object? {
      forall k | k in patch.fields && patch.fields[k] != Null
        ensures Apply(Null, patch.fields[k]) == Clean(patch.fields[k])
      {
        ApplyToNothing(Null, patch.fields[k]);
      }
      assert Apply(target, patch).fields == Clean(patch).fields;
    }
  }

  /** Cleaning changes nothing exactly in null-free values. */
  lemma {:induction false} CleanIffNullFree(j: Json)
    requires j != Null
    ensures Clean(j) == j <==> NullFree(j)
    decreases j
  {
    if j.Object? {
      forall k | k in j.fields && j.fields[k] != Null {
        CleanIffNullFree(j.fields[k]);
      }
      if NullFree(j) {
        forall k | k in j.fields
          ensures j.fields[k] != Null && Clean(j.fields[k]) == j.fields[k]
        {
          assert NullFree(j.fields[k]);
        }
        assert Clean(j).fields == j.fields;
      } else {
        var k :| k in j.fields && !NullFree(j.fields[k]);
        if j.fields[k] == Null {
          assert k !in Clean(j).fields;
        } else {
          assert Clean(j).fields[k] == Clean(j.fields[k]);
        }
      }
    }
  }

  lemma {:induction false} CleanIsNullFree(j: Json)
    requires j != Null
    ensures NullFree(Clean(j))
    decreases j
  {
    if j.Object? {
      forall k | k in j.fields && j.fields[k] != Null {
        CleanIsNullFree(j.fields[k]);
      }
    }
  }

  /** Patching nothing in changes nothing, and only equal objects need no patch. */
  lemma ApplyEmpty(target: Json)
    requires target.Object?
    ensures Apply(target, EMPTY) == target
  {
    assert Apply(target, EMPTY).fields == target.fields;
  }

  lemma PatchEntry(was: Json, now: Json, k: string)
    requires was.Object? && now.Object?
    ensures k !in was.fields && k !in now.fields ==> k !in MakePatch(was, now).fields
    ensures k in was.fields || k in now.fields ==>
              match PatchAt(was, now, k)
              case None => k !in MakePatch(was, now).fields
              case Some(v) => k in MakePatch(was, now).fields && MakePatch(was, now).fields[k] == v
  {
  }

  /** A generated patch is empty exactly when there is no difference. */
  lemma {:induction false} EmptyPatchIffEqual(was: Json, now: Json)
    requires was.Object? && now.Object?
    ensures MakePatch(was, now) == EMPTY <==> was == now
    decreases was
  {
    forall k | k in was.fields && k in now.fields && was.fields[k].Object? && now.fields[k].Object? {
      EmptyPatchIffEqual(was.fields[k], now.fields[k]);
    }
    var p := MakePatch(was, now);
    if p == EMPTY {
      forall k | k in was.fields.Keys + now.fields.Keys
        ensures k in was.fields && k in now.fields && was.fields[k] == now.fields[k]
      {
        PatchEntry(was, now, k);
        assert k !in p.fields;
      }
      assert was.fields == now.fields;
    }
    if was == now {
      forall k | k in p.fields
        ensures false
      {
        PatchEntry(was, now, k);
      }
      assert p.fields == map[];
    }
  }

  // ---------- DiffWithNil and Patch ----------

  /** What patching a report with the delta towards a desire leaves at one key. */
  lemma PatchedAt(report: Json, desire: Json, k: string)
    requires report.Object? && desire.Object?
    ensures var patched := Apply(report, MakePatch(report, desire));
            patched.Object? &&
            (k !in desire.fields ==> k !in patched.fields) &&
            (k in desire.fields ==>
              var d := desire.fields[k];
              if k in report.fields && report.fields[k] == d then k in patched.fields && patched.fields[k] == d
              else if d == Null then k !in patched.fields
              else if k in report.fields && report.fields[k].Object? && d.Object? then
                k in patched.fields && patched.fields[k] == Apply(report.fields[k], MakePatch(report.fields[k], d))
              else k in patched.fields && patched.fields[k] == Clean(d))
  {
    var p := MakePatch(report, desire);
    PatchEntry(report, desire, k);
    if k in desire.fields {
      var d := desire.fields[k];
      if k in report.fields && report.fields[k].Object? && d.Object? {
        EmptyPatchIffEqual(report.fields[k], d);
      } else if d != Null && !(k in report.fields && report.fields[k] == d) {
        assert k in p.fields && p.fields[k] == d;
        if k !in report.fields || !report.fields[k].Object? {
          ApplyToNothing(if k in report.fields then report.fields[k] else Null, d);
        } else {
          assert !d.Object?;
        }
      }
    } else if k in report.fields {
      assert k in p.fields && p.fields[k] == Null;
    }
  }

  /** Patching the report with DiffWithNil yields exactly the desire if and only if every null desired is already reported. */
  lemma {:induction false} PatchReachesDesire(report: Json, desire: Json)
    requires report.Object? && desire.Object?
    ensures Patch(report, DiffWithNil(desire, report)) == desire <==> NullsReported(report, desire)
    decreases desire
  {
    var patched := Apply(report, MakePatch(report, desire));
    forall k | k in desire.fields
      ensures (k in patched.fields && patched.fields[k] == desire.fields[k]) <==> NullReportedAt(report, desire, k)
    {
      PatchReachesAt(report, desire, k);
    }
    forall k | k !in desire.fields
      ensures k !in patched.fields
    {
      PatchedAt(report, desire, k);
    }
    if NullsReported(report, desire) {
      assert patched.fields == desire.fields;
    } else {
      var k :| k in desire.fields && !NullReportedAt(report, desire, k);
      assert patched != desire;
    }
  }

  lemma {:induction false} PatchReachesAt(report: Json, desire: Json, k: string)
    requires report.Object? && desire.Object? && k in desire.fields
    ensures var patched := Apply(report, MakePatch(report, desire));
            patched.Object? &&
            ((k in patched.fields && patched.fields[k] == desire.fields[k]) <==> NullReportedAt(report, desire, k))
    decreases desire, 0
  {
    PatchedAt(report, desire, k);
    var d := desire.fields[k];
    if d != Null {
      if d.Object? && k in report.fields && report.fields[k].Object? {
        PatchReachesDesire(report.fields[k], d);
        EmptyPatchIffEqual(report.fields[k], d);
        if report.fields[k] == d { ApplyEmpty(d); }
      } else {
        CleanIffNullFree(d);
      }
    }
  }

  /** A second delta against the patched report is empty under the same condition. */
  lemma SecondDeltaIsEmpty(report: Json, desire: Json)
    requires report.Object? && desire.Object?
    ensures var patched := Patch(report, DiffWithNil(desire, report));
            patched.Object? && (DiffWithNil(desire, patched) == EMPTY <==> NullsReported(report, desire))
  {
    var patched := Patch(report, DiffWithNil(desire, report));
    PatchReachesDesire(report, desire);
    EmptyPatchIffEqual(patched, desire);
  }

  /** The condition cannot be dropped: a null that is only desired never reaches the report. */
  lemma DesiredNullIsLost()
    ensures var report, desire := EMPTY, Object(map["a" := Null]);
            Patch(report, DiffWithNil(desire, report)) != desire && Patch(report, Diff(desire, report)) != DeepMerge(report, desire)
  {
    var report, desire := EMPTY, Object(map["a" := Null]);
    assert !NullReportedAt(report, desire, "a");
    PatchReachesDesire(report, desire);
    DiffReachesMerge(report, desire);
  }

  // ---------- Diff and Merge ----------

  lemma CleanEntry(j: Json, k: string)
    requires j.Object?
    ensures Clean(j).Object?
    ensures k in j.fields && j.fields[k] != Null ==> k in Clean(j).fields && Clean(j).fields[k] == Clean(j.fields[k]) != Null
    ensures k !in j.fields || j.fields[k] == Null ==> k !in Clean(j).fields
  {
  }

  lemma CleanTwice(j: Json)
    requires j != Null
    ensures Clean(j) != Null && Clean(Clean(j)) == Clean(j)
  {
    CleanIsNullFree(j);
    CleanIffNullFree(Clean(j));
  }

  /** What patching a report with the cleaned delta leaves at one key. */
  lemma CleanPatchedAt(report: Json, desire: Json, k: string)
    requires report.Object? && desire.Object?
    ensures var patched := Apply(report, Clean(MakePatch(report, desire)));
            patched.Object? &&
            if k !in desire.fields || desire.fields[k] == Null then
              (k in patched.fields <==> k in report.fields) && (k in report.fields ==> patched.fields[k] == report.fields[k])
            else
              k in patched.fields &&
              if k in report.fields && report.fields[k].Object? && desire.fields[k].Object? then
                patched.fields[k] == Apply(report.fields[k], Clean(MakePatch(report.fields[k], desire.fields[k])))
              else patched.fields[k] == if k in report.fields && report.fields[k] == desire.fields[k] then desire.fields[k] else Clean(desire.fields[k])
  {
    var p := MakePatch(report, desire);
    PatchEntry(report, desire, k);
    CleanEntry(p, k);
    if k in desire.fields && desire.fields[k] != Null {
      var d := desire.fields[k];
      var r := if k in report.fields then report.fields[k] else Null;
      if r.Object? && d.Object? {
        EmptyPatchIffEqual(r, d);
        if r == d {
          ApplyEmpty(r);
          assert Clean(EMPTY).fields == map[];
        }
      } else if d.Object? {
        CleanTwice(d);
        ApplyToNothing(r, Clean(d));
      }
    }
  }

  /** Patching the report with Diff yields exactly what Merge yields if and only if every null desired is already reported. */
  lemma {:induction false} DiffReachesMerge(report: Json, desire: Json)
    requires report.Object? && desire.Object?
    ensures Patch(report, Diff(desire, report)) == DeepMerge(report, desire) <==> NullsReported(report, desire)
    decreases desire
  {
    var patched, merged := Apply(report, Clean(MakePatch(report, desire))), DeepMerge(report, desire);
    forall k | k in desire.fields
      ensures (k in patched.fields && patched.fields[k] == merged.fields[k]) <==> NullReportedAt(report, desire, k)
    {
      DiffReachesAt(report, desire, k);
    }
    forall k | k !in desire.fields
      ensures k in patched.fields <==> k in merged.fields
      ensures k in patched.fields ==> patched.fields[k] == merged.fields[k]
    {
      CleanPatchedAt(report, desire, k);
    }
    if NullsReported(report, desire) {
      assert patched.fields == merged.fields;
    } else {
      var k :| k in desire.fields && !NullReportedAt(report, desire, k);
      assert patched != merged;
    }
  }

  lemma {:induction false} DiffReachesAt(report: Json, desire: Json, k: string)
    requires report.Object? && desire.Object? && k in desire.fields
    ensures var patched, merged := Apply(report, Clean(MakePatch(report, desire))), DeepMerge(report, desire);
            patched.Object? && k in merged.fields &&
            ((k in patched.fields && patched.fields[k] == merged.fields[k]) <==> NullReportedAt(report, desire, k))
    decreases desire, 0
  {
    CleanPatchedAt(report, desire, k);
    var d := desire.fields[k];
    if d != Null {
      if d.Object? && k in report.fields && report.fields[k].Object? {
        DiffReachesMerge(report.fields[k], d);
      } else {
        CleanIffNullFree(d);
      }
    }
  }

  // ---------- After a merge ----------

  /** Merging the same desire again changes nothing. */
  lemma {:induction false} MergeTwice(report: Json, desire: Json)
    ensures DeepMerge(DeepMerge(report, desire), desire) == DeepMerge(report, desire)
    decreases desire
  {
    if report.Object? && desire.Object? {
      var merged := DeepMerge(report, desire);
      forall k | k in desire.fields
        ensures DeepMerge(merged.fields[k], desire.fields[k]) == merged.fields[k]
      {
        if k in report.fields {
          MergeTwice(report.fields[k], desire.fields[k]);
        } else {
          MergeSelf(desire.fields[k]);
        }
      }
      assert DeepMerge(merged, desire).fields == merged.fields;
    } else {
      MergeSelf(desire);
    }
  }

  /** Repeating a merge meets the depth limit exactly when the desire alone is that deep, whatever the first merge met. */
  lemma {:induction false} RepeatedMergeDepth(report: Json, desire: Json, n: nat)
    requires report.Object?
    ensures BothDeep(DeepMerge(report, desire), desire, n) <==> BothDeep(desire, desire, n)
    decreases n
  {
    if desire.Object? && n > 0 {
      forall k | k in desire.fields
        ensures BothDeep(DeepMerge(report, desire).fields[k], desire.fields[k], n - 1)
           <==> BothDeep(desire.fields[k], desire.fields[k], n - 1)
      {
        MergeEntry(report, desire, k);
        if k in report.fields && report.fields[k].Object? {
          RepeatedMergeDepth(report.fields[k], desire.fields[k], n - 1);
        }
      }
    }
  }

  lemma {:induction false} MergeSelf(j: Json)
    ensures DeepMerge(j, j) == j
  {
    if j.Object? {
      forall k | k in j.fields {
        MergeSelf(j.fields[k]);
      }
      assert DeepMerge(j, j).fields == j.fields;
    }
  }

  /** Only nested objects, no value at all. */
  predicate Skeleton(j: Json) {
    j.Object? && forall k | k in j.fields :: Skeleton(j.fields[k])
  }

  /** Once a desire has been merged, its Diff carries no value: at most nested empty objects, because clean keeps those. */
  lemma {:induction false} ConvergedDiffIsSkeleton(report: Json, desire: Json)
    requires report.Object? && desire.Object?
    ensures DeepMerge(report, desire).Object? && Skeleton(Diff(desire, DeepMerge(report, desire)))
    decreases desire
  {
    var merged := DeepMerge(report, desire);
    var p := MakePatch(merged, desire);
    forall k | k in Clean(p).fields
      ensures Skeleton(Clean(p).fields[k])
    {
      ConvergedAt(report, desire, k);
    }
  }

  lemma {:induction false} ConvergedAt(report: Json, desire: Json, k: string)
    requires report.Object? && desire.Object?
    requires k in Diff(desire, DeepMerge(report, desire)).fields
    ensures Skeleton(Diff(desire, DeepMerge(report, desire)).fields[k])
    decreases desire, 0
  {
    var merged := DeepMerge(report, desire);
    var p := MakePatch(merged, desire);
    CleanEntry(p, k);
    PatchEntry(merged, desire, k);
    var d := desire.fields[k];
    if k in report.fields && report.fields[k].Object? && d.Object? {
      ConvergedDiffIsSkeleton(report.fields[k], d);
    } else {
      assert merged.fields[k] == d;
      if d.Object? {
        EmptyPatchIffEqual(d, d);
      }
      assert false;
    }
  }

  /** The desire names every key that the report has, inside objects that both hold. */
  predicate Covers(desire: Json, report: Json)
    requires desire.Object? && report.Object?
    decreases desire
  {
    report.fields.Keys <= desire.fields.Keys && NestedCover(desire, report)
  }

  predicate NestedCover(desire: Json, report: Json)
    requires desire.Object? && report.Object?
    decreases desire, 0
  {
    forall k | k in desire.fields && k in report.fields && desire.fields[k].Object? && report.fields[k].Object? ::
      Covers(desire.fields[k], report.fields[k])
  }

  /** A merge gives the desire itself exactly when the desire covers the report. */
  lemma {:induction false} MergeIsDesire(report: Json, desire: Json)
    requires report.Object? && desire.Object?
    ensures DeepMerge(report, desire) == desire <==> Covers(desire, report)
    decreases desire
  {
    var merged := DeepMerge(report, desire);
    forall k | k in desire.fields
      ensures k in merged.fields
      ensures merged.fields[k] == desire.fields[k] <==>
              (k in report.fields && desire.fields[k].Object? && report.fields[k].Object? ==> Covers(desire.fields[k], report.fields[k]))
    {
      MergeEntry(report, desire, k);
      if k in report.fields && desire.fields[k].Object? && report.fields[k].Object? {
        MergeIsDesire(report.fields[k], desire.fields[k]);
      }
    }
    assert merged.fields.Keys == report.fields.Keys + desire.fields.Keys;
    if Covers(desire, report) {
      assert NestedCover(desire, report);
      assert forall k | k in desire.fields :: merged.fields[k] == desire.fields[k];
      assert merged.fields.Keys == desire.fields.Keys;
      assert merged.fields == desire.fields;
    }
  }

  /** After a merge the Diff is empty if and only if the desire covers the report wherever both hold an object under the same key. */
  lemma ConvergedDiffIsEmptyIff(report: Json, desire: Json)
    requires report.Object? && desire.Object?
    ensures Diff(desire, DeepMerge(report, desire)) == EMPTY <==> NestedCover(desire, report)
  {
    var merged := DeepMerge(report, desire);
    var p := MakePatch(merged, desire);
    forall k
      ensures k in Clean(p).fields <==>
              k in desire.fields && k in report.fields && desire.fields[k].Object? && report.fields[k].Object? &&
              !Covers(desire.fields[k], report.fields[k])
    {
      CleanEntry(p, k);
      PatchEntry(merged, desire, k);
      MergeEntry(report, desire, k);
      if k in desire.fields && desire.fields[k].Object? {
        EmptyPatchIffEqual(merged.fields[k], desire.fields[k]);
        if k in report.fields && report.fields[k].Object? {
          MergeIsDesire(report.fields[k], desire.fields[k]);
        }
      }
    }
    assert Clean(p) == EMPTY <==> Clean(p).fields.Keys == {};
  }

  /** So it need not be empty, though it changes nothing: any key of the report that a nested object of the desire leaves out shows. */
  lemma ConvergedDiffNeedNotBeEmpty(k: string, x: string, v: Json)
    ensures var report, desire := Object(map[k := Object(map[x := v])]), Object(map[k := EMPTY]);
            DeepMerge(report, desire) == report && Diff(desire, report) != EMPTY && Patch(report, Diff(desire, report)) == report
  {
    var inner := Object(map[x := v]);
    var report, desire := Object(map[k := inner]), Object(map[k := EMPTY]);
    assert DeepMerge(inner, EMPTY).fields == inner.fields;
    MergeEntry(report, desire, k);
    assert report.fields[k] == DeepMerge(inner, EMPTY);
    assert DeepMerge(report, desire).fields == report.fields;
    assert desire.fields[k] == EMPTY && x in inner.fields && x !in EMPTY.fields;
    assert !(inner.fields.Keys <= EMPTY.fields.Keys);
    assert !Covers(EMPTY, inner);
    ConvergedDiffIsEmptyIff(report, desire);
    NullFreeIsReported(report, desire);
    DiffReachesMerge(report, desire);
  }
}
