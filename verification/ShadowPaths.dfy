/** The shadow operations seen from the paths of a document: what stands at a path afterwards, and where it came from. */
module ShadowPaths {
  import opened Wrappers
  import opened Shadow

  type Path = seq<string>

  /** What stands at a path, if anything does. */
  function At(j: Json, path: Path): Option<Json> {
    if path == [] then Some(j)
    else if j.Object? && path[0] in j.fields then At(j.fields[path[0]], path[1..])
    else None
  }

  predicate ObjectAt(j: Json, path: Path) {
    At(j, path) != None && At(j, path).value.Object?
  }

  /** Something that is no object stands before the end of the path, so that nothing can stand at its end. */
  ghost predicate Blocked(j: Json, path: Path) {
    exists n :: 0 <= n < |path| && BlockedAt(j, path, n)
  }

  ghost predicate BlockedAt(j: Json, path: Path, n: nat)
    requires n < |path|
  {
    At(j, path[..n]) != None && !ObjectAt(j, path[..n])
  }

  /** One step down a path. */
  lemma Down(j: Json, path: Path)
    requires path != [] && j.Object? && path[0] in j.fields
    ensures At(j, path) == At(j.fields[path[0]], path[1..])
    ensures Blocked(j, path) <==> Blocked(j.fields[path[0]], path[1..])
  {
    var kid := j.fields[path[0]];
    forall n | 0 < n < |path|
      ensures BlockedAt(j, path, n) <==> BlockedAt(kid, path[1..], n - 1)
    {
      assert path[..n][0] == path[0] && path[..n][1..] == path[1..][..n - 1];
    }
    assert path[..0] == [] && !BlockedAt(j, path, 0);
    if n :| 0 <= n < |path| - 1 && BlockedAt(kid, path[1..], n) {
      assert BlockedAt(j, path, n + 1);
    }
    if n :| 0 <= n < |path| && BlockedAt(j, path, n) {
      assert BlockedAt(kid, path[1..], n - 1);
    }
  }

  /** A path that leaves the document, and one that starts at something that is no object. */
  lemma Leaves(j: Json, path: Path)
    requires path != []
    ensures j.Object? && path[0] !in j.fields ==> At(j, path) == None && !Blocked(j, path)
    ensures !j.Object? ==> At(j, path) == None && Blocked(j, path)
  {
    assert path[..0] == [];
    if !j.Object? {
      assert BlockedAt(j, path, 0);
    } else if path[0] !in j.fields {
      forall n | 0 <= n < |path|
        ensures !BlockedAt(j, path, n)
      {
        assert n > 0 ==> path[..n][0] == path[0];
      }
    }
  }

  /** A document is what stands at its paths. */
  lemma SameAtAllPaths(a: Json, b: Json)
    requires forall path :: At(a, path) == At(b, path)
    ensures a == b
  {
    assert At(a, []) == At(b, []);
  }

  // ---------- Patch ----------

  /**
   What a patch leaves at a path: its own value where it holds one that is no object; nothing where it holds null; an object where
   it holds one; and where it holds nothing, what the document had, unless the patch has put something else in the way.
   */
  lemma {:induction false} PatchAtPath(doc: Json, patch: Json, path: Path)
    requires patch.Object?
    ensures var after := At(Apply(doc, patch), path);
            match At(patch, path)
            case None => after == if Blocked(patch, path) then None else At(doc, path)
            case Some(Null) => after == None
            case Some(Object(_)) => after != None && after.value.Object?
            case Some(v) => after == Some(v)
    decreases |path|
  {
    if path != [] {
      var k, rest := path[0], path[1..];
      var after := Apply(doc, patch);
      Entry(doc, patch, k);
      Leaves(patch, path);
      Leaves(doc, path);
      Leaves(after, path);
      if k in patch.fields {
        Down(patch, path);
        var below := if doc.Object? && k in doc.fields then doc.fields[k] else Null;
        if patch.fields[k].Object? {
          PatchAtPath(below, patch.fields[k], rest);
          if rest != [] {
            Leaves(below, rest);
          }
        } else if rest != [] {
          Leaves(patch.fields[k], rest);
        }
      }
    }
  }

  /** A patch at one key. */
  lemma Entry(doc: Json, patch: Json, k: string)
    requires patch.Object?
    ensures var after := Apply(doc, patch);
            && after.Object?
            && (k in after.fields <==> if k in patch.fields then patch.fields[k] != Null else doc.Object? && k in doc.fields)
            && (k in after.fields && k in patch.fields ==>
                  after.fields[k] == Apply(if doc.Object? && k in doc.fields then doc.fields[k] else Null, patch.fields[k]))
            && (k in after.fields && k !in patch.fields ==> after.fields[k] == doc.fields[k])
  {
  }

  /** A patch that arrives a second time changes nothing. */
  lemma {:induction false} PatchTwice(doc: Json, patch: Json)
    ensures Apply(Apply(doc, patch), patch) == Apply(doc, patch)
    decreases patch
  {
    if patch.Object? {
      var once, twice := Apply(doc, patch), Apply(Apply(doc, patch), patch);
      forall k
        ensures k in twice.fields <==> k in once.fields
        ensures k in once.fields ==> twice.fields[k] == once.fields[k]
      {
        Entry(doc, patch, k);
        Entry(once, patch, k);
        if k in patch.fields {
          PatchTwice(if doc.Object? && k in doc.fields then doc.fields[k] else Null, patch.fields[k]);
        }
      }
      assert once.fields == twice.fields;
    }
  }

  /** A generated patch names exactly the keys at which the documents differ: the new value, null for a key that is gone, and for two objects their own patch. */
  lemma PatchIsMinimal(was: Json, now: Json, k: string)
    requires was.Object? && now.Object?
    ensures var p := MakePatch(was, now);
            && (k in p.fields <==> At(was, [k]) != At(now, [k]))
            && (k in p.fields ==>
                  p.fields[k] ==
                    if k !in now.fields then Null
                    else if k in was.fields && was.fields[k].Object? && now.fields[k].Object? then MakePatch(was.fields[k], now.fields[k])
                    else now.fields[k])
  {
    assert [k][1..] == [];
    if k in was.fields || k in now.fields {
      PatchEntry(was, now, k);
      if k in was.fields && k in now.fields && was.fields[k].Object? && now.fields[k].Object? {
        EmptyPatchIffEqual(was.fields[k], now.fields[k]);
      }
    }
  }

  // ---------- Merge ----------

  /** What a merge leaves at a path: as a patch does, but a null of the right is kept. */
  lemma {:induction false} MergeAtPath(left: Json, right: Json, path: Path)
    ensures var after := At(DeepMerge(left, right), path);
            match At(right, path)
            case None => after == if Blocked(right, path) then None else At(left, path)
            case Some(Object(_)) => after != None && after.value.Object?
            case Some(v) => after == Some(v)
    decreases |path|
  {
    if path != [] {
      var k, rest := path[0], path[1..];
      Leaves(left, path);
      Leaves(right, path);
      Leaves(DeepMerge(left, right), path);
      if left.Object? && right.Object? {
        MergeEntry(left, right, k);
        if k in right.fields {
          Down(right, path);
          MergeAtPath(if k in left.fields then left.fields[k] else Null, right.fields[k], rest);
          if rest != [] {
            Leaves(if k in left.fields then left.fields[k] else Null, rest);
          }
        }
      }
    }
  }

  /** The depth limit is about paths along which both sides hold objects. */
  lemma {:induction false} BothDeepIffPath(left: Json, right: Json, n: nat)
    ensures BothDeep(left, right, n) <==> exists path: Path :: |path| == n && ObjectAt(left, path) && ObjectAt(right, path)
    decreases n
  {
    if BothDeep(left, right, n) {
      var path := DeepPath(left, right, n);
    }
    if path: Path :| |path| == n && ObjectAt(left, path) && ObjectAt(right, path) {
      PathIsDeep(left, right, path);
    }
  }

  lemma {:induction false} DeepPath(left: Json, right: Json, n: nat) returns (path: Path)
    requires BothDeep(left, right, n)
    ensures |path| == n && ObjectAt(left, path) && ObjectAt(right, path)
    decreases n
  {
    path := [];
    if n > 0 {
      var k :| k in right.fields && k in left.fields && BothDeep(left.fields[k], right.fields[k], n - 1);
      var rest := DeepPath(left.fields[k], right.fields[k], n - 1);
      path := [k] + rest;
      assert path[1..] == rest;
    }
  }

  lemma {:induction false} PathIsDeep(left: Json, right: Json, path: Path)
    requires ObjectAt(left, path) && ObjectAt(right, path)
    ensures BothDeep(left, right, |path|)
    decreases |path|
  {
    if path != [] {
      PathIsDeep(left.fields[path[0]], right.fields[path[0]], path[1..]);
    }
  }

  // ---------- Clean ----------

  /** Cleaning leaves nothing at a null, an object at an object, and every other value. */
  lemma {:induction false} CleanAtPath(j: Json, path: Path)
    requires path != []
    ensures var after := At(Clean(j), path);
            match At(j, path)
            case None => after == None
            case Some(Null) => after == None
            case Some(Object(_)) => after != None && after.value.Object?
            case Some(v) => after == Some(v)
    decreases |path|
  {
    Leaves(j, path);
    Leaves(Clean(j), path);
    if j.Object? {
      var k, rest := path[0], path[1..];
      CleanEntry(j, k);
      if k in j.fields {
        if rest == [] {
          assert At(j, path) == Some(j.fields[k]);
        } else {
          CleanAtPath(j.fields[k], rest);
          Leaves(j.fields[k], rest);
        }
      }
    }
  }
}
