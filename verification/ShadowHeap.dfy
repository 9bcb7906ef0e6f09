/** merge and clean on Go maps: updates in place over trees of map references. */
module ShadowHeap {
  import opened Shadow

  const MAX_JSON_LEVEL := 5

  /** A map[string]interface{} */
  class JsonMap {
    var m: map<string, Value>

    constructor ()
      ensures m == map[]
    {
      m := map[];
    }
  }

  /** What an interface{} holds: a value without maps inside, or a reference to a map. */
  datatype Value = Plain(j: Json) | Ref(obj: JsonMap)

  /** The tree that a reference spans, named map by map. */
  datatype Tree = Leaf(j: Json) | Node(obj: JsonMap, kids: map<string, Tree>)

  ghost function Root(t: Tree): Value {
    match t
    case Leaf(j) => Plain(j)
    case Node(obj, _) => Ref(obj)
  }

  ghost function Roots(kids: map<string, Tree>): map<string, Value> {
    map k | k in kids :: Root(kids[k])
  }

  ghost function Footprint(t: Tree): set<JsonMap> {
    if t.Leaf? then {}
    else {t.obj} + set k, o | k in t.kids && o in Footprint(t.kids[k]) :: o
  }

  /** No map occurs twice. */
  ghost predicate Separate(t: Tree) {
    match t
    case Leaf(j) => !j.Object?
    case Node(obj, kids) =>
      && (forall k | k in kids :: Separate(kids[k]) && obj !in Footprint(kids[k]))
      && (forall k, k' | k in kids && k' in kids && k != k' :: Footprint(kids[k]) !! Footprint(kids[k']))
  }

  /** The heap holds the tree. */
  ghost predicate Holds(t: Tree)
    reads Footprint(t)
  {
    t.Node? ==>
      && t.obj.m == Roots(t.kids)
      && forall k | k in t.kids :: Holds(t.kids[k])
  }

  ghost predicate IsTree(obj: JsonMap, t: Tree)
    reads Footprint(t)
  {
    t.Node? && t.obj == obj && Separate(t) && Holds(t)
  }

  ghost function Shape(t: Tree): (j: Json)
    ensures t.Node? ==> j.Object?
  {
    match t
    case Leaf(j) => j
    case Node(_, kids) => Object(map k | k in kids :: Shape(kids[k]))
  }

  // ---------- The kids of one map, each within its own part of the heap ----------

  /** Pairwise disjoint parts, none of them holding obj. */
  ghost predicate Apart(obj: JsonMap, parts: map<string, set<JsonMap>>) {
    && (forall k | k in parts :: obj !in parts[k])
    && (forall k, k' | k in parts && k' in parts && k != k' :: parts[k] !! parts[k'])
  }

  ghost predicate Within(kids: map<string, Tree>, parts: map<string, set<JsonMap>>) {
    forall k | k in kids :: k in parts && Separate(kids[k]) && Footprint(kids[k]) <= parts[k]
  }

  ghost function Parts(t: Tree): map<string, set<JsonMap>>
    requires t.Node?
  {
    map k | k in t.kids :: Footprint(t.kids[k])
  }

  ghost predicate AllHold(kids: map<string, Tree>)
    reads set k, o | k in kids && o in Footprint(kids[k]) :: o
  {
    forall k | k in kids :: Holds(kids[k])
  }

  /** A tree taken apart. */
  lemma Opens(obj: JsonMap, t: Tree)
    requires IsTree(obj, t)
    ensures obj.m == Roots(t.kids) && AllHold(t.kids)
    ensures Apart(obj, Parts(t)) && Within(t.kids, Parts(t))
    ensures obj in Footprint(t) && forall k | k in t.kids :: Parts(t)[k] <= Footprint(t)
  {
  }

  /** Kids within their parts make a tree again. */
  lemma Closes(obj: JsonMap, kids: map<string, Tree>, parts: map<string, set<JsonMap>>, all: set<JsonMap>)
    requires Apart(obj, parts) && Within(kids, parts) && AllHold(kids) && obj.m == Roots(kids)
    requires obj in all && forall k | k in parts :: parts[k] <= all
    ensures IsTree(obj, Node(obj, kids)) && Footprint(Node(obj, kids)) <= all
  {
  }

  /** Kids at other keys lie outside the part of one key. */
  lemma OthersApart(obj: JsonMap, kids: map<string, Tree>, parts: map<string, set<JsonMap>>, k: string)
    requires Within(kids, parts) && Apart(obj, parts) && k in parts
    ensures obj !in parts[k]
    ensures forall k' | k' in kids && k' != k :: k' in parts && Footprint(kids[k']) <= parts[k'] && parts[k'] !! parts[k] && obj !in parts[k']
  {
  }

  lemma WithinUpdate(kids: map<string, Tree>, parts: map<string, set<JsonMap>>, k: string, kid: Tree)
    requires Within(kids, parts) && k in parts && Separate(kid) && Footprint(kid) <= parts[k]
    ensures Within(kids[k := kid], parts) && Within(kids - {k}, parts)
    ensures Roots(kids[k := kid]) == Roots(kids)[k := Root(kid)] && Roots(kids - {k}) == Roots(kids) - {k}
  {
    hide Separate, Footprint;
    RootsUpdate(kids, k, kid);
  }

  lemma RootsUpdate(kids: map<string, Tree>, k: string, kid: Tree)
    ensures Roots(kids[k := kid]) == Roots(kids)[k := Root(kid)] && Roots(kids - {k}) == Roots(kids) - {k}
  {
    hide Root;
  }

  lemma ShapeAt(t: Tree, k: string)
    requires t.Node?
    ensures Shape(t).Object? && (k in Shape(t).fields <==> k in t.kids)
    ensures k in t.kids ==> Shape(t).fields[k] == Shape(t.kids[k])
  {
  }

  lemma LeafShape(t: Tree)
    requires Separate(t)
    ensures t.Leaf? ==> Shape(t) == t.j && !t.j.Object?
    ensures t.Node? ==> Shape(t).Object?
  {
  }

  // ---------- clean ----------

  /** The keys visited are cleaned, the others are as they were. */
  ghost predicate CleanedSoFar(t: Tree, kids: map<string, Tree>, todo: set<string>)
    requires t.Node?
  {
    forall k | k in t.kids ::
      if k in todo then k in kids && kids[k] == t.kids[k]
      else if Shape(t.kids[k]) == Null then k !in kids
      else k in kids && Shape(kids[k]) == Clean(Shape(t.kids[k]))
  }

  lemma CleanedStep(t: Tree, kids: map<string, Tree>, todo: set<string>, k: string, kids': map<string, Tree>)
    requires t.Node? && k in t.kids && k in todo && CleanedSoFar(t, kids, todo)
    requires if Shape(t.kids[k]) == Null then kids' == kids - {k}
             else k in kids' && kids' == kids[k := kids'[k]] && Shape(kids'[k]) == Clean(Shape(t.kids[k]))
    ensures CleanedSoFar(t, kids', todo - {k})
  {
  }

  /** clean in place: the tree is cleaned where it stands. */
  method CleanMap(m: JsonMap, ghost t: Tree) returns (ghost t': Tree)
    requires IsTree(m, t)
    modifies Footprint(t)
    ensures IsTree(m, t') && Footprint(t') <= Footprint(t)
    ensures Shape(t') == Clean(Shape(t))
    decreases t, 1
  {
    hide Footprint, Holds, Separate, Shape, Clean;
    Opens(m, t);
    var todo := m.m.Keys;
    ghost var kids, parts := t.kids, Parts(t);
    while todo != {}
      invariant todo <= t.kids.Keys && kids.Keys <= t.kids.Keys
      invariant Within(kids, parts) && AllHold(kids) && m.m == Roots(kids)
      invariant CleanedSoFar(t, kids, todo)
    {
      var k :| k in todo;
      kids := CleanKey(m, k, t, kids, parts, todo);
      todo := todo - {k};
    }
    t' := Node(m, kids);
    Closes(m, kids, parts, Footprint(t));
    AllCleaned(t, kids);
  }

  /** One turn of the loop: a null goes, a nested map is cleaned. */
  method CleanKey(m: JsonMap, k: string, ghost t: Tree, ghost kids: map<string, Tree>,
                  ghost parts: map<string, set<JsonMap>>, ghost todo: set<string>)
    returns (ghost kids': map<string, Tree>)
    requires t.Node? && t.obj == m && Separate(t) && parts == Parts(t) && Apart(m, parts)
    requires kids.Keys <= t.kids.Keys && k in t.kids && k in todo
    requires Within(kids, parts) && AllHold(kids) && m.m == Roots(kids)
    requires CleanedSoFar(t, kids, todo)
    modifies m, Footprint(t.kids[k])
    ensures kids'.Keys <= t.kids.Keys && CleanedSoFar(t, kids', todo - {k})
    ensures Within(kids', parts) && AllHold(kids') && m.m == Roots(kids')
    decreases t, 0
  {
    hide Footprint, Holds, Separate, Shape, Clean, Within, Apart, CleanedSoFar;
    OthersApart(m, kids, parts, k);
    FirstVisit(t, kids, parts, todo, k);
    ghost var kid := t.kids[k];
    var v := m.m[k];
    LeafShape(t.kids[k]);
    kids' := kids;
    if v == Plain(Null) {
      m.m := m.m - {k};
      kids' := kids - {k};
    } else if v.Ref? {
      kid := CleanMap(v.obj, kid);
      kids' := kids[k := kid];
    } else {
      CleanLeaf(kid.j);
      kids' := kids[k := kid];
    }
    WithinUpdate(kids, parts, k, kid);
    assert Root(kid) == v && old(m.m)[k := v] == old(m.m);
    CleanedStep(t, kids, todo, k, kids');
  }

  lemma FirstVisit(t: Tree, kids: map<string, Tree>, parts: map<string, set<JsonMap>>, todo: set<string>, k: string)
    requires t.Node? && k in t.kids && k in todo && CleanedSoFar(t, kids, todo) && Within(kids, parts) && parts == Parts(t)
    ensures k in kids && kids[k] == t.kids[k] && Separate(kids[k]) && parts[k] == Footprint(t.kids[k])
  {
  }

  lemma CleanLeaf(j: Json)
    requires !j.Object?
    ensures Clean(j) == j
  {
  }

  lemma AllCleaned(t: Tree, kids: map<string, Tree>)
    requires t.Node? && kids.Keys <= t.kids.Keys && CleanedSoFar(t, kids, {})
    ensures Shape(Node(t.obj, kids)) == Clean(Shape(t))
  {
  }

  // ---------- merge ----------

  ghost function KidFootprint(t: Tree, k: string): set<JsonMap>
    requires t.Node?
  {
    if k in t.kids then Footprint(t.kids[k]) else {}
  }

  ghost function KidShape(t: Tree, k: string): Json
    requires t.Node?
  {
    if k in t.kids then Shape(t.kids[k]) else Null
  }

  /** At each key, what either tree may bring. */
  ghost function JointParts(tl: Tree, tr: Tree): map<string, set<JsonMap>>
    requires tl.Node? && tr.Node?
  {
    map k | k in tl.kids.Keys + tr.kids.Keys :: KidFootprint(tl, k) + KidFootprint(tr, k)
  }

  lemma JointPartsApart(left: JsonMap, right: JsonMap, tl: Tree, tr: Tree)
    requires IsTree(left, tl) && IsTree(right, tr) && Footprint(tl) !! Footprint(tr)
    ensures Apart(left, JointParts(tl, tr)) && Within(tl.kids, JointParts(tl, tr)) && Within(tr.kids, JointParts(tl, tr))
    ensures forall k | k in JointParts(tl, tr) :: JointParts(tl, tr)[k] <= Footprint(tl) + Footprint(tr)
  {
    hide Footprint, Holds, Separate;
    Opens(left, tl);
    Opens(right, tr);
    forall k | k in JointParts(tl, tr)
      ensures KidFootprint(tl, k) <= Footprint(tl) && KidFootprint(tr, k) <= Footprint(tr) && left !in KidFootprint(tl, k)
    {
      assert k in tl.kids ==> k in Parts(tl);
      assert k in tr.kids ==> k in Parts(tr);
    }
    forall k, k' | k in JointParts(tl, tr) && k' in JointParts(tl, tr) && k != k'
      ensures JointParts(tl, tr)[k] !! JointParts(tl, tr)[k']
    {
      assert k in tl.kids && k' in tl.kids ==> Parts(tl)[k] !! Parts(tl)[k'];
      assert k in tr.kids && k' in tr.kids ==> Parts(tr)[k] !! Parts(tr)[k'];
    }
  }

  /** The keys of right visited hold the merged values, the others are as they were. */
  ghost predicate MergedSoFar(tl: Tree, tr: Tree, kids: map<string, Tree>, todo: set<string>)
    requires tl.Node? && tr.Node?
  {
    && tl.kids.Keys + (tr.kids.Keys - todo) <= kids.Keys <= tl.kids.Keys + tr.kids.Keys
    && forall k | k in kids ::
         if k in tr.kids && k !in todo then Shape(kids[k]) == DeepMerge(KidShape(tl, k), KidShape(tr, k))
         else k in tl.kids && kids[k] == tl.kids[k]
  }

  // ---------- The merged tree, map by map ----------

  /** Maps that both sides have are those of the left; all other maps of the right are taken over as they are, with everything below them. */
  ghost function MergedTree(tl: Tree, tr: Tree): Tree
    decreases tr
  {
    if !(tl.Node? && tr.Node?) then tr
    else Node(tl.obj, map k | k in tl.kids.Keys + tr.kids.Keys :: if k in tr.kids then MergedKid(tl, tr, k) else tl.kids[k])
  }

  ghost function MergedKid(tl: Tree, tr: Tree, k: string): Tree
    requires tl.Node? && tr.Node? && k in tr.kids
    decreases tr, 0
  {
    if k in tl.kids then MergedTree(tl.kids[k], tr.kids[k]) else tr.kids[k]
  }

  ghost predicate TreesSoFar(tl: Tree, tr: Tree, kids: map<string, Tree>, todo: set<string>)
    requires tl.Node? && tr.Node?
  {
    && tl.kids.Keys + (tr.kids.Keys - todo) <= kids.Keys <= tl.kids.Keys + tr.kids.Keys
    && forall k | k in kids :: if k in tr.kids && k !in todo then kids[k] == MergedKid(tl, tr, k) else k in tl.kids && kids[k] == tl.kids[k]
  }

  lemma TreesStep(tl: Tree, tr: Tree, kids: map<string, Tree>, todo: set<string>, k: string)
    requires tl.Node? && tr.Node? && k in tr.kids && k in todo && TreesSoFar(tl, tr, kids, todo)
    ensures TreesSoFar(tl, tr, kids[k := MergedKid(tl, tr, k)], todo - {k})
  {
    hide MergedKid;
  }

  lemma MergedKids(tl: Tree, tr: Tree)
    requires tl.Node? && tr.Node?
    ensures MergedTree(tl, tr).Node? && MergedTree(tl, tr).obj == tl.obj
    ensures MergedTree(tl, tr).kids.Keys == tl.kids.Keys + tr.kids.Keys
    ensures forall k | k in MergedTree(tl, tr).kids ::
              MergedTree(tl, tr).kids[k] == if k in tr.kids then MergedKid(tl, tr, k) else tl.kids[k]
  {
    hide MergedKid;
  }

  lemma AllTrees(tl: Tree, tr: Tree, kids: map<string, Tree>)
    requires tl.Node? && tr.Node? && TreesSoFar(tl, tr, kids, {})
    ensures Node(tl.obj, kids) == MergedTree(tl, tr)
  {
    hide MergedKid, MergedTree;
    MergedKids(tl, tr);
    assert kids == MergedTree(tl, tr).kids;
  }

  /** The maps of the right that are part of both documents after a merge: those met where the left had no map, and all below them. */
  ghost function Adopted(tl: Tree, tr: Tree): set<JsonMap>
    decreases tr
  {
    if !(tl.Node? && tr.Node?) then Footprint(tr)
    else set k, o | k in tr.kids && o in AdoptedAt(tl, tr, k) :: o
  }

  ghost function AdoptedAt(tl: Tree, tr: Tree, k: string): set<JsonMap>
    requires tl.Node? && tr.Node? && k in tr.kids
    decreases tr, 0
  {
    if k in tl.kids then Adopted(tl.kids[k], tr.kids[k]) else Footprint(tr.kids[k])
  }

  lemma {:induction false} MergedFootprint(tl: Tree, tr: Tree)
    ensures Footprint(MergedTree(tl, tr)) <= Footprint(tl) + Footprint(tr)
    decreases tr
  {
    if tl.Node? && tr.Node? {
      forall k | k in MergedTree(tl, tr).kids
        ensures Footprint(MergedTree(tl, tr).kids[k]) <= Footprint(tl) + Footprint(tr)
      {
        if k in tr.kids && k in tl.kids {
          MergedFootprint(tl.kids[k], tr.kids[k]);
          KidInside(tl, k);
        }
        if k in tr.kids {
          KidInside(tr, k);
        } else {
          KidInside(tl, k);
        }
      }
    }
  }

  lemma KidInside(t: Tree, k: string)
    requires t.Node? && k in t.kids
    ensures Footprint(t.kids[k]) <= Footprint(t)
  {
  }

  /** Exactly the adopted maps are shared by the two documents after a merge. */
  lemma {:induction false} SharedIffAdopted(tl: Tree, tr: Tree, o: JsonMap)
    requires Footprint(tl) !! Footprint(tr)
    ensures o in Footprint(MergedTree(tl, tr)) && o in Footprint(tr) <==> o in Adopted(tl, tr)
    decreases tr
  {
    if tl.Node? && tr.Node? {
      var t := MergedTree(tl, tr);
      assert tl.obj in Footprint(tl);
      forall k | k in t.kids
        ensures o in Footprint(t.kids[k]) && o in Footprint(tr) <==> k in tr.kids && o in AdoptedAt(tl, tr, k)
      {
        if k in tr.kids {
          SharedAt(tl, tr, k, o);
        } else {
          KidInside(tl, k);
        }
      }
    }
  }

  lemma {:induction false} SharedAt(tl: Tree, tr: Tree, k: string, o: JsonMap)
    requires tl.Node? && tr.Node? && Footprint(tl) !! Footprint(tr) && k in tr.kids
    ensures k in MergedTree(tl, tr).kids
    ensures o in Footprint(MergedTree(tl, tr).kids[k]) && o in Footprint(tr) <==> o in AdoptedAt(tl, tr, k)
    decreases tr, 0
  {
    hide Footprint, Adopted;
    KidInside(tr, k);
    if k in tl.kids {
      KidInside(tl, k);
      MergedFootprint(tl.kids[k], tr.kids[k]);
      SharedIffAdopted(tl.kids[k], tr.kids[k], o);
    }
  }

  /** No visited key is too deep on both sides. */
  ghost predicate NoneTooDeep(tl: Tree, tr: Tree, todo: set<string>, n: nat)
    requires tl.Node? && tr.Node?
  {
    forall k | k in tr.kids && k !in todo :: !BothDeep(KidShape(tl, k), KidShape(tr, k), n)
  }

  /** merge in place, right into left, both disjoint trees. The right tree stays as it is and is shared where it was new to the left. */
  method MergeMaps(left: JsonMap, right: JsonMap, depth: nat, maxDepth: nat, ghost tl: Tree, ghost tr: Tree)
    returns (err: bool, ghost t: Tree)
    requires IsTree(left, tl) && IsTree(right, tr) && Footprint(tl) !! Footprint(tr)
    modifies Footprint(tl)
    ensures IsTree(left, t) && Footprint(t) <= Footprint(tl) + Footprint(tr)
    ensures IsTree(right, tr)
    ensures err <==> BothDeep(Shape(tl), Shape(tr), if depth < maxDepth then maxDepth - depth else 0)
    ensures !err ==> t == MergedTree(tl, tr) && Shape(t) == DeepMerge(Shape(tl), Shape(tr))
    ensures err ==> PartlyMerged(Shape(tl), Shape(tr), Shape(t))
    decreases maxDepth - depth, 2
  {
    hide Footprint, Holds, Separate, Shape, DeepMerge, BothDeep, PartlyMerged, MergedTree, MergedKid;
    if depth >= maxDepth {
      NothingMerged(tl, tr);
      return true, tl;
    }
    Opens(left, tl);
    Opens(right, tr);
    JointPartsApart(left, right, tl, tr);
    var todo := right.m.Keys;
    ghost var kids, parts, n := tl.kids, JointParts(tl, tr), maxDepth - depth - 1;
    while todo != {}
      invariant todo <= tr.kids.Keys
      invariant Within(kids, parts) && AllHold(kids) && left.m == Roots(kids)
      invariant IsTree(right, tr)
      invariant MergedSoFar(tl, tr, kids, todo) && TreesSoFar(tl, tr, kids, todo) && NoneTooDeep(tl, tr, todo, n)
    {
      var k :| k in todo;
      err, kids := MergeKey(left, right, k, depth, maxDepth, tl, tr, kids, parts, Footprint(tr), todo, n);
      todo := todo - {k};
      if err {
        t := Node(left, kids);
        Closes(left, kids, parts, Footprint(tl) + Footprint(tr));
        return;
      }
    }
    err := false;
    t := Node(left, kids);
    Closes(left, kids, parts, Footprint(tl) + Footprint(tr));
    AllMerged(tl, tr, kids, n);
    AllTrees(tl, tr, kids);
  }

  lemma NothingMerged(tl: Tree, tr: Tree)
    requires tl.Node? && tr.Node?
    ensures PartlyMerged(Shape(tl), Shape(tr), Shape(tl)) && BothDeep(Shape(tl), Shape(tr), 0)
  {
  }

  lemma AllMerged(tl: Tree, tr: Tree, kids: map<string, Tree>, n: nat)
    requires tl.Node? && tr.Node? && MergedSoFar(tl, tr, kids, {}) && NoneTooDeep(tl, tr, {}, n)
    ensures Shape(Node(tl.obj, kids)) == DeepMerge(Shape(tl), Shape(tr))
    ensures !BothDeep(Shape(tl), Shape(tr), n + 1)
  {
  }

  lemma MergedStep(tl: Tree, tr: Tree, kids: map<string, Tree>, todo: set<string>, k: string, kid: Tree, n: nat)
    requires tl.Node? && tr.Node? && k in tr.kids && k in todo
    requires MergedSoFar(tl, tr, kids, todo) && NoneTooDeep(tl, tr, todo, n)
    requires Shape(kid) == DeepMerge(KidShape(tl, k), KidShape(tr, k)) && !BothDeep(KidShape(tl, k), KidShape(tr, k), n)
    ensures MergedSoFar(tl, tr, kids[k := kid], todo - {k}) && NoneTooDeep(tl, tr, todo - {k}, n)
  {
    hide Shape, DeepMerge, BothDeep;
  }

  lemma CutOff(tl: Tree, tr: Tree, kids: map<string, Tree>, todo: set<string>, k: string, kid: Tree, n: nat)
    requires tl.Node? && tr.Node? && k in tl.kids && k in tr.kids && MergedSoFar(tl, tr, kids, todo)
    requires BothDeep(KidShape(tl, k), KidShape(tr, k), n) && PartlyMerged(KidShape(tl, k), KidShape(tr, k), Shape(kid))
    ensures BothDeep(Shape(tl), Shape(tr), n + 1)
    ensures PartlyMerged(Shape(tl), Shape(tr), Shape(Node(tl.obj, kids[k := kid])))
  {
    hide Shape, DeepMerge;
    var t := Node(tl.obj, kids[k := kid]);
    ShapeAt(tl, k);
    ShapeAt(tr, k);
    forall k'
      ensures k' in Shape(t).fields <==> k' in t.kids
      ensures k' in Shape(tl).fields <==> k' in tl.kids
      ensures k' in Shape(tr).fields <==> k' in tr.kids
    {
      ShapeAt(t, k');
      ShapeAt(tl, k');
      ShapeAt(tr, k');
    }
    forall k' | k' in t.kids
      ensures PartlyAt(Shape(tl), Shape(tr), Shape(t), k')
    {
      CutOffAt(tl, tr, kids, todo, k, kid, k');
    }
  }

  lemma CutOffAt(tl: Tree, tr: Tree, kids: map<string, Tree>, todo: set<string>, k: string, kid: Tree, k': string)
    requires tl.Node? && tr.Node? && k in tl.kids && k in tr.kids && MergedSoFar(tl, tr, kids, todo) && k' in kids[k := kid]
    requires PartlyMerged(KidShape(tl, k), KidShape(tr, k), Shape(kid))
    ensures Shape(tl).Object? && Shape(tr).Object? && k' in Shape(Node(tl.obj, kids[k := kid])).fields
    ensures PartlyAt(Shape(tl), Shape(tr), Shape(Node(tl.obj, kids[k := kid])), k')
  {
  }

  /** One turn of the loop, seen from the whole left map. */
  method MergeKey(left: JsonMap, right: JsonMap, k: string, depth: nat, maxDepth: nat, ghost tl: Tree, ghost tr: Tree,
                  ghost kids: map<string, Tree>, ghost parts: map<string, set<JsonMap>>, ghost fr: set<JsonMap>, ghost todo: set<string>, ghost n: nat)
    returns (err: bool, ghost kids': map<string, Tree>)
    requires depth < maxDepth && n == maxDepth - depth - 1 && tl.Node? && tl.obj == left && left !in fr && Separate(tl)
    requires IsTree(right, tr) && fr == Footprint(tr) && KidFootprint(tl, k) !! fr
    requires parts == JointParts(tl, tr) && Apart(left, parts) && Within(tr.kids, parts)
    requires k in tr.kids && k in todo
    requires Within(kids, parts) && AllHold(kids) && left.m == Roots(kids)
    requires MergedSoFar(tl, tr, kids, todo) && TreesSoFar(tl, tr, kids, todo) && NoneTooDeep(tl, tr, todo, n)
    modifies left, KidFootprint(tl, k)
    ensures Within(kids', parts) && AllHold(kids') && left.m == Roots(kids')
    ensures IsTree(right, tr)
    ensures !err ==> MergedSoFar(tl, tr, kids', todo - {k}) && TreesSoFar(tl, tr, kids', todo - {k}) && NoneTooDeep(tl, tr, todo - {k}, n)
    ensures err ==> BothDeep(Shape(tl), Shape(tr), n + 1) && PartlyMerged(Shape(tl), Shape(tr), Shape(Node(left, kids')))
    decreases maxDepth - depth, 1
  {
    hide Footprint, Holds, Separate, Shape, DeepMerge, BothDeep, PartlyMerged, MergedSoFar, TreesSoFar, MergedKid, NoneTooDeep, Within, Apart;
    OthersApart(left, kids, parts, k);
    KidsMatch(left, tl, kids, tr, todo, k, n);
    ghost var kid;
    err, kid := MergeValue(left, right, k, depth, maxDepth, tl, tr, fr, n);
    kids' := kids[k := kid];
    WithinUpdate(kids, parts, k, kid);
    if err {
      CutOff(tl, tr, kids, todo, k, kid, n);
    } else {
      MergedStep(tl, tr, kids, todo, k, kid, n);
      TreesStep(tl, tr, kids, todo, k);
    }
  }

  /** The value at one key: right's is taken over unless both sides hold a map. */
  method MergeValue(left: JsonMap, right: JsonMap, k: string, depth: nat, maxDepth: nat, ghost tl: Tree, ghost tr: Tree,
                    ghost fr: set<JsonMap>, ghost n: nat)
    returns (err: bool, ghost kid: Tree)
    requires depth < maxDepth && n == maxDepth - depth - 1 && tl.Node? && tr.Node? && left !in fr && k in tr.kids
    requires IsTree(right, tr) && fr == Footprint(tr) && KidFootprint(tl, k) !! fr && left !in KidFootprint(tl, k)
    requires k in left.m <==> k in tl.kids
    requires k in tl.kids ==> left.m[k] == Root(tl.kids[k]) && Separate(tl.kids[k]) && Holds(tl.kids[k])
    requires !(k in tl.kids && tl.kids[k].Node? && tr.kids[k].Node?) ==>
              DeepMerge(KidShape(tl, k), KidShape(tr, k)) == KidShape(tr, k) && !BothDeep(KidShape(tl, k), KidShape(tr, k), n)
    modifies left, KidFootprint(tl, k)
    ensures left.m == old(left.m)[k := Root(kid)]
    ensures Separate(kid) && Holds(kid) && Footprint(kid) <= KidFootprint(tl, k) + KidFootprint(tr, k)
    ensures IsTree(right, tr)
    ensures err <==> BothDeep(KidShape(tl, k), KidShape(tr, k), n)
    ensures !err ==> kid == MergedKid(tl, tr, k) && Shape(kid) == DeepMerge(KidShape(tl, k), KidShape(tr, k))
    ensures err ==> k in tl.kids && PartlyMerged(KidShape(tl, k), KidShape(tr, k), Shape(kid))
    decreases maxDepth - depth, 0
  {
    hide Footprint, Holds, Separate, Shape, DeepMerge, BothDeep, PartlyMerged, Apart;
    Opens(right, tr);
    assert Footprint(tr.kids[k]) == Parts(tr)[k];
    var rv := right.m[k];
    if k !in left.m || left.m[k] == Plain(Null) || rv == Plain(Null) || !rv.Ref? || !left.m[k].Ref? {
      left.m := left.m[k := rv];
      err, kid := false, tr.kids[k];
    } else {
      assert left.m[k := left.m[k]] == left.m;
      err, kid := MergeMaps(left.m[k].obj, rv.obj, depth + 1, maxDepth, tl.kids[k], tr.kids[k]);
    }
  }

  /** The values met at a key not visited yet are the roots of the two original kids. */
  lemma KidsMatch(left: JsonMap, tl: Tree, kids: map<string, Tree>, tr: Tree, todo: set<string>, k: string, n: nat)
    requires tl.Node? && tr.Node? && k in tr.kids && k in todo && MergedSoFar(tl, tr, kids, todo) && left.m == Roots(kids)
    requires Separate(tl) && Separate(tr)
    ensures k in left.m <==> k in tl.kids
    ensures k in tl.kids ==> kids[k] == tl.kids[k] && left.m[k] == Root(tl.kids[k]) && Separate(tl.kids[k])
    ensures !(k in tl.kids && tl.kids[k].Node? && tr.kids[k].Node?) ==>
              DeepMerge(KidShape(tl, k), KidShape(tr, k)) == KidShape(tr, k) && !BothDeep(KidShape(tl, k), KidShape(tr, k), n)
  {
  }

  // ---------- Report.Merge and Desire.Merge ----------

  /**
   Merge succeeds unless both sides hold maps along a path of four keys. It then leaves the deep merge, which is what
   patching with Diff would give exactly when every null in the merged document is already there.
   */
  method Merge(left: JsonMap, right: JsonMap, ghost tl: Tree, ghost tr: Tree) returns (err: bool, ghost t: Tree)
    requires IsTree(left, tl) && IsTree(right, tr) && Footprint(tl) !! Footprint(tr)
    modifies Footprint(tl)
    ensures IsTree(left, t) && IsTree(right, tr)
    ensures err <==> BothDeep(Shape(tl), Shape(tr), 4)
    ensures Shape(tl).Object? && Shape(tr).Object?
    ensures !err ==> t == MergedTree(tl, tr) && Shape(t) == DeepMerge(Shape(tl), Shape(tr))
    ensures !err ==> (Shape(t) == Patch(Shape(tl), Diff(Shape(tr), Shape(tl))) <==> NullsReported(Shape(tl), Shape(tr)))
    ensures err ==> PartlyMerged(Shape(tl), Shape(tr), Shape(t))
  {
    hide Footprint, Holds, Separate, DeepMerge, BothDeep, PartlyMerged, MergedTree, Diff, Patch, NullsReported;
    err, t := MergeMaps(left, right, 1, MAX_JSON_LEVEL, tl, tr);
    DiffReachesMerge(Shape(tl), Shape(tr));
  }

  /** The documents of the example: nothing, one with an empty map under k, and one with a value in it. */
  ghost function Outer(obj: JsonMap, k: string, inner: JsonMap, kids: map<string, Tree>): Tree {
    Node(obj, map[k := Node(inner, kids)])
  }

  lemma OuterIsTree(obj: JsonMap, k: string, inner: JsonMap, kids: map<string, Tree>)
    requires obj != inner && (forall x | x in kids :: kids[x].Leaf? && !kids[x].j.Object?)
    requires obj.m == map[k := Ref(inner)] && inner.m == Roots(kids)
    ensures IsTree(obj, Outer(obj, k, inner, kids)) && Footprint(Outer(obj, k, inner, kids)) == {obj, inner}
  {
    var kid := Node(inner, kids);
    assert Footprint(kid) == {inner};
    var t := Outer(obj, k, inner, kids);
    assert t.kids[k] == kid;
    assert Footprint(t) == {obj} + Footprint(kid);
    assert Root(kid) == Ref(inner);
    assert Roots(t.kids) == map[k := Ref(inner)];
  }

  lemma MergedIntoNothing(left: JsonMap, first: JsonMap, k: string, inner: JsonMap)
    ensures var tl, tr := Node(left, map[]), Outer(first, k, inner, map[]);
            MergedTree(tl, tr) == Outer(left, k, inner, map[]) && !BothDeep(Shape(tl), Shape(tr), 4)
  {
    var tl, tr := Node(left, map[]), Outer(first, k, inner, map[]);
    hide MergedTree;
    MergedKids(tl, tr);
    assert MergedTree(tl, tr).kids == tr.kids;
    assert Shape(tl) == EMPTY;
  }

  lemma MergedIntoEmpty(left: JsonMap, k: string, inner: JsonMap, second: JsonMap, inner': JsonMap, kids: map<string, Tree>)
    ensures var tl, tr := Outer(left, k, inner, map[]), Outer(second, k, inner', kids);
            MergedTree(tl, tr) == Outer(left, k, inner, kids) && !BothDeep(Shape(tl), Shape(tr), 4)
  {
    var tl, tr := Outer(left, k, inner, map[]), Outer(second, k, inner', kids);
    hide MergedTree;
    MergedKids(tl, tr);
    MergedKids(Node(inner, map[]), Node(inner', kids));
    assert MergedTree(Node(inner, map[]), Node(inner', kids)).kids == kids;
    assert MergedTree(tl, tr).kids == map[k := Node(inner, kids)];
    OuterShape(left, k, inner, map[]);
    OuterShape(second, k, inner', kids);
    var l, r := Object(map[]), Object(map x | x in kids :: Shape(kids[x]));
    assert !BothDeep(l, r, 3);
  }

  lemma OuterShape(obj: JsonMap, k: string, inner: JsonMap, kids: map<string, Tree>)
    ensures Shape(Outer(obj, k, inner, kids)) == Object(map[k := Shape(Node(inner, kids))])
    ensures Shape(Node(inner, kids)) == Object(map x | x in kids :: Shape(kids[x]))
  {
    var t := Outer(obj, k, inner, kids);
    assert t.kids[k] == Node(inner, kids);
    assert Shape(t).fields == map[k := Shape(Node(inner, kids))];
  }

  lemma OneLeaf(inner: JsonMap, x: string, v: Json)
    ensures Shape(Node(inner, map[x := Leaf(v)])) == Object(map[x := v])
  {
    assert Shape(Node(inner, map[x := Leaf(v)])).fields == map[x := v];
  }

  lemma NoLeaf(inner: JsonMap)
    ensures Shape(Node(inner, map[])) == EMPTY
  {
  }

  lemma EmptyIsTree(obj: JsonMap)
    requires obj.m == map[]
    ensures IsTree(obj, Node(obj, map[]))
  {
    assert Roots(map[]) == map[];
  }

  lemma OuterHolds(obj: JsonMap, k: string, inner: JsonMap, kids: map<string, Tree>)
    requires IsTree(obj, Outer(obj, k, inner, kids))
    ensures inner.m == Roots(kids)
  {
    var t := Outer(obj, k, inner, kids);
    assert t.kids[k] == Node(inner, kids);
    assert Holds(t.kids[k]);
  }

  lemma Footprints(obj: JsonMap, k: string, inner: JsonMap, kids: map<string, Tree>)
    requires forall x | x in kids :: kids[x].Leaf?
    ensures Footprint(Outer(obj, k, inner, kids)) == {obj, inner} && Footprint(Node(obj, map[])) == {obj}
  {
    assert Footprint(Node(inner, kids)) == {inner};
    assert Outer(obj, k, inner, kids).kids[k] == Node(inner, kids);
  }

  /**
   A merge shares maps: merging a second document into the left changes the first one as well. Here the first holds an empty
   map under k, and after the second merge it holds the second's value.
   */
  method SecondMergeChangesFirst(k: string, x: string, v: Json) returns (first: JsonMap, ghost before: Tree, ghost after: Tree)
    requires !v.Object?
    ensures Shape(before) == Object(map[k := EMPTY])
    ensures IsTree(first, after) && Shape(after) == Object(map[k := Object(map[x := v])])
  {
    hide Footprint, Separate, Holds, Shape, BothDeep, MergedTree, DeepMerge, PartlyMerged, Outer, NullsReported, Diff, Patch;
    var left := new JsonMap();
    var inner := new JsonMap();
    first := new JsonMap();
    first.m := map[k := Ref(inner)];
    var inner' := new JsonMap();
    inner'.m := map[x := Plain(v)];
    var second := new JsonMap();
    second.m := map[k := Ref(inner')];
    ghost var kids := map[x := Leaf(v)];
    assert Roots(kids) == inner'.m && Roots(map[]) == map[];
    before := Outer(first, k, inner, map[]);
    ghost var other := Outer(second, k, inner', kids);
    OuterIsTree(first, k, inner, map[]);
    OuterIsTree(second, k, inner', kids);
    Footprints(left, k, inner, map[]);
    MergedIntoNothing(left, first, k, inner);
    EmptyIsTree(left);
    var err;
    ghost var merged;
    err, merged := Merge(left, first, Node(left, map[]), before);
    MergedIntoEmpty(left, k, inner, second, inner', kids);
    err, merged := Merge(left, second, merged, other);
    OuterHolds(left, k, inner, kids);
    after := Outer(first, k, inner, kids);
    OuterIsTree(first, k, inner, kids);
    OuterShape(first, k, inner, map[]);
    OuterShape(first, k, inner, kids);
    OneLeaf(inner, x, v);
    NoLeaf(inner);
  }
}
