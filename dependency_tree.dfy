/**
 * makeDependencyTree: the nested objects that the tree view renders, each key
 * a package's description and each value the merged objects of its dependencies.
 */
module DependencyTree {
  import opened Wrappers
  import opened OrderedMaps
  import opened Packages
  import opened Descriptions
  import opened FlatMap

  /** A nested object: each key maps to the object of that package's dependencies. */
  datatype Forest = Forest(entries: seq<(string, Forest)>)

  /** The string a description becomes when used as an object key. */
  function KeyText(d: Description): string
  {
    if d.Line? then d.text else "[object Object]"
  }

  /** Missing-only mode drops a node whose license and whose direct dependencies' licenses are all present. */
  predicate Pruned(p: Package, s: Settings)
  {
    s.missingOnly && !IsMissing(p) && !SomeMissing(p.deps)
  }

  /** The object makeDependencyTree returns. */
  function Tree(p: Package, s: Settings): Forest
    decreases p, 1
  {
    if Pruned(p, s) then Forest([])
    else Forest([(KeyText(Describe(p, s)), Forest(Merged(p.deps, s)))])
  }

  /** The objects of `ds` merged key by key in order, a later key overwriting an earlier one. */
  function Merged(ds: seq<Package>, s: Settings): seq<(string, Forest)>
    decreases ds, 0
  {
    if |ds| == 0 then []
    else PutAll(Merged(ds[..|ds| - 1], s), Tree(ds[|ds| - 1], s).entries)
  }

  /** makeDependencyTree. */
  method MakeDependencyTree(p: Package, s: Settings) returns (t: Forest)
    ensures t == Tree(p, s)
    decreases p, 1
  {
    if s.missingOnly && !IsMissing(p) && !SomeMissing(p.deps) {
      return Forest([]);
    }
    var d := GetDescription(p, s);
    var subtrees := Subtrees(p.deps, s);
    var dependencies := MergeSubtrees(p.deps, s, subtrees);
    t := Forest([(KeyText(d), Forest(dependencies))]);
  }

  /** `info.deps.map(makeDependencyTree)`. */
  method Subtrees(ds: seq<Package>, s: Settings) returns (subtrees: seq<Forest>)
    ensures |subtrees| == |ds|
    ensures forall j :: 0 <= j < |ds| ==> subtrees[j] == Tree(ds[j], s)
    decreases ds, 0
  {
    subtrees := [];
    for i := 0 to |ds|
      invariant |subtrees| == i
      invariant forall j :: 0 <= j < i ==> subtrees[j] == Tree(ds[j], s)
    {
      var sub := MakeDependencyTree(ds[i], s);
      subtrees := subtrees + [sub];
    }
  }

  /** The `forEach` over the dependencies' objects, merging each into one. */
  method MergeSubtrees(ds: seq<Package>, s: Settings, subtrees: seq<Forest>)
    returns (dependencies: seq<(string, Forest)>)
    requires |subtrees| == |ds|
    requires forall j :: 0 <= j < |ds| ==> subtrees[j] == Tree(ds[j], s)
    ensures dependencies == Merged(ds, s)
  {
    dependencies := [];
    for i := 0 to |subtrees|
      invariant dependencies == Merged(ds[..i], s)
    {
      dependencies := CopyKeys(dependencies, subtrees[i].entries);
      assert ds[..i + 1][..i] == ds[..i];
    }
    assert ds[..|ds|] == ds;
  }

  /** The inner loop: `dependencies[k] = dependency[k]` for each key of `dependency`, in order. */
  method CopyKeys(dependencies0: seq<(string, Forest)>, dependency: seq<(string, Forest)>)
    returns (dependencies: seq<(string, Forest)>)
    ensures dependencies == PutAll(dependencies0, dependency)
  {
    dependencies := dependencies0;
    for j := 0 to |dependency|
      invariant dependencies == PutAll(dependencies0, dependency[..j])
    {
      dependencies := Put(dependencies, dependency[j].0, dependency[j].1);
      assert dependency[..j + 1][..j] == dependency[..j];
    }
    assert dependency[..|dependency|] == dependency;
  }

  /**
   * A node gives an empty object exactly when missing-only mode is on and
   * neither it nor any direct dependency is missing, whatever lies deeper;
   * otherwise it gives one key, its description, holding the merged objects of
   * its dependencies.
   */
  lemma TreeShape(p: Package, s: Settings)
    ensures |Tree(p, s).entries| <= 1
    ensures Tree(p, s).entries == [] <==>
            s.missingOnly && !IsMissing(p) && forall i :: 0 <= i < |p.deps| ==> !IsMissing(p.deps[i])
    ensures Tree(p, s).entries != [] ==>
            Tree(p, s).entries[0] == (KeyText(Describe(p, s)), Forest(Merged(p.deps, s)))
  {
  }

  /** The keys the dependencies contribute, in sibling order (pruned ones contribute none). */
  function ChildKeys(ds: seq<Package>, s: Settings): seq<string>
  {
    if |ds| == 0 then []
    else ChildKeys(ds[..|ds| - 1], s) + Keys(Tree(ds[|ds| - 1], s).entries)
  }

  /** Assigning the entries of an object with at most one key. */
  lemma PutAllSingle(m: seq<(string, Forest)>, more: seq<(string, Forest)>)
    requires |more| <= 1
    ensures PutAll(m, more) == if |more| == 0 then m else Put(m, more[0].0, more[0].1)
  {
    if |more| == 1 {
      assert more[..0] == [];
    }
  }

  /** The merged object's keys are the dependencies' keys in order of first appearance. */
  lemma {:induction false} MergedKeys(ds: seq<Package>, s: Settings)
    ensures Keys(Merged(ds, s)) == Dedup(ChildKeys(ds, s))
  {
    if |ds| > 0 {
      var init, last := ds[..|ds| - 1], ds[|ds| - 1];
      MergedKeys(init, s);
      TreeShape(last, s);
      PutAllSingle(Merged(init, s), Tree(last, s).entries);
      var x := ChildKeys(init, s);
      if Tree(last, s).entries != [] {
        var k := Tree(last, s).entries[0].0;
        assert Keys(Tree(last, s).entries) == [k];
        assert (x + [k])[..|x|] == x;
      } else {
        assert ChildKeys(ds, s) == x;
      }
    }
  }

  /**
   * A dependency's key holds that dependency's object unless a later sibling
   * has the same key: a later sibling overwrites an earlier one.
   */
  lemma {:induction false} LaterSiblingWins(ds: seq<Package>, s: Settings, j: nat)
    requires j < |ds| && Tree(ds[j], s).entries != []
    requires forall j' :: j < j' < |ds| && Tree(ds[j'], s).entries != [] ==>
               Tree(ds[j'], s).entries[0].0 != Tree(ds[j], s).entries[0].0
    ensures Lookup(Merged(ds, s), Tree(ds[j], s).entries[0].0) == Some(Tree(ds[j], s).entries[0].1)
  {
    var init, last := ds[..|ds| - 1], ds[|ds| - 1];
    TreeShape(last, s);
    PutAllSingle(Merged(init, s), Tree(last, s).entries);
    if j < |ds| - 1 {
      assert init[j] == ds[j];
      LaterSiblingWins(init, s, j);
    }
  }

  /**
   * With missing-only, a tree whose root and direct dependencies all have
   * licenses is empty even when a deeper package is missing, although the flat
   * listing of the same tree names that package.
   */
  lemma DeepMissingHidden(p: Package, s: Settings, n: Package)
    requires s.missingOnly && !IsMissing(p) && forall i :: 0 <= i < |p.deps| ==> !IsMissing(p.deps[i])
    requires n in Preorder(p) && IsMissing(n)
    ensures Tree(p, s).entries == []
    ensures NameVersion(n) in Flat(p, s)
  {
    FlatKeys(p, s);
  }

  /** A root and its dependency with licenses, over a grandchild without a license file. */
  function HiddenExample(): Package
  {
    var grandchild := Package("c", "1.0.0", map[], None, "unknown", []);
    var child := Package("b", "1.0.0", map[], Some("/p/node_modules/b/LICENSE"), "MIT", [grandchild]);
    Package("a", "1.0.0", map[], Some("/p/LICENSE"), "MIT", [child])
  }

  /** On that tree, missing-only shows nothing in the tree view and `c@1.0.0` in the flat one. */
  lemma HiddenExampleShowsNothing(s: Settings)
    requires s.missingOnly
    ensures Tree(HiddenExample(), s).entries == []
    ensures "c@1.0.0" in Flat(HiddenExample(), s)
  {
    var a := HiddenExample();
    var c := a.deps[0].deps[0];
    assert Preorder(a.deps[0]) == [a.deps[0]] + PreorderAll([c]);
    assert PreorderAll(a.deps) == PreorderAll([]) + Preorder(a.deps[0]);
    assert c in Preorder(a);
    DeepMissingHidden(a, s, c);
    assert NameVersion(c) == "c@1.0.0";
  }

  /** Some node of the subtree (the node itself included) is missing. */
  predicate SubtreeMissing(p: Package)
  {
    exists i :: 0 <= i < |Preorder(p)| && IsMissing(Preorder(p)[i])
  }

  /** The tree with the pruning evidently intended: drop a node only when nothing below it is missing. */
  function FixedTree(p: Package, s: Settings): Forest
    decreases p, 1
  {
    if s.missingOnly && !SubtreeMissing(p) then Forest([])
    else Forest([(KeyText(Describe(p, s)), Forest(FixedMerged(p.deps, s)))])
  }

  function FixedMerged(ds: seq<Package>, s: Settings): seq<(string, Forest)>
    decreases ds, 0
  {
    if |ds| == 0 then []
    else PutAll(FixedMerged(ds[..|ds| - 1], s), FixedTree(ds[|ds| - 1], s).entries)
  }

  /** With missing-only, the corrected tree is empty exactly when the flat listing is. */
  lemma FixedTreeAgreesWithFlat(p: Package, s: Settings)
    requires s.missingOnly
    ensures FixedTree(p, s).entries == [] <==> Flat(p, s) == map[]
  {
    FlatKeys(p, s);
    var pre := Preorder(p);
    if SubtreeMissing(p) {
      var i :| 0 <= i < |pre| && IsMissing(pre[i]);
      assert NameVersion(pre[i]) in Flat(p, s);
    } else {
      forall n | n in pre ensures !Listed(n, s) {
        var i :| 0 <= i < |pre| && pre[i] == n;
      }
      assert Flat(p, s).Keys == {};
    }
  }

  /** Without missing-only the correction changes nothing. */
  lemma {:induction false} FixedTreeUnchanged(p: Package, s: Settings)
    requires !s.missingOnly
    ensures FixedTree(p, s) == Tree(p, s)
    decreases p, 1
  {
    FixedMergedUnchanged(p.deps, s);
  }

  lemma {:induction false} FixedMergedUnchanged(ds: seq<Package>, s: Settings)
    requires !s.missingOnly
    ensures FixedMerged(ds, s) == Merged(ds, s)
    decreases ds, 0
  {
    if |ds| > 0 {
      FixedMergedUnchanged(ds[..|ds| - 1], s);
      FixedTreeUnchanged(ds[|ds| - 1], s);
    }
  }
}
