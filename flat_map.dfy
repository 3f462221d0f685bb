/**
 * makeFlatDependencyMap: the whole tree as one dictionary from `name@version`
 * to description, for the flat, TSV and JSON listings.
 */
module FlatMap {
  import opened Wrappers
  import opened Packages
  import opened Descriptions

  /** A node is listed unless missing-only mode is on and its license is not missing. */
  predicate Listed(p: Package, s: Settings)
  {
    !s.missingOnly || IsMissing(p)
  }

  function Get(m: map<string, Description>, k: string): Option<Description>
  {
    if k in m then Some(m[k]) else None
  }

  /**
   * What `if (!map[key]) map[key] = sub[key]` leaves at one key, given what the
   * map held before and what the sub-map offers: a truthy earlier value stays,
   * anything else gives way.
   */
  function Choose(x: Option<Description>, y: Option<Description>): Option<Description>
  {
    if x.None? then y
    else if y.None? then x
    else if Truthy(x.value) then x
    else y
  }

  /** `sub`'s entries copied into `m` wherever `m` has no truthy value. */
  function MergeInto(m: map<string, Description>, sub: map<string, Description>): map<string, Description>
  {
    map k | k in m.Keys + sub.Keys :: if k in sub && (k !in m || !Truthy(m[k])) then sub[k] else m[k]
  }

  function Restrict(m: map<string, Description>, ks: set<string>): map<string, Description>
  {
    map k | k in ks && k in m :: m[k]
  }

  /** The node's own entry, when it is listed. */
  function Own(p: Package, s: Settings): map<string, Description>
  {
    if Listed(p, s) then map[NameVersion(p) := Describe(p, s)] else map[]
  }

  /** The map makeFlatDependencyMap returns. */
  function Flat(p: Package, s: Settings): map<string, Description>
    decreases p, 1
  {
    FlatAfter(Own(p, s), p.deps, s)
  }

  /** `m` with the flat maps of `ds` merged in, in order. */
  function FlatAfter(m: map<string, Description>, ds: seq<Package>, s: Settings): map<string, Description>
    decreases ds, 0
  {
    if |ds| == 0 then m
    else MergeInto(FlatAfter(m, ds[..|ds| - 1], s), Flat(ds[|ds| - 1], s))
  }

  /** The descriptions of the listed nodes of `nodes` whose key is `k`, in order. */
  function Occurrences(nodes: seq<Package>, k: string, s: Settings): seq<Description>
  {
    if |nodes| == 0 then [] else Occurrence(nodes[0], k, s) + Occurrences(nodes[1..], k, s)
  }

  /** The node's description if it is listed under key `k`. */
  function Occurrence(n: Package, k: string, s: Settings): seq<Description>
  {
    if Listed(n, s) && NameVersion(n) == k then [Describe(n, s)] else []
  }

  /** The first truthy description, or the last one when none is truthy. */
  function Pick(ds: seq<Description>): Option<Description>
  {
    if |ds| == 0 then None else Choose(Some(ds[0]), Pick(ds[1..]))
  }

  /** makeFlatDependencyMap. */
  method MakeFlatDependencyMap(p: Package, s: Settings) returns (m: map<string, Description>)
    ensures m == Flat(p, s)
    decreases p
  {
    m := map[];
    if !s.missingOnly || IsMissing(p) {
      var d := GetDescription(p, s);
      m := m[NameVersion(p) := d];
    }
    ghost var own := m;
    for i := 0 to |p.deps|
      invariant m == FlatAfter(own, p.deps[..i], s)
    {
      var subMap := MakeFlatDependencyMap(p.deps[i], s);
      m := MergeSubMap(m, subMap);
      assert p.deps[..i + 1][..i] == p.deps[..i];
    }
    assert p.deps[..|p.deps|] == p.deps;
  }

  /** The inner loop: each key of the sub-map is copied where the map has no truthy value. */
  method MergeSubMap(m0: map<string, Description>, subMap: map<string, Description>)
    returns (m: map<string, Description>)
    ensures m == MergeInto(m0, subMap)
  {
    m := m0;
    var keys := subMap.Keys;
    while keys != {}
      invariant keys <= subMap.Keys
      invariant m == MergeInto(m0, Restrict(subMap, subMap.Keys - keys))
      decreases keys
    {
      var k :| k in keys;
      MergeStep(m0, subMap, subMap.Keys - keys, k);
      if k !in m || !Truthy(m[k]) {
        m := m[k := subMap[k]];
      }
      keys := keys - {k};
      assert subMap.Keys - keys == (subMap.Keys - (keys + {k})) + {k};
    }
    assert Restrict(subMap, subMap.Keys - {}) == subMap;
  }

  /** Copying one more key of the sub-map is one more step of `MergeInto`. */
  lemma MergeStep(before: map<string, Description>, sub: map<string, Description>, done: set<string>, k: string)
    requires k in sub && k !in done
    ensures var m := MergeInto(before, Restrict(sub, done));
      MergeInto(before, Restrict(sub, done + {k})) ==
      if k !in m || !Truthy(m[k]) then m[k := sub[k]] else m
  {
  }

  lemma ChooseAssociative(x: Option<Description>, y: Option<Description>, z: Option<Description>)
    ensures Choose(Choose(x, y), z) == Choose(x, Choose(y, z))
  {
  }

  lemma {:induction false} PickConcat(a: seq<Description>, b: seq<Description>)
    ensures Pick(a + b) == Choose(Pick(a), Pick(b))
  {
    if |a| == 0 {
      assert a + b == b;
    } else {
      PickConcat(a[1..], b);
      assert (a + b)[0] == a[0];
      assert (a + b)[1..] == a[1..] + b;
      ChooseAssociative(Some(a[0]), Pick(a[1..]), Pick(b));
    }
  }

  lemma {:induction false} OccurrencesConcat(a: seq<Package>, b: seq<Package>, k: string, s: Settings)
    ensures Occurrences(a + b, k, s) == Occurrences(a, k, s) + Occurrences(b, k, s)
  {
    if |a| == 0 {
      assert a + b == b;
    } else {
      var ab := a + b;
      assert ab[0] == a[0] && ab[1..] == a[1..] + b;
      OccurrencesConcat(a[1..], b, k, s);
      assert Occurrences(ab, k, s) == Occurrence(a[0], k, s) + Occurrences(a[1..] + b, k, s) by {
        assert |ab| > 0;
      }
    }
  }

  lemma MergeLookup(m: map<string, Description>, sub: map<string, Description>, k: string)
    ensures Get(MergeInto(m, sub), k) == Choose(Get(m, k), Get(sub, k))
  {
  }

  /**
   * The flat map holds, at each key, the first truthy description among the
   * listed nodes with that `name@version` in preorder (the last one when none
   * is truthy), and nothing at keys no listed node has.
   */
  lemma {:induction false} FlatLookup(p: Package, s: Settings, k: string)
    ensures Get(Flat(p, s), k) == Pick(Occurrences(Preorder(p), k, s))
    decreases p, 1
  {
    FlatAfterLookup(Own(p, s), p.deps, s, k);
    OccurrencesConcat([p], PreorderAll(p.deps), k, s);
    PickConcat(Occurrences([p], k, s), Occurrences(PreorderAll(p.deps), k, s));
    assert Occurrences([p][1..], k, s) == [];
  }

  lemma {:induction false} FlatAfterLookup(m: map<string, Description>, ds: seq<Package>, s: Settings, k: string)
    ensures Get(FlatAfter(m, ds, s), k) == Choose(Get(m, k), Pick(Occurrences(PreorderAll(ds), k, s)))
    decreases ds, 0
  {
    if |ds| > 0 {
      var init, last := ds[..|ds| - 1], ds[|ds| - 1];
      FlatAfterLookup(m, init, s, k);
      FlatLookup(last, s, k);
      MergeLookup(FlatAfter(m, init, s), Flat(last, s), k);
      ChooseAssociative(Get(m, k), Pick(Occurrences(PreorderAll(init), k, s)), Pick(Occurrences(Preorder(last), k, s)));
      PickConcat(Occurrences(PreorderAll(init), k, s), Occurrences(Preorder(last), k, s));
      OccurrencesConcat(PreorderAll(init), Preorder(last), k, s);
    }
  }

  /** Some listed node has key `k` exactly when there is an occurrence. */
  lemma {:induction false} OccurrencesNonEmpty(nodes: seq<Package>, k: string, s: Settings)
    ensures |Occurrences(nodes, k, s)| > 0 <==>
            exists i :: 0 <= i < |nodes| && Listed(nodes[i], s) && NameVersion(nodes[i]) == k
  {
    if |nodes| > 0 {
      OccurrencesNonEmpty(nodes[1..], k, s);
      if exists i :: 0 <= i < |nodes[1..]| && Listed(nodes[1..][i], s) && NameVersion(nodes[1..][i]) == k {
        var i :| 0 <= i < |nodes[1..]| && Listed(nodes[1..][i], s) && NameVersion(nodes[1..][i]) == k;
        assert nodes[i + 1] == nodes[1..][i];
      }
      if exists i :: 0 <= i < |nodes| && Listed(nodes[i], s) && NameVersion(nodes[i]) == k {
        var i :| 0 <= i < |nodes| && Listed(nodes[i], s) && NameVersion(nodes[i]) == k;
        if i > 0 {
          assert nodes[1..][i - 1] == nodes[i];
        }
      }
    }
  }

  /**
   * The keys of the flat map are the `name@version` of every node of the tree;
   * in missing-only mode, of every node whose license is missing.
   */
  lemma FlatKeys(p: Package, s: Settings)
    ensures Flat(p, s).Keys == set n | n in Preorder(p) && Listed(n, s) :: NameVersion(n)
    ensures !s.missingOnly ==> Flat(p, s).Keys == set n | n in Preorder(p) :: NameVersion(n)
    ensures s.missingOnly ==> Flat(p, s).Keys == set n | n in Preorder(p) && IsMissing(n) :: NameVersion(n)
  {
    var pre := Preorder(p);
    forall k ensures k in Flat(p, s) <==> exists n :: n in pre && Listed(n, s) && NameVersion(n) == k {
      FlatLookup(p, s, k);
      OccurrencesNonEmpty(pre, k, s);
      if exists n :: n in pre && Listed(n, s) && NameVersion(n) == k {
        var n :| n in pre && Listed(n, s) && NameVersion(n) == k;
        var i :| 0 <= i < |pre| && pre[i] == n;
      }
    }
  }

  /** Pick returns the first truthy occurrence when the ones before it are falsy. */
  lemma {:induction false} PickFirstTruthy(nodes: seq<Package>, s: Settings, i: nat)
    requires i < |nodes| && Listed(nodes[i], s) && Truthy(Describe(nodes[i], s))
    requires forall j :: (0 <= j < i && Listed(nodes[j], s) && NameVersion(nodes[j]) == NameVersion(nodes[i])) ==>
               !Truthy(Describe(nodes[j], s))
    ensures Pick(Occurrences(nodes, NameVersion(nodes[i]), s)) == Some(Describe(nodes[i], s))
  {
    var k := NameVersion(nodes[i]);
    var rest := Occurrences(nodes[1..], k, s);
    var d0 := Describe(nodes[0], s);
    if i == 0 {
      assert Occurrences(nodes, k, s) == [d0] + rest;
      assert ([d0] + rest)[1..] == rest;
    } else {
      assert nodes[1..][i - 1] == nodes[i];
      PickFirstTruthy(nodes[1..], s, i - 1);
      if Listed(nodes[0], s) && NameVersion(nodes[0]) == k {
        assert !Truthy(d0);
        assert Occurrences(nodes, k, s) == [d0] + rest;
        assert ([d0] + rest)[1..] == rest;
      } else {
        assert Occurrences(nodes, k, s) == rest;
      }
    }
  }

  /**
   * When a key occurs at several nodes, the flat map keeps the description of
   * the first occurrence in preorder (the node before its dependencies, earlier
   * siblings before later ones) whose description is truthy.
   */
  lemma FlatFirstOccurrenceWins(p: Package, s: Settings, i: nat)
    requires i < |Preorder(p)|
    requires Listed(Preorder(p)[i], s) && Truthy(Describe(Preorder(p)[i], s))
    requires forall j :: (0 <= j < i && Listed(Preorder(p)[j], s) &&
                          NameVersion(Preorder(p)[j]) == NameVersion(Preorder(p)[i])) ==>
               !Truthy(Describe(Preorder(p)[j], s))
    ensures NameVersion(Preorder(p)[i]) in Flat(p, s)
    ensures Flat(p, s)[NameVersion(Preorder(p)[i])] == Describe(Preorder(p)[i], s)
  {
    FlatLookup(p, s, NameVersion(Preorder(p)[i]));
    PickFirstTruthy(Preorder(p), s, i);
  }

  /** In JSON mode every description is truthy, so the first occurrence in preorder wins outright. */
  lemma FlatFirstOccurrenceWinsJson(p: Package, s: Settings, i: nat)
    requires s.json && i < |Preorder(p)| && Listed(Preorder(p)[i], s)
    requires forall j :: 0 <= j < i && Listed(Preorder(p)[j], s) ==>
               NameVersion(Preorder(p)[j]) != NameVersion(Preorder(p)[i])
    ensures NameVersion(Preorder(p)[i]) in Flat(p, s)
    ensures Flat(p, s)[NameVersion(Preorder(p)[i])] == Describe(Preorder(p)[i], s)
  {
    RecordKeys(Preorder(p)[i], s);
    forall j | 0 <= j < i && Listed(Preorder(p)[j], s)
      ensures NameVersion(Preorder(p)[j]) != NameVersion(Preorder(p)[i])
    {
    }
    FlatFirstOccurrenceWins(p, s, i);
  }
}
