/**
 * A JavaScript object used as a dictionary with string keys: its own properties
 * in insertion order, which is the order `for...in` and `Object.keys` visit them.
 */
module OrderedMaps {
  import opened Wrappers

  /** The keys, in order. */
  function Keys<V>(es: seq<(string, V)>): seq<string>
  {
    seq(|es|, i requires 0 <= i < |es| => es[i].0)
  }

  /** The values, in key order (what `for (var f in obj) arr.push(obj[f])` collects). */
  function Values<V>(es: seq<(string, V)>): seq<V>
  {
    seq(|es|, i requires 0 <= i < |es| => es[i].1)
  }

  /** `obj[k]`, or None when `k` is not an own key. */
  function Lookup<V>(es: seq<(string, V)>, k: string): Option<V>
  {
    if |es| == 0 then None
    else if es[0].0 == k then Some(es[0].1)
    else Lookup(es[1..], k)
  }

  /**
   * `obj[k] = v`: a key already present keeps its position and takes the new
   * value, a new key is appended.
   */
  function Put<V>(es: seq<(string, V)>, k: string, v: V): (r: seq<(string, V)>)
    ensures Lookup(r, k) == Some(v)
    ensures forall k' :: k' != k ==> Lookup(r, k') == Lookup(es, k')
    ensures Keys(r) == if k in Keys(es) then Keys(es) else Keys(es) + [k]
    ensures forall e :: e in r ==> e in es || e == (k, v)
  {
    if |es| == 0 then [(k, v)]
    else if es[0].0 == k then
      assert Keys(es)[0] == k;
      [(k, v)] + es[1..]
    else
      var rest := Put(es[1..], k, v);
      assert Keys(es) == [es[0].0] + Keys(es[1..]);
      assert Keys([es[0]] + rest) == [es[0].0] + Keys(rest);
      [es[0]] + rest
  }

  /** The assignments `obj[e.0] = e.1` for each `e` of `more`, in order. */
  function PutAll<V>(es: seq<(string, V)>, more: seq<(string, V)>): seq<(string, V)>
  {
    if |more| == 0 then es
    else
      var last := more[|more| - 1];
      Put(PutAll(es, more[..|more| - 1]), last.0, last.1)
  }

  /** One more assignment of a series. */
  lemma PutAllStep<V>(es: seq<(string, V)>, more: seq<(string, V)>, i: nat)
    requires i < |more|
    ensures PutAll(es, more[..i + 1]) == Put(PutAll(es, more[..i]), more[i].0, more[i].1)
  {
    assert more[..i + 1][..i] == more[..i];
  }

  /** The value the last entry with key `k` carries, if any. */
  function LastValue<V>(more: seq<(string, V)>, k: string): Option<V>
  {
    if |more| == 0 then None
    else if more[|more| - 1].0 == k then Some(more[|more| - 1].1)
    else LastValue(more[..|more| - 1], k)
  }

  /** The keys in order of first appearance. */
  function Dedup(ks: seq<string>): seq<string>
  {
    if |ks| == 0 then []
    else
      var d := Dedup(ks[..|ks| - 1]);
      if ks[|ks| - 1] in d then d else d + [ks[|ks| - 1]]
  }

  /** After a series of assignments, each key holds the value it was last assigned. */
  lemma {:induction false} PutAllLookup<V>(es: seq<(string, V)>, more: seq<(string, V)>, k: string)
    ensures Lookup(PutAll(es, more), k) ==
            if LastValue(more, k).Some? then LastValue(more, k) else Lookup(es, k)
  {
    if |more| > 0 {
      PutAllLookup(es, more[..|more| - 1], k);
    }
  }

  /** Assignments into an empty object leave its keys in order of first assignment. */
  lemma {:induction false} PutAllKeys<V>(more: seq<(string, V)>)
    ensures Keys(PutAll([], more)) == Dedup(Keys(more))
  {
    if |more| > 0 {
      PutAllKeys(more[..|more| - 1]);
      assert Keys(more)[..|more| - 1] == Keys(more[..|more| - 1]);
    }
  }

  /** A key is present exactly when some entry assigned it. */
  lemma {:induction false} LastValueFound<V>(more: seq<(string, V)>, k: string)
    ensures LastValue(more, k).Some? <==> k in Keys(more)
  {
    if |more| > 0 {
      LastValueFound(more[..|more| - 1], k);
      assert Keys(more) == Keys(more[..|more| - 1]) + [more[|more| - 1].0];
    }
  }

  /** The entry at `j` wins when no later entry reuses its key. */
  lemma {:induction false} LastValueAt<V>(more: seq<(string, V)>, j: nat)
    requires j < |more|
    requires forall j' :: j < j' < |more| ==> more[j'].0 != more[j].0
    ensures LastValue(more, more[j].0) == Some(more[j].1)
  {
    if j < |more| - 1 {
      LastValueAt(more[..|more| - 1], j);
    }
  }

  /** First appearances list every key once, and no other. */
  lemma {:induction false} DedupDistinct(ks: seq<string>)
    ensures forall i, j :: 0 <= i < j < |Dedup(ks)| ==> Dedup(ks)[i] != Dedup(ks)[j]
    ensures forall k :: k in Dedup(ks) <==> k in ks
  {
    if |ks| > 0 {
      DedupDistinct(ks[..|ks| - 1]);
      assert ks == ks[..|ks| - 1] + [ks[|ks| - 1]];
    }
  }

  /** Every entry of the object comes from one of the assignments. */
  lemma {:induction false} PutAllFrom<V>(more: seq<(string, V)>)
    ensures forall e :: e in PutAll([], more) ==> e in more
  {
    if |more| > 0 {
      PutAllFrom(more[..|more| - 1]);
      assert more == more[..|more| - 1] + [more[|more| - 1]];
    }
  }
}
