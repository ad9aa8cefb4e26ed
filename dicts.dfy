/**
  Python dictionaries with string keys, as used by py/oauth.py.

  A dict is the list of its entries in iteration order, with distinct keys.
  Item assignment `d[k] = v` keeps the position of an existing key and adds a
  new key at the end; `d.update(e)` performs the assignments of `e` in order.
 */
module Dicts {
  import opened Wrappers
  import opened Strings

  type Dict<V> = seq<(string, V)>

  /** `d.keys()`, in iteration order. */
  function Keys<V>(d: Dict<V>): seq<string>
  {
    seq(|d|, i requires 0 <= i < |d| => d[i].0)
  }

  /** What every Python dict satisfies: no key occurs twice. */
  predicate DistinctKeys<V>(d: Dict<V>)
  {
    Distinct(Keys(d))
  }

  /** The position of key `k`, if present. */
  function IndexOf<V>(d: Dict<V>, k: string): (r: Option<nat>)
    ensures r.Some? ==> r.value < |d| && d[r.value].0 == k
    ensures r.Some? ==> forall j :: 0 <= j < r.value ==> d[j].0 != k
    ensures r.None? ==> forall j :: 0 <= j < |d| ==> d[j].0 != k
  {
    if d == [] then None
    else if d[0].0 == k then Some(0)
    else
      match IndexOf(d[1..], k)
      case None => None
      case Some(i) => Some(i + 1)
  }

  lemma IndexOfPresent<V>(d: Dict<V>, k: string)
    ensures IndexOf(d, k).Some? <==> k in Keys(d)
  {
    if k in Keys(d) {
      var i :| 0 <= i < |d| && Keys(d)[i] == k;
      assert d[i].0 == k;
    }
    if IndexOf(d, k).Some? {
      assert Keys(d)[IndexOf(d, k).value] == k;
    }
  }

  /** `d[k]` */
  function Lookup<V>(d: Dict<V>, k: string): V
    requires k in Keys(d)
  {
    IndexOfPresent(d, k);
    d[IndexOf(d, k).value].1
  }

  /** In a dict, the value found under an entry's key is that entry's value. */
  lemma LookupAt<V>(d: Dict<V>, i: nat)
    requires DistinctKeys(d) && i < |d|
    ensures d[i].0 in Keys(d) && Lookup(d, d[i].0) == d[i].1
  {
    assert Keys(d)[i] == d[i].0;
    IndexOfPresent(d, d[i].0);
    var j := IndexOf(d, d[i].0).value;
    assert Keys(d)[j] == Keys(d)[i];
  }

  /** `d[k] = v` */
  function SetItem<V>(d: Dict<V>, k: string, v: V): Dict<V>
  {
    match IndexOf(d, k)
    case Some(i) => d[i := (k, v)]
    case None => d + [(k, v)]
  }

  /** Assignment keeps the order of the existing keys and appends a new one. */
  lemma SetItemKeys<V>(d: Dict<V>, k: string, v: V)
    ensures Keys(SetItem(d, k, v)) == if k in Keys(d) then Keys(d) else Keys(d) + [k]
  {
    IndexOfPresent(d, k);
  }

  lemma SetItemDistinct<V>(d: Dict<V>, k: string, v: V)
    requires DistinctKeys(d)
    ensures DistinctKeys(SetItem(d, k, v))
  {
    SetItemKeys(d, k, v);
    var ks := Keys(d);
    if k !in ks {
      forall i, j | 0 <= i < j < |ks + [k]| ensures (ks + [k])[i] != (ks + [k])[j] {
        if j == |ks| {
          assert ks[i] in ks;
        }
      }
    }
  }

  /** After `d[k] = v`, `d[k]` is `v` and every other key maps to what it did. */
  lemma SetItemLookup<V>(d: Dict<V>, k: string, v: V, k': string)
    requires DistinctKeys(d)
    requires k' == k || k' in Keys(d)
    ensures k' in Keys(SetItem(d, k, v))
    ensures Lookup(SetItem(d, k, v), k') == if k' == k then v else Lookup(d, k')
  {
    SetItemKeys(d, k, v);
    SetItemDistinct(d, k, v);
    var r := SetItem(d, k, v);
    if k' == k {
      var i :| 0 <= i < |r| && Keys(r)[i] == k;
      assert r[i].0 == k;
      LookupAt(r, i);
      IndexOfPresent(d, k);
      if i < |d| && IndexOf(d, k).Some? {
        assert Keys(r)[IndexOf(d, k).value] == k;
      }
    } else {
      var i :| 0 <= i < |d| && Keys(d)[i] == k';
      assert d[i].0 == k';
      LookupAt(d, i);
      assert r[i] == d[i];
      assert Keys(r)[i] == k';
      LookupAt(r, i);
    }
  }

  /** The whole of `d[k] = v` on a dict with distinct keys: its names, its values, distinctness. */
  lemma SetItemContents<V>(d: Dict<V>, k: string, v: V)
    requires DistinctKeys(d)
    ensures DistinctKeys(SetItem(d, k, v))
    ensures forall k' :: k' in Keys(SetItem(d, k, v)) <==> k' in Keys(d) || k' == k
    ensures Lookup(SetItem(d, k, v), k) == v
    ensures forall k' :: k' in Keys(d) && k' != k ==> Lookup(SetItem(d, k, v), k') == Lookup(d, k')
  {
    SetItemKeys(d, k, v);
    SetItemDistinct(d, k, v);
    SetItemLookup(d, k, v, k);
    forall k' | k' in Keys(d) && k' != k ensures Lookup(SetItem(d, k, v), k') == Lookup(d, k') {
      SetItemLookup(d, k, v, k');
    }
  }

  /** `d.update(e)`: the assignments `d[k] = v` for the entries of `e`, in order. */
  function UpdateWith<V>(d: Dict<V>, e: Dict<V>): Dict<V>
    decreases |e|
  {
    if e == [] then d else UpdateWith(SetItem(d, e[0].0, e[0].1), e[1..])
  }

  lemma {:induction false} UpdateWithKeys<V>(d: Dict<V>, e: Dict<V>)
    requires DistinctKeys(d)
    ensures DistinctKeys(UpdateWith(d, e))
    ensures forall k :: k in Keys(UpdateWith(d, e)) <==> k in Keys(d) || k in Keys(e)
    decreases |e|
  {
    if e != [] {
      var d' := SetItem(d, e[0].0, e[0].1);
      SetItemKeys(d, e[0].0, e[0].1);
      SetItemDistinct(d, e[0].0, e[0].1);
      UpdateWithKeys(d', e[1..]);
      assert Keys(e) == [e[0].0] + Keys(e[1..]);
    }
  }

  lemma KeysTail<V>(e: Dict<V>)
    requires e != []
    ensures Keys(e) == [e[0].0] + Keys(e[1..])
  {
  }

  lemma DistinctKeysTail<V>(e: Dict<V>)
    requires DistinctKeys(e) && e != []
    ensures DistinctKeys(e[1..]) && e[0].0 !in Keys(e[1..])
  {
    var ks, ks' := Keys(e), Keys(e[1..]);
    KeysTail(e);
    forall i, j | 0 <= i < j < |ks'| ensures ks'[i] != ks'[j] {
      assert ks'[i] == ks[i + 1] && ks'[j] == ks[j + 1];
    }
    forall i | 0 <= i < |ks'| ensures ks'[i] != e[0].0 {
      assert ks'[i] == ks[i + 1] && e[0].0 == ks[0];
    }
  }

  /** A key of the tail of a dict maps to the same value in the whole dict. */
  lemma LookupTail<V>(e: Dict<V>, k: string)
    requires DistinctKeys(e) && e != [] && k in Keys(e[1..])
    ensures k in Keys(e) && Lookup(e, k) == Lookup(e[1..], k)
  {
    KeysTail(e);
    DistinctKeysTail(e);
    var i :| 0 <= i < |e[1..]| && Keys(e[1..])[i] == k;
    assert e[1..][i] == e[i + 1];
    LookupAt(e[1..], i);
    LookupAt(e, i + 1);
  }

  /** After `d.update(e)`, keys of `e` map to their value in `e`; the others keep theirs. */
  lemma {:induction false} UpdateWithLookup<V>(d: Dict<V>, e: Dict<V>, k: string)
    requires DistinctKeys(d) && DistinctKeys(e)
    requires k in Keys(d) || k in Keys(e)
    ensures k in Keys(UpdateWith(d, e))
    ensures Lookup(UpdateWith(d, e), k) == if k in Keys(e) then Lookup(e, k) else Lookup(d, k)
    decreases |e|
  {
    if e != [] {
      var d' := SetItem(d, e[0].0, e[0].1);
      var e' := e[1..];
      SetItemKeys(d, e[0].0, e[0].1);
      SetItemDistinct(d, e[0].0, e[0].1);
      KeysTail(e);
      DistinctKeysTail(e);
      if k in Keys(e') {
        UpdateWithLookup(d', e', k);
        LookupTail(e, k);
      } else {
        SetItemLookup(d, e[0].0, e[0].1, k);
        UpdateWithLookup(d', e', k);
        if k == e[0].0 {
          LookupAt(e, 0);
        }
      }
    }
  }

  /** Python's `==` on dicts: the same keys, mapped to the same values. */
  ghost predicate DictEq<V>(d1: Dict<V>, d2: Dict<V>)
  {
    && (forall k :: k in Keys(d1) <==> k in Keys(d2))
    && (forall k :: k in Keys(d1) ==> Lookup(d1, k) == Lookup(d2, k))
  }

  /** Listing the same entries in another order gives an equal dict. */
  lemma PermutedDictsEqual<V>(d1: Dict<V>, d2: Dict<V>)
    requires DistinctKeys(d1) && DistinctKeys(d2)
    requires multiset(d1) == multiset(d2)
    ensures DictEq(d1, d2)
  {
    forall k | k in Keys(d1) ensures k in Keys(d2) && Lookup(d1, k) == Lookup(d2, k) {
      var i :| 0 <= i < |d1| && Keys(d1)[i] == k;
      assert d1[i] in multiset(d2);
      var j :| 0 <= j < |d2| && d2[j] == d1[i];
      assert Keys(d2)[j] == k;
      LookupAt(d1, i);
      LookupAt(d2, j);
    }
    forall k | k in Keys(d2) ensures k in Keys(d1) {
      var j :| 0 <= j < |d2| && Keys(d2)[j] == k;
      assert d2[j] in multiset(d1);
      var i :| 0 <= i < |d1| && d1[i] == d2[j];
      assert Keys(d1)[i] == k;
    }
  }

  /** `d.update(e)` of equal dicts gives equal dicts, whatever their order. */
  lemma UpdateWithRespectsEq<V>(d1: Dict<V>, d2: Dict<V>, e1: Dict<V>, e2: Dict<V>)
    requires DistinctKeys(d1) && DistinctKeys(d2) && DistinctKeys(e1) && DistinctKeys(e2)
    requires DictEq(d1, d2) && DictEq(e1, e2)
    ensures DictEq(UpdateWith(d1, e1), UpdateWith(d2, e2))
  {
    UpdateWithKeys(d1, e1);
    UpdateWithKeys(d2, e2);
    forall k | k in Keys(UpdateWith(d1, e1))
      ensures Lookup(UpdateWith(d1, e1), k) == Lookup(UpdateWith(d2, e2), k)
    {
      UpdateWithLookup(d1, e1, k);
      UpdateWithLookup(d2, e2, k);
    }
  }
}
