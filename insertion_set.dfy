/**
 * VInsertionSet of src/V3Container.h: a set remembered in the order its
 * keys were first inserted. The vector m_keys gives the order, the hash set
 * m_keySet answers membership.
 */
module InsertionSets {

  predicate Distinct<K(==)>(s: seq<K>)
  {
    forall i, j | 0 <= i < j < |s| :: s[i] != s[j]
  }

  /** The keys of an insertion history, each kept at its first occurrence. */
  function FirstOccurrences<K(==)>(h: seq<K>): seq<K>
  {
    if h == [] then []
    else
      var p := FirstOccurrences(h[..|h| - 1]);
      if h[|h| - 1] in h[..|h| - 1] then p else p + [h[|h| - 1]]
  }

  /** Position of the first occurrence of k in h. */
  function FirstIndex<K(==)>(h: seq<K>, k: K): (r: nat)
    requires k in h
    ensures r < |h| && h[r] == k && k !in h[..r]
  {
    if h[0] == k then 0 else 1 + FirstIndex(h[1..], k)
  }

  lemma {:induction false} FirstOccurrencesElements<K(!new)>(h: seq<K>)
    ensures forall k :: k in FirstOccurrences(h) <==> k in h
    ensures Distinct(FirstOccurrences(h))
    decreases |h|
  {
    if h != [] {
      var init := h[..|h| - 1];
      FirstOccurrencesElements(init);
      assert h == init + [h[|h| - 1]];
    }
  }

  /** An insertion appends the key to the first occurrences exactly when it is new. */
  lemma FirstOccurrencesSnoc<K>(h: seq<K>, x: K)
    ensures FirstOccurrences(h + [x]) == if x in h then FirstOccurrences(h) else FirstOccurrences(h) + [x]
  {
    assert (h + [x])[..|h|] == h;
  }

  /** Appending a key keeps the first index of every key already present. */
  lemma {:induction false} FirstIndexAppend<K>(h: seq<K>, x: K, k: K)
    requires k in h
    ensures FirstIndex(h + [x], k) == FirstIndex(h, k)
    decreases |h|
  {
    if h[0] != k {
      assert (h + [x])[1..] == h[1..] + [x];
      FirstIndexAppend(h[1..], x, k);
    }
  }

  /**
   * Iteration order: the keys come out ordered by the position of their
   * first insertion.
   */
  lemma {:induction false} FirstOccurrencesOrder<K(!new)>(h: seq<K>, i: nat, j: nat)
    requires i < j < |FirstOccurrences(h)|
    ensures FirstOccurrences(h)[i] in h && FirstOccurrences(h)[j] in h
    ensures FirstIndex(h, FirstOccurrences(h)[i]) < FirstIndex(h, FirstOccurrences(h)[j])
    decreases |h|
  {
    var r := FirstOccurrences(h);
    var init := h[..|h| - 1];
    var x := h[|h| - 1];
    var p := FirstOccurrences(init);
    assert h == init + [x];
    FirstOccurrencesElements(init);
    assert forall m | 0 <= m < |p| :: p[m] in init;
    FirstOccurrencesElements(h);
    assert r[i] in r && r[j] in r;
    if j < |p| {
      FirstOccurrencesOrder(init, i, j);
      assert p[i] in init && p[j] in init;
      FirstIndexAppend(init, x, p[i]);
      FirstIndexAppend(init, x, p[j]);
    } else {
      assert x !in init && r == p + [x] && r[j] == x;
      assert i < |p| && r[i] == p[i] && p[i] in p;
      FirstIndexAppend(init, x, p[i]);
      assert FirstIndex(h, x) == |init| by {
        assert forall f | 0 <= f < |init| :: h[f] == init[f];
      }
    }
  }

  class InsertionSet<K(==, !new)> {
    /** Keys in insertion order (m_keys). */
    var keys: seq<K>
    /** Keys by value (m_keySet). */
    var keySet: set<K>
    /** Every insert call since construction or the last clear, in order. */
    ghost var inserted: seq<K>

    ghost predicate Valid()
      reads this
    {
      Distinct(keys) && (forall k :: k in keySet <==> k in keys) && keys == FirstOccurrences(inserted)
    }

    constructor ()
      ensures Valid() && inserted == [] && keys == []
    {
      keys := [];
      keySet := {};
      inserted := [];
    }

    /** Returns whether the key was new; only a new key is appended to the order. */
    method Insert(key: K) returns (didInsert: bool)
      requires Valid()
      modifies this
      ensures Valid() && inserted == old(inserted) + [key]
      ensures didInsert <==> key !in old(keySet)
      ensures keys == if didInsert then old(keys) + [key] else old(keys)
      ensures key in keySet
    {
      ghost var h := inserted + [key];
      FirstOccurrencesElements(inserted);
      FirstOccurrencesSnoc(inserted, key);
      FirstOccurrencesElements(h);
      didInsert := key !in keySet;
      if didInsert {
        keySet := keySet + {key};
        keys := keys + [key];
      }
      inserted := h;
    }

    method Clear()
      modifies this
      ensures Valid() && inserted == [] && keys == [] && keySet == {}
    {
      keys := [];
      keySet := {};
      inserted := [];
    }

    function Empty(): (r: bool)
      requires Valid()
      reads this
      ensures r <==> inserted == []
    {
      FirstOccurrencesElements(inserted);
      assert inserted != [] ==> inserted[0] in inserted;
      keys == []
    }

    function Exists(key: K): (r: bool)
      requires Valid()
      reads this
      ensures r <==> key in inserted
    {
      FirstOccurrencesElements(inserted);
      key in keySet
    }

    /** The iteration sequence begin()..end(). */
    function Elements(): (r: seq<K>)
      requires Valid()
      reads this
      ensures Distinct(r)
      ensures forall k :: k in r <==> k in inserted
      ensures forall i, j | 0 <= i < j < |r| ::
        r[i] in inserted && r[j] in inserted && FirstIndex(inserted, r[i]) < FirstIndex(inserted, r[j])
    {
      FirstOccurrencesElements(inserted);
      forall i, j | 0 <= i < j < |keys|
        ensures keys[i] in inserted && keys[j] in inserted
        ensures FirstIndex(inserted, keys[i]) < FirstIndex(inserted, keys[j])
      {
        FirstOccurrencesOrder(inserted, i, j);
      }
      keys
    }
  }
}
