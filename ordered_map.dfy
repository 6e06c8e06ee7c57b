/**
 * A JavaScript `Map` (and the own enumerable string keys of a plain object):
 * a sequence of entries in insertion order with one entry per key.
 * Setting a key that is present replaces its value where it stands;
 * setting a new key appends it.
 */
module OrderedMap {
  import opened Wrappers

  /** Keys and values are strings throughout the model. */
  type Entries = seq<(string, string)>

  function Keys(m: Entries): (ks: seq<string>)
  {
    seq(|m|, i requires 0 <= i < |m| => m[i].0)
  }

  predicate DistinctKeys(m: Entries) {
    forall i, j :: 0 <= i < j < |m| ==> m[i].0 != m[j].0
  }

  /** `map.get(k)`: the value stored under `k`, or undefined. */
  function Get(m: Entries, k: string): Option<string>
  {
    if m == [] then None else if m[0].0 == k then Some(m[0].1) else Get(m[1..], k)
  }

  /** A looked-up value that `||` keeps: present and not the empty string. */
  predicate Truthy(v: Option<string>) {
    v.Some? && v.value != []
  }

  /** `m[key] || fallback`: the stored value, unless it is missing or empty. */
  function Var(vars: Entries, key: string, fallback: string): string {
    var v := Get(vars, key);
    if Truthy(v) then v.value else fallback
  }

  /** `map.set(k, v)`. */
  function Set(m: Entries, k: string, v: string): Entries
  {
    if m == [] then [(k, v)]
    else if m[0].0 == k then [(k, v)] + m[1..]
    else [m[0]] + Set(m[1..], k, v)
  }

  /** The value of the last entry for `k`, searching from the end. */
  function LastValue(es: Entries, k: string): Option<string> {
    if es == [] then None
    else if es[|es| - 1].0 == k then Some(es[|es| - 1].1)
    else LastValue(es[..|es| - 1], k)
  }

  /** A `Map` filled by setting `es` one entry after the other. */
  function FromEntries(es: Entries): Entries
  {
    if es == [] then [] else Set(FromEntries(es[..|es| - 1]), es[|es| - 1].0, es[|es| - 1].1)
  }

  /** Setting one more entry into a filled `Map`. */
  lemma FromEntriesAppend(es: Entries, e: (string, string))
    ensures FromEntries(es + [e]) == Set(FromEntries(es), e.0, e.1)
  {
    assert (es + [e])[..|es|] == es;
  }

  lemma KeysTail(m: Entries)
    requires m != []
    ensures Keys(m) == [m[0].0] + Keys(m[1..])
  {
  }

  /** A key is found exactly when some entry holds it, and what is found is an entry. */
  lemma {:induction false} GetFound(m: Entries, k: string)
    ensures Get(m, k).Some? <==> k in Keys(m)
    ensures Get(m, k).Some? ==> (k, Get(m, k).value) in m
  {
    if m != [] {
      KeysTail(m);
      GetFound(m[1..], k);
    }
  }

  /** With one entry per key, looking a key up finds exactly the entry that holds it. */
  lemma {:induction false} GetDistinct(m: Entries, k: string, v: string)
    requires DistinctKeys(m)
    ensures Get(m, k) == Some(v) <==> (k, v) in m
  {
    if m != [] && m[0].0 != k {
      GetDistinct(m[1..], k, v);
      assert (k, v) in m <==> (k, v) in m[1..] by {
        assert m == [m[0]] + m[1..];
      }
    } else if m != [] {
      assert forall j :: 1 <= j < |m| ==> m[j].0 != k;
      assert m == [m[0]] + m[1..];
    }
  }

  /** What `set` does to the keys: a present key stays where it is, a new one goes last. */
  lemma {:induction false} SetKeys(m: Entries, k: string, v: string)
    ensures k in Keys(m) ==> Keys(Set(m, k, v)) == Keys(m)
    ensures k !in Keys(m) ==> Keys(Set(m, k, v)) == Keys(m) + [k]
  {
    if m != [] {
      KeysTail(m);
      KeysTail(Set(m, k, v));
      if m[0].0 != k {
        SetKeys(m[1..], k, v);
      }
    }
  }

  /** After `set(k, v)`, `get(k)` is `v` and every other key reads as before. */
  lemma {:induction false} SetGet(m: Entries, k: string, v: string, k': string)
    ensures Get(Set(m, k, v), k) == Some(v)
    ensures k' != k ==> Get(Set(m, k, v), k') == Get(m, k')
  {
    if m != [] && m[0].0 != k {
      SetGet(m[1..], k, v, k');
    }
  }

  /** `set` keeps one entry per key, and adds no entry but `(k, v)`. */
  lemma {:induction false} SetEntries(m: Entries, k: string, v: string)
    ensures forall e :: e in Set(m, k, v) ==> e in m || e == (k, v)
    ensures DistinctKeys(m) ==> DistinctKeys(Set(m, k, v))
  {
    if m != [] && m[0].0 != k {
      SetEntries(m[1..], k, v);
      SetKeys(m[1..], k, v);
      var r := Set(m, k, v);
      assert r == [m[0]] + Set(m[1..], k, v);
      if DistinctKeys(m) {
        assert m[0].0 !in Keys(m[1..]);
        assert forall j :: 1 <= j < |r| ==> r[j].0 == Keys(Set(m[1..], k, v))[j - 1];
      }
    } else if m != [] {
      var r := Set(m, k, v);
      assert forall j :: 1 <= j < |r| ==> r[j] == m[j];
    }
  }

  /** A filled `Map` has one entry per key, each copied from `es`, and the keys of `es`. */
  lemma {:induction false} FromEntriesShape(es: Entries)
    ensures DistinctKeys(FromEntries(es))
    ensures forall e :: e in FromEntries(es) ==> e in es
    ensures forall k :: k in Keys(FromEntries(es)) <==> k in Keys(es)
  {
    if es != [] {
      var init, last := es[..|es| - 1], es[|es| - 1];
      FromEntriesShape(init);
      SetEntries(FromEntries(init), last.0, last.1);
      SetKeys(FromEntries(init), last.0, last.1);
      assert es == init + [last];
      assert Keys(es) == Keys(init) + [last.0];
    }
  }

  /** Each key ends up with the value of its last entry. */
  lemma {:induction false} FromEntriesGet(es: Entries, k: string)
    ensures Get(FromEntries(es), k) == LastValue(es, k)
  {
    if es != [] {
      FromEntriesGet(es[..|es| - 1], k);
      SetGet(FromEntries(es[..|es| - 1]), es[|es| - 1].0, es[|es| - 1].1, k);
    }
  }

  lemma {:induction false} SetNewKey(m: Entries, k: string, v: string)
    requires k !in Keys(m)
    ensures Set(m, k, v) == m + [(k, v)]
  {
    if m != [] {
      KeysTail(m);
      SetNewKey(m[1..], k, v);
    }
  }

  /** Entries with distinct keys fill a `Map` that lists them unchanged, in the same order. */
  lemma {:induction false} FromEntriesDistinct(es: Entries)
    requires DistinctKeys(es)
    ensures FromEntries(es) == es
  {
    if es != [] {
      var init, last := es[..|es| - 1], es[|es| - 1];
      FromEntriesDistinct(init);
      assert last.0 !in Keys(init) by {
        assert forall j :: 0 <= j < |init| ==> init[j].0 == es[j].0;
      }
      SetNewKey(init, last.0, last.1);
      assert init + [last] == es;
    }
  }

  /** With distinct keys, the last entry for a key is its only entry. */
  lemma LastValueDistinct(es: Entries, k: string)
    requires DistinctKeys(es)
    ensures LastValue(es, k) == Get(es, k)
  {
    FromEntriesGet(es, k);
    FromEntriesDistinct(es);
  }
}
