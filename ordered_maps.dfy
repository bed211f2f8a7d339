/** A JavaScript `Map` with string keys, or a plain object used as one: a dictionary
    whose entries keep the order in which their keys were first set. Setting a key
    that is already there replaces its value in place; deleting a key removes its
    entry. */
module OrderedMaps {

  datatype Dict<V> = Dict(keys: seq<string>, values: map<string, V>)

  predicate Distinct(s: seq<string>) {
    forall i, j :: 0 <= i < j < |s| ==> s[i] != s[j]
  }

  /** The key order lists each key of the dictionary exactly once. */
  predicate Wf<V>(d: Dict<V>) {
    && Distinct(d.keys)
    && (forall k :: k in d.values ==> k in d.keys)
    && (forall i :: 0 <= i < |d.keys| ==> d.keys[i] in d.values)
  }

  function Empty<V>(): (d: Dict<V>)
    ensures Wf(d) && d.values == map[]
  {
    Dict([], map[])
  }

  /** `map.set(k, v)` / `object[k] = v`. */
  function Set<V>(d: Dict<V>, k: string, v: V): (e: Dict<V>)
    requires Wf(d)
    ensures Wf(e)
    ensures e.values == d.values[k := v]
    ensures k in d.values ==> e.keys == d.keys
    ensures k !in d.values ==> e.keys == d.keys + [k]
  {
    if k in d.values then Dict(d.keys, d.values[k := v]) else Dict(d.keys + [k], d.values[k := v])
  }

  /** `s` without the element `k`. */
  function Remove(s: seq<string>, k: string): (r: seq<string>)
    ensures forall x :: x in r <==> x in s && x != k
  {
    if s == [] then []
    else if s[0] == k then Remove(s[1..], k)
    else [s[0]] + Remove(s[1..], k)
  }

  lemma {:induction false} RemoveDistinct(s: seq<string>, k: string)
    requires Distinct(s)
    ensures Distinct(Remove(s, k))
  {
    if s != [] {
      RemoveDistinct(s[1..], k);
      if s[0] != k {
        var r := Remove(s, k);
        assert r == [s[0]] + Remove(s[1..], k);
        assert s[0] !in s[1..];
        forall i, j | 0 <= i < j < |r|
          ensures r[i] != r[j]
        {
          if i == 0 {
            assert r[j] in Remove(s[1..], k);
          }
        }
      }
    }
  }

  /** Removing an element from a distinct sequence that holds it at position `i`
      leaves the elements before and after it, in order. */
  lemma {:induction false} RemoveAt(s: seq<string>, i: nat)
    requires Distinct(s) && i < |s|
    ensures Remove(s, s[i]) == s[..i] + s[i + 1..]
  {
    if i == 0 {
      RemoveAbsent(s[1..], s[0]);
      assert s[..0] + s[1..] == s[1..];
    } else {
      assert s[1..][i - 1] == s[i];
      RemoveAt(s[1..], i - 1);
      assert s[1..][..i - 1] + s[1..][i..] == s[1..i] + s[i + 1..];
      assert [s[0]] + s[1..i] == s[..i];
    }
  }

  /** Removing an element that is not there changes nothing. */
  lemma {:induction false} RemoveAbsent(s: seq<string>, k: string)
    requires k !in s
    ensures Remove(s, k) == s
  {
    if s != [] {
      assert s[0] != k;
      RemoveAbsent(s[1..], k);
      assert [s[0]] + s[1..] == s;
    }
  }

  /** `map.delete(k)`. */
  function Delete<V>(d: Dict<V>, k: string): (e: Dict<V>)
    requires Wf(d)
    ensures Wf(e)
    ensures e.values == d.values - {k}
    ensures e.keys == Remove(d.keys, k)
  {
    RemoveDistinct(d.keys, k);
    var keys := Remove(d.keys, k);
    forall i | 0 <= i < |keys|
      ensures keys[i] in d.values - {k}
    {
      assert keys[i] in keys;
      var j :| 0 <= j < |d.keys| && d.keys[j] == keys[i];
      assert d.keys[j] in d.values;
    }
    Dict(keys, d.values - {k})
  }
}
