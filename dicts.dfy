/**
 * A Python `dict` keyed by strings, with its insertion order: assigning to
 * an existing key keeps its place, a new key goes last, `del` removes it.
 */
module Dicts {
  import opened Wrappers

  datatype Dict<V> = Dict(keys: seq<string>, entries: map<string, V>)
  {
    ghost predicate Valid()
    {
      && (forall i, j :: 0 <= i < j < |keys| ==> keys[i] != keys[j])
      && (forall k :: k in entries <==> k in keys)
    }

    /** `d.get(k)`. */
    function Get(k: string): (r: Option<V>)
      ensures r.Some? <==> k in entries
      ensures r.Some? ==> r.value == entries[k]
    {
      if k in entries then Some(entries[k]) else None
    }

    /** `d[k] = v`. */
    function Put(k: string, v: V): (r: Dict<V>)
      requires Valid()
      ensures r.Valid()
      ensures r.entries == entries[k := v]
      ensures k in entries ==> r.keys == keys
      ensures k !in entries ==> r.keys == keys + [k]
    {
      if k in entries then Dict(keys, entries[k := v]) else Dict(keys + [k], entries[k := v])
    }

    /** `del d[k]`; the other keys keep their order. */
    function Remove(k: string): (r: Dict<V>)
      requires Valid()
      ensures r.Valid()
      ensures r.entries == entries - {k}
      ensures r.keys == Without(keys, k)
    {
      WithoutKeeps(keys, k);
      Dict(Without(keys, k), entries - {k})
    }

    /** `list(d.values())`, in key order. */
    function Values(): (r: seq<V>)
      requires Valid()
      ensures |r| == |keys|
      ensures forall i :: 0 <= i < |keys| ==> r[i] == entries[keys[i]]
    {
      seq(|keys|, i requires 0 <= i < |keys| => entries[keys[i]])
    }
  }

  function Empty<V>(): (r: Dict<V>)
    ensures r.Valid() && r.keys == [] && r.entries == map[]
  {
    Dict([], map[])
  }

  /** The sequence with every occurrence of `k` left out. */
  function Without(ks: seq<string>, k: string): seq<string>
  {
    if ks == [] then []
    else (if ks[0] == k then [] else [ks[0]]) + Without(ks[1..], k)
  }

  lemma {:induction false} WithoutKeeps(ks: seq<string>, k: string)
    requires forall i, j :: 0 <= i < j < |ks| ==> ks[i] != ks[j]
    ensures forall x :: x in Without(ks, k) <==> x in ks && x != k
    ensures forall i, j :: 0 <= i < j < |Without(ks, k)| ==> Without(ks, k)[i] != Without(ks, k)[j]
  {
    if ks != [] {
      WithoutKeeps(ks[1..], k);
      var w := Without(ks[1..], k);
      if ks[0] != k {
        assert ks[0] !in ks[1..];
        var r := [ks[0]] + w;
        forall i, j | 0 <= i < j < |r| ensures r[i] != r[j] {
          if i == 0 { assert r[j] == w[j - 1] && r[j] in w; } else { assert r[i] == w[i - 1]; }
        }
      }
    }
  }
}
