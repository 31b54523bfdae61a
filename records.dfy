/** Value types shared by every script: Python's `Optional` and the
    insertion-ordered `dict[str, str]` that every catalog record is. */
module Records {

  datatype Option<+T> = None | Some(value: T)

  /** No string occurs twice. */
  predicate Distinct(s: seq<string>) {
    forall i, j :: 0 <= i < j < |s| ==> s[i] != s[j]
  }

  /** A Python `dict[str, str]`: `keys` lists the keys in insertion order and
      `entries` holds the value of each key. */
  datatype Dict = Dict(keys: seq<string>, entries: map<string, string>) {

    /** The keys are listed once each, and exactly the keys that have a value. */
    ghost predicate Valid() {
      Distinct(keys) && (forall k :: k in entries <==> k in keys)
    }
  }

  const EmptyDict: Dict := Dict([], map[])

  /** `d.get(k)` */
  function Get(d: Dict, k: string): (r: Option<string>)
    ensures r.Some? <==> k in d.entries
    ensures r.Some? ==> r.value == d.entries[k]
  {
    if k in d.entries then Some(d.entries[k]) else None
  }

  /** Python truthiness of `d.get(k)`: present and not the empty string. */
  predicate Truthy(v: Option<string>) {
    v.Some? && v.value != ""
  }

  /** `d[k] = v`: a key already present keeps its place in the key order,
      a new key goes last. */
  function Set(d: Dict, k: string, v: string): (r: Dict)
    requires d.Valid()
    ensures r.Valid()
    ensures Get(r, k) == Some(v)
    ensures forall k' :: k' != k ==> Get(r, k') == Get(d, k')
    ensures k in d.entries ==> r.keys == d.keys
    ensures k !in d.entries ==> r.keys == d.keys + [k]
  {
    if k in d.entries then Dict(d.keys, d.entries[k := v])
    else Dict(d.keys + [k], d.entries[k := v])
  }

  /** Position of the first occurrence of `x` in `s` (Python's `list.index`). */
  function IndexOf(s: seq<string>, x: string): (i: nat)
    requires x in s
    ensures i < |s| && s[i] == x
    ensures forall j :: 0 <= j < i ==> s[j] != x
  {
    if s[0] == x then 0 else 1 + IndexOf(s[1..], x)
  }

  /** A prefix one longer is the prefix followed by the next element;
      stated apart so that loop proofs need not rebuild the identity. */
  lemma PrefixGrows<T>(s: seq<T>, k: nat)
    requires k < |s|
    ensures s[..k + 1] == s[..k] + [s[k]]
  {
  }
}
