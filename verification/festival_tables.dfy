/** The festival tables: Python dicts from a four-digit MMDD key to the
    list of festival names on that day, in insertion order. Keys are kept
    as the integers `int(key)`; every key is the zero-padded text of its
    integer, so the two views agree. */
module FestivalTables {
  import opened Wrappers

  type Entry = (int, seq<string>)
  type Table = seq<Entry>

  predicate Distinct(s: seq<int>) {
    forall i, j :: 0 <= i < j < |s| ==> s[i] != s[j]
  }

  /** No key occurs twice, as in a dict: `Distinct(KeyList(t))` (see
      `KeyList`), stated on the entries. */
  predicate DistinctKeys(t: Table) {
    forall i, j :: 0 <= i < j < |t| ==> t[i].0 != t[j].0
  }

  /** Keys are four-digit MMDD texts, so their integers lie in 0..9999. */
  predicate WellFormed(t: Table) {
    && DistinctKeys(t)
    && forall i :: 0 <= i < |t| ==> 0 <= t[i].0 <= 9999
  }

  /** `[int(k) for k in table.keys()]`. */
  function KeyList(t: Table): (ks: seq<int>)
    ensures |ks| == |t|
    ensures forall i :: 0 <= i < |t| ==> ks[i] == t[i].0
    ensures DistinctKeys(t) <==> Distinct(ks)
  {
    if |t| == 0 then [] else [t[0].0] + KeyList(t[1..])
  }

  /** `table[key]`; `None` stands for KeyError. */
  function Get(t: Table, k: int): (r: Option<seq<string>>)
    ensures r.None? <==> k !in KeyList(t)
    ensures r.Some? ==> exists i :: 0 <= i < |t| && t[i] == (k, r.value)
  {
    if |t| == 0 then None
    else if t[0].0 == k then Some(t[0].1)
    else
      var r := Get(t[1..], k);
      assert KeyList(t) == [t[0].0] + KeyList(t[1..]);
      if r.Some? then
        var i :| 0 <= i < |t[1..]| && t[1..][i] == (k, r.value);
        assert t[i + 1] == (k, r.value);
        r
      else r
  }

  /** The position of key `k`. */
  function KeyIndex(t: Table, k: int): (i: nat)
    requires k in KeyList(t)
    ensures i < |t| && t[i].0 == k
  {
    if t[0].0 == k then 0
    else
      assert KeyList(t) == [t[0].0] + KeyList(t[1..]);
      1 + KeyIndex(t[1..], k)
  }

  /** With distinct keys the entry found is the only one under that key. */
  lemma GetUnique(t: Table, i: int)
    requires DistinctKeys(t) && 0 <= i < |t|
    ensures Get(t, t[i].0) == Some(t[i].1)
  {
    assert t[i].0 in KeyList(t);
  }
}
