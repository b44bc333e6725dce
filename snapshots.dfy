/** A snapshot: the tracker's dictionary from file path to content hash.
    Python dictionaries remember insertion order and the diff walks them in
    that order, so a snapshot is a sequence of entries, one per key. */
module Snapshots {
  import opened Wrappers

  datatype Entry = Entry(path: string, hash: string)

  type Snapshot = seq<Entry>

  /** The keys of `s` in iteration order. */
  function Keys(s: Snapshot): seq<string>
  {
    seq(|s|, i requires 0 <= i < |s| => s[i].path)
  }

  /** `k in s`. */
  predicate HasKey(s: Snapshot, k: string)
  {
    k in Keys(s)
  }

  /** Every key occurs once, as in any dictionary. */
  predicate DistinctKeys(s: Snapshot)
  {
    forall i, j :: 0 <= i < j < |s| ==> s[i].path != s[j].path
  }

  /** Position of the entry for `k`. */
  function IndexOf(s: Snapshot, k: string): (i: nat)
    requires HasKey(s, k)
    ensures i < |s| && s[i].path == k
    ensures forall j :: 0 <= j < i ==> s[j].path != k
  {
    if s[0].path == k then 0
    else
      assert Keys(s) == [s[0].path] + Keys(s[1..]);
      1 + IndexOf(s[1..], k)
  }

  /** `s[k]` when `k in s`, and `None` otherwise. */
  function Lookup(s: Snapshot, k: string): (r: Option<string>)
    ensures r.Some? <==> HasKey(s, k)
    ensures r.Some? ==> Entry(k, r.value) in s
  {
    if HasKey(s, k) then Some(s[IndexOf(s, k)].hash) else None
  }

  /** In a snapshot with distinct keys, each entry is what its key looks up. */
  lemma LookupEntry(s: Snapshot, i: nat)
    requires DistinctKeys(s) && i < |s|
    ensures Lookup(s, s[i].path) == Some(s[i].hash)
  {
    assert Keys(s)[i] == s[i].path;
  }

  /** `s[k] = v`: an existing key keeps its position and takes the new value,
      a new key is appended. */
  function Assign(s: Snapshot, k: string, v: string): (r: Snapshot)
    ensures !HasKey(s, k) ==> r == s + [Entry(k, v)]
    ensures HasKey(s, k) ==> |r| == |s| && r[IndexOf(s, k)] == Entry(k, v)
    ensures HasKey(s, k) ==> forall j :: 0 <= j < |s| && j != IndexOf(s, k) ==> r[j] == s[j]
  {
    if s == [] then [Entry(k, v)]
    else if s[0].path == k then
      assert Keys(s)[0] == k;
      [Entry(k, v)] + s[1..]
    else
      assert Keys(s) == [s[0].path] + Keys(s[1..]);
      [s[0]] + Assign(s[1..], k, v)
  }

  /** The first entry with key `k` gives what `k` looks up. */
  lemma LookupFirst(s: Snapshot, i: nat)
    requires i < |s|
    requires forall j :: 0 <= j < i ==> s[j].path != s[i].path
    ensures Lookup(s, s[i].path) == Some(s[i].hash)
  {
    assert Keys(s)[i] == s[i].path;
    var x := IndexOf(s, s[i].path);
    assert !(x < i) && !(i < x);
  }

  lemma KeysOfAssign(s: Snapshot, k: string, v: string)
    ensures Keys(Assign(s, k, v)) == if HasKey(s, k) then Keys(s) else Keys(s) + [k]
  {
    var r := Assign(s, k, v);
    if HasKey(s, k) {
      assert forall j :: 0 <= j < |s| ==> Keys(r)[j] == Keys(s)[j];
    } else {
      assert forall j :: 0 <= j < |r| ==> Keys(r)[j] == (Keys(s) + [k])[j];
    }
  }

  /** After `s[k] = v`, `k` looks up `v` and every other key looks up what it
      did before. */
  lemma AssignLookup(s: Snapshot, k: string, v: string, k': string)
    ensures Lookup(Assign(s, k, v), k') == if k' == k then Some(v) else Lookup(s, k')
  {
    var r := Assign(s, k, v);
    KeysOfAssign(s, k, v);
    if k' == k {
      var x := if HasKey(s, k) then IndexOf(s, k) else |s|;
      assert r[x] == Entry(k, v);
      forall j | 0 <= j < x ensures r[j].path != k {
        assert r[j] == s[j] && Keys(s)[j] == s[j].path;
      }
      LookupFirst(r, x);
    } else if HasKey(s, k') {
      var y := IndexOf(s, k');
      assert r[y] == s[y];
      assert forall j :: 0 <= j < y ==> r[j].path == s[j].path;
      LookupFirst(r, y);
    } else {
      assert !HasKey(r, k');
    }
  }

  /** `s[k] = v` keeps the keys distinct. */
  lemma AssignDistinct(s: Snapshot, k: string, v: string)
    requires DistinctKeys(s)
    ensures DistinctKeys(Assign(s, k, v))
  {
    var r := Assign(s, k, v);
    KeysOfAssign(s, k, v);
    forall i, j | 0 <= i < j < |r| ensures r[i].path != r[j].path {
      assert Keys(r)[i] == r[i].path && Keys(r)[j] == r[j].path;
      if j == |s| {
        assert Keys(s)[i] == r[i].path;
      }
    }
  }
}
