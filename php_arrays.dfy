/** The few PHP array operations the objects layer relies on: key existence
    (`array_key_exists`, `offsetExists`), element read and `isset`. A PHP array
    has unique keys; on a sequence that repeats a key these operations see the
    first occurrence, which is the entry PHP would hold. */
module PhpArrays {
  import opened PhpValues

  /** The keys of an ordered array, in order. */
  function Keys<V>(s: seq<(Key, V)>): (ks: seq<Key>)
    ensures |ks| == |s|
    ensures forall i :: 0 <= i < |s| ==> ks[i] == s[i].0
  {
    seq(|s|, i requires 0 <= i < |s| => s[i].0)
  }

  /** The position of key k in s, or |s| when k is absent. */
  function IndexOf<V>(s: seq<(Key, V)>, k: Key): (r: nat)
    ensures r <= |s|
    ensures r < |s| ==> s[r].0 == k
    ensures forall m :: 0 <= m < r ==> s[m].0 != k
  {
    if s == [] then 0
    else if s[0].0 == k then 0
    else 1 + IndexOf(s[1..], k)
  }

  /** array_key_exists($k, $s) ? $s[$k] : nothing. */
  function Lookup<V>(s: seq<(Key, V)>, k: Key): (r: Option<V>)
    ensures r == None <==> forall i :: 0 <= i < |s| ==> s[i].0 != k
    ensures r.Some? ==> exists i :: 0 <= i < |s| && s[i] == (k, r.value) && forall m :: 0 <= m < i ==> s[m].0 != k
  {
    var i := IndexOf(s, k);
    if i < |s| then Some(s[i].1) else None
  }

  /** `isset($v[$k])`: v is an array holding k with a non-null value.
      A string offset is never considered set here. */
  predicate IsSet(v: Value, k: Key)
  {
    v.Arr? && Lookup(v.entries, k).Some? && Lookup(v.entries, k).value != Null
  }

  /** A key is set in an array exactly when the first entry with that key,
      the one PHP holds, has a value other than null. */
  lemma IsSetFirstEntry(v: Value, k: Key)
    ensures IsSet(v, k) <==>
              v.Arr? && exists i :: 0 <= i < |v.entries| && v.entries[i].0 == k && v.entries[i].1 != Null &&
                                    forall m :: 0 <= m < i ==> v.entries[m].0 != k
  {
    if v.Arr? && IndexOf(v.entries, k) < |v.entries| {
      var i := IndexOf(v.entries, k);
      assert v.entries[i].0 == k && forall m :: 0 <= m < i ==> v.entries[m].0 != k;
    }
  }

  /** The first position holding k, characterised without recursion. */
  lemma IndexOfIs<V>(s: seq<(Key, V)>, k: Key, r: nat)
    requires r <= |s|
    requires r < |s| ==> s[r].0 == k
    requires forall m :: 0 <= m < r ==> s[m].0 != k
    ensures IndexOf(s, k) == r
  {
  }

  /** IndexOf is determined by the key sequence alone. */
  lemma SameKeysSameIndex<V, W>(a: seq<(Key, V)>, b: seq<(Key, W)>, k: Key)
    requires Keys(a) == Keys(b)
    ensures IndexOf(a, k) == IndexOf(b, k)
  {
    var i, j := IndexOf(a, k), IndexOf(b, k);
    assert |a| == |Keys(a)| == |Keys(b)| == |b|;
  }

  /** A value found in an array is no larger than the array's entries. */
  lemma LookupSize(es: Entries, k: Key)
    requires Lookup(es, k).Some?
    ensures Size(Lookup(es, k).value) <= EntriesSize(es)
  {
    EntrySize(es, IndexOf(es, k));
  }
}
