/** Sequence helpers shared by the contact list, the address books and the bot's
    dictionary: first-match search, removal of the first match, and the key order
    that a Python dictionary keeps (insertion order; overwriting keeps the place). */
module Sequences {

  /** Index of the first element equal to `x`, or `|s|` when there is none. */
  function IndexOf<T(==)>(s: seq<T>, x: T): (k: nat)
    ensures k <= |s|
    ensures k < |s| ==> s[k] == x
    ensures forall j :: 0 <= j < k ==> s[j] != x
    ensures k == |s| <==> x !in s
    decreases |s|
  {
    if s == [] then 0
    else if s[0] == x then 0
    else 1 + IndexOf(s[1..], x)
  }

  /** `s` without its first occurrence of `x`. Python's `list.remove` raises
      ValueError when `x` does not occur; every caller here removes a value it
      has just found, so the unchanged result for an absent `x` is never used. */
  function RemoveFirst<T(==)>(s: seq<T>, x: T): seq<T>
  {
    var k := IndexOf(s, x);
    if k == |s| then s else s[..k] + s[k + 1..]
  }

  /** Removing the first match takes away exactly one occurrence of `x` when there
      is one, keeps everything before it and shifts everything after it by one. */
  lemma RemoveFirstSpec<T>(s: seq<T>, x: T)
    ensures x !in s ==> RemoveFirst(s, x) == s
    ensures x in s ==> |RemoveFirst(s, x)| == |s| - 1
    ensures multiset(RemoveFirst(s, x)) == multiset(s) - multiset{x}
    ensures forall j :: 0 <= j < IndexOf(s, x) ==> RemoveFirst(s, x)[j] == s[j]
    ensures forall j :: IndexOf(s, x) <= j < |RemoveFirst(s, x)| ==> RemoveFirst(s, x)[j] == s[j + 1]
  {
    var k := IndexOf(s, x);
    if k < |s| {
      RemoveAt(s, k, RemoveFirst(s, x));
    } else {
      assert multiset(s)[x] == 0;
      assert multiset(s) - multiset{x} == multiset(s);
    }
  }

  /** Cutting out position `k` shortens the sequence by one, takes away one
      occurrence of the element there and keeps the rest in order. */
  lemma RemoveAt<T>(s: seq<T>, k: nat, r: seq<T>)
    requires k < |s| && r == s[..k] + s[k + 1..]
    ensures |r| == |s| - 1
    ensures multiset(r) == multiset(s) - multiset{s[k]}
    ensures forall j :: 0 <= j < k ==> r[j] == s[j]
    ensures forall j :: k <= j < |r| ==> r[j] == s[j + 1]
  {
    assert s == s[..k] + [s[k]] + s[k + 1..];
    assert multiset(s) == multiset(s[..k]) + multiset{s[k]} + multiset(s[k + 1..]);
  }

  /** No element occurs twice. */
  predicate Distinct<T(==)>(s: seq<T>)
  {
    forall i, j :: 0 <= i < j < |s| ==> s[i] != s[j]
  }

  /** Key order of a Python dictionary after `d[k] = v`: a new key goes last,
      an existing key keeps its place. */
  function PutKey<T(==)>(keys: seq<T>, k: T): seq<T>
  {
    if k in keys then keys else keys + [k]
  }

  /** Key order of a Python dictionary after `del d[k]`. Python raises KeyError
      for an absent key; every caller here checks `k in d` first, so the
      unchanged result for an absent key is never used. */
  function DropKey<T(==)>(keys: seq<T>, k: T): seq<T>
  {
    RemoveFirst(keys, k)
  }

  /** Putting a key keeps the keys distinct, adds exactly that key to the key set,
      and keeps the relative order of the keys already present. */
  lemma PutKeySpec<T>(keys: seq<T>, k: T)
    requires Distinct(keys)
    ensures Distinct(PutKey(keys, k))
    ensures (set x | x in PutKey(keys, k)) == (set x | x in keys) + {k}
    ensures PutKey(keys, k)[..|keys|] == keys
  {
  }

  /** Dropping a key of a distinct key list removes that key and only that key,
      and the list stays distinct. */
  lemma {:induction false} DropKeySpec<T>(keys: seq<T>, k: T)
    requires Distinct(keys)
    ensures Distinct(DropKey(keys, k))
    ensures (set x | x in DropKey(keys, k)) == (set x | x in keys) - {k}
  {
    RemoveFirstSpec(keys, k);
    var r := DropKey(keys, k);
    var i := IndexOf(keys, k);
    forall a, b | 0 <= a < b < |r| ensures r[a] != r[b] {
      var a' := if a < i then a else a + 1;
      var b' := if b < i then b else b + 1;
      assert r[a] == keys[a'] && r[b] == keys[b'];
    }
    if k in keys {
      DistinctCountsOnce(keys, k);
    }
    assert multiset(r)[k] == 0;
    forall x | x in r ensures x in keys && x != k {
      assert multiset(r)[x] > 0;
    }
    forall x | x in keys && x != k ensures x in r {
      assert multiset(keys)[x] > 0;
    }
  }

  /** In a distinct list every element occurs exactly once. */
  lemma {:induction false} DistinctCountsOnce<T>(s: seq<T>, x: T)
    requires Distinct(s) && x in s
    ensures multiset(s)[x] == 1
    decreases |s|
  {
    assert s == [s[0]] + s[1..];
    if s[0] == x {
      assert x !in s[1..] by {
        forall j | 0 <= j < |s| - 1 ensures s[1..][j] != x {
          assert s[j + 1] != s[0];
        }
      }
    } else {
      DistinctCountsOnce(s[1..], x);
    }
  }
}
