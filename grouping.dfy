/** Grouping of a list of records by a key computed from each record: the
    keys in order of first appearance, the group of each key with its records
    in their original order, and the step by which a record is sorted into
    its group. */
module Grouping {

  /** The records of `s` whose key is `k`, in their original order. */
  function WithKey<T(!new), K(==,!new)>(s: seq<T>, key: T -> K, k: K): (g: seq<T>)
    ensures |g| <= |s|
    ensures forall i :: 0 <= i < |g| ==> key(g[i]) == k
  {
    if s == [] then []
    else if key(s[0]) == k then [s[0]] + WithKey(s[1..], key, k)
    else WithKey(s[1..], key, k)
  }

  /** A record is in the group of `k` exactly when it is one of the records
      and has key `k`. */
  lemma {:induction false} WithKeyMembers<T(!new), K(!new)>(s: seq<T>, key: T -> K, k: K)
    ensures forall x :: x in WithKey(s, key, k) <==> x in s && key(x) == k
  {
    if s != [] {
      WithKeyMembers(s[1..], key, k);
      assert s == [s[0]] + s[1..];
    }
  }

  /** The group of a concatenation is the concatenation of the groups. */
  lemma {:induction false} WithKeyConcat<T(!new), K(!new)>(a: seq<T>, b: seq<T>, key: T -> K, k: K)
    ensures WithKey(a + b, key, k) == WithKey(a, key, k) + WithKey(b, key, k)
  {
    if a == [] {
      assert a + b == b;
    } else {
      assert (a + b)[0] == a[0] && (a + b)[1..] == a[1..] + b;
      WithKeyConcat(a[1..], b, key, k);
    }
  }

  /** Appending a record extends its own group by that record, and no other. */
  lemma WithKeySnoc<T(!new), K(!new)>(prefix: seq<T>, x: T, key: T -> K, k: K)
    ensures WithKey(prefix + [x], key, k)
            == if key(x) == k then WithKey(prefix, key, k) + [x] else WithKey(prefix, key, k)
  {
    WithKeyConcat(prefix, [x], key, k);
    assert [x][1..] == [];
  }

  /** The distinct keys of the records, in order of first appearance. */
  function FirstKeys<T(!new), K(==,!new)>(s: seq<T>, key: T -> K): (keys: seq<K>)
    ensures |keys| <= |s|
  {
    if s == [] then []
    else
      var keys := FirstKeys(s[..|s| - 1], key);
      var k := key(s[|s| - 1]);
      if k in keys then keys else keys + [k]
  }

  /** No key is listed twice. */
  lemma {:induction false} FirstKeysDistinct<T(!new), K(!new)>(s: seq<T>, key: T -> K)
    ensures forall i, j :: 0 <= i < j < |FirstKeys(s, key)| ==> FirstKeys(s, key)[i] != FirstKeys(s, key)[j]
  {
    if s != [] {
      FirstKeysDistinct(s[..|s| - 1], key);
    }
  }

  /** The keys listed are exactly the keys of the records. */
  lemma {:induction false} FirstKeysMember<T(!new), K(!new)>(s: seq<T>, key: T -> K, k: K)
    ensures k in FirstKeys(s, key) <==> exists i :: 0 <= i < |s| && key(s[i]) == k
  {
    if s != [] {
      var prev := s[..|s| - 1];
      FirstKeysMember(prev, key, k);
      if exists i :: 0 <= i < |prev| && key(prev[i]) == k {
        var i :| 0 <= i < |prev| && key(prev[i]) == k;
        assert s[i] == prev[i];
      } else if exists i :: 0 <= i < |s| && key(s[i]) == k {
        var i :| 0 <= i < |s| && key(s[i]) == k;
        if i < |prev| {
          assert s[i] == prev[i];
        }
      }
    }
  }

  /** Appending a record adds its key when the key is new, and nothing else. */
  lemma FirstKeysSnoc<T(!new), K(!new)>(prefix: seq<T>, x: T, key: T -> K)
    ensures FirstKeys(prefix + [x], key) ==
            if key(x) in FirstKeys(prefix, key) then FirstKeys(prefix, key) else FirstKeys(prefix, key) + [key(x)]
  {
    assert (prefix + [x])[..|prefix|] == prefix;
  }

  /** `acc` followed by the keys of `ks` it does not hold yet, in order. */
  function AddNew<K(==)>(acc: seq<K>, ks: seq<K>): seq<K>
    decreases |ks|
  {
    if ks == [] then acc else AddNew(if ks[0] in acc then acc else acc + [ks[0]], ks[1..])
  }

  /** One key more is added at the end exactly when it is new. */
  lemma {:induction false} AddNewSnoc<K(!new)>(acc: seq<K>, ks: seq<K>, k: K)
    ensures AddNew(acc, ks + [k]) == var r := AddNew(acc, ks); if k in r then r else r + [k]
    decreases |ks|
  {
    if ks == [] {
      assert [] + [k] == [k] && [k][1..] == [];
    } else {
      assert (ks + [k])[0] == ks[0] && (ks + [k])[1..] == ks[1..] + [k];
      AddNewSnoc(if ks[0] in acc then acc else acc + [ks[0]], ks[1..], k);
    }
  }

  /** Adding the keys of more records to the keys of `a` lists the keys of
      all of them in order of first appearance, when keys are the records
      themselves. */
  lemma {:induction false} AddNewFirstKeys<K(!new)>(a: seq<K>, ks: seq<K>, key: K -> K)
    requires forall x :: key(x) == x
    ensures AddNew(FirstKeys(a, key), ks) == FirstKeys(a + ks, key)
    decreases |ks|
  {
    if ks == [] {
      assert a + ks == a;
    } else {
      var prev := ks[..|ks| - 1];
      var k := ks[|ks| - 1];
      assert ks == prev + [k];
      AddNewSnoc(FirstKeys(a, key), prev, k);
      AddNewFirstKeys(a, prev, key);
      FirstKeysSnoc(a + prev, k, key);
      assert a + ks == (a + prev) + [k];
    }
  }

  /** A key that is not listed has an empty group. */
  lemma WithKeyAbsent<T(!new), K(!new)>(s: seq<T>, key: T -> K, k: K)
    ensures k in FirstKeys(s, key) || WithKey(s, key, k) == []
  {
    if WithKey(s, key, k) != [] {
      WithKeyMembers(s, key, k);
      var x := WithKey(s, key, k)[0];
      assert x in WithKey(s, key, k);
      assert x in s && key(x) == k;
      var i :| 0 <= i < |s| && s[i] == x;
      FirstKeysMember(s, key, k);
    }
  }

  /** `keys` and `groups` are the grouping of `s`: the keys in order of first
      appearance, and for each of them its records in their original order. */
  ghost predicate Grouped<T(!new), K(!new)>(s: seq<T>, key: T -> K, keys: seq<K>, groups: map<K, seq<T>>) {
    && keys == FirstKeys(s, key)
    && (forall k :: k in groups <==> k in keys)
    && (forall k :: k in groups ==> groups[k] == WithKey(s, key, k))
  }

  /** A record whose key already has a group is appended to that group. */
  lemma GroupedKnownKey<T(!new), K(!new)>(prefix: seq<T>, x: T, key: T -> K, keys: seq<K>, groups: map<K, seq<T>>)
    requires Grouped(prefix, key, keys, groups) && key(x) in groups
    ensures Grouped(prefix + [x], key, keys, groups[key(x) := groups[key(x)] + [x]])
  {
    var next := groups[key(x) := groups[key(x)] + [x]];
    FirstKeysSnoc(prefix, x, key);
    forall k | k in next ensures next[k] == WithKey(prefix + [x], key, k) {
      WithKeySnoc(prefix, x, key, k);
    }
  }

  /** A record with a new key opens a new group holding just that record. */
  lemma GroupedNewKey<T(!new), K(!new)>(prefix: seq<T>, x: T, key: T -> K, keys: seq<K>, groups: map<K, seq<T>>)
    requires Grouped(prefix, key, keys, groups) && key(x) !in groups
    ensures Grouped(prefix + [x], key, keys + [key(x)], groups[key(x) := [x]])
  {
    var next := groups[key(x) := [x]];
    FirstKeysSnoc(prefix, x, key);
    WithKeyAbsent(prefix, key, key(x));
    forall k | k in next ensures next[k] == WithKey(prefix + [x], key, k) {
      WithKeySnoc(prefix, x, key, k);
    }
  }

  /** The records of the groups `keys`, counted with multiplicity. */
  function GroupsUnion<T(!new), K(==,!new)>(s: seq<T>, key: T -> K, keys: seq<K>): multiset<T> {
    if keys == [] then multiset{} else multiset(WithKey(s, key, keys[0])) + GroupsUnion(s, key, keys[1..])
  }

  lemma {:induction false} GroupsUnionEmpty<T(!new), K(!new)>(key: T -> K, keys: seq<K>)
    ensures GroupsUnion([], key, keys) == multiset{}
  {
    if keys != [] {
      GroupsUnionEmpty(key, keys[1..]);
    }
  }

  lemma {:induction false} GroupsUnionOtherKey<T(!new), K(!new)>(x: T, rest: seq<T>, key: T -> K, keys: seq<K>)
    requires key(x) !in keys
    ensures GroupsUnion([x] + rest, key, keys) == GroupsUnion(rest, key, keys)
  {
    if keys != [] {
      assert ([x] + rest)[1..] == rest;
      GroupsUnionOtherKey(x, rest, key, keys[1..]);
    }
  }

  lemma {:induction false} GroupsUnionOwnKey<T(!new), K(!new)>(x: T, rest: seq<T>, key: T -> K, keys: seq<K>)
    requires key(x) in keys
    requires forall i, j :: 0 <= i < j < |keys| ==> keys[i] != keys[j]
    ensures GroupsUnion([x] + rest, key, keys) == GroupsUnion(rest, key, keys) + multiset{x}
  {
    assert ([x] + rest)[1..] == rest;
    if keys[0] == key(x) {
      assert key(x) !in keys[1..];
      GroupsUnionOtherKey(x, rest, key, keys[1..]);
    } else {
      GroupsUnionOwnKey(x, rest, key, keys[1..]);
    }
  }

  /** With distinct keys that cover every record, the groups together hold
      every record exactly as often as the input. */
  lemma {:induction false} GroupsPartitionRecords<T(!new), K(!new)>(s: seq<T>, key: T -> K, keys: seq<K>)
    requires forall i, j :: 0 <= i < j < |keys| ==> keys[i] != keys[j]
    requires forall i :: 0 <= i < |s| ==> key(s[i]) in keys
    ensures GroupsUnion(s, key, keys) == multiset(s)
  {
    if s == [] {
      GroupsUnionEmpty(key, keys);
    } else {
      GroupsPartitionRecords(s[1..], key, keys);
      GroupsUnionOwnKey(s[0], s[1..], key, keys);
      assert s == [s[0]] + s[1..];
    }
  }
}
