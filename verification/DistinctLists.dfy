/** Lists without duplicates, which the connection keeps beside its maps. */
module DistinctLists {

  ghost predicate NoDuplicates<K(!new)>(s: seq<K>) {
    forall i, j :: 0 <= i < j < |s| ==> s[i] != s[j]
  }

  function Elements<K(==,!new)>(s: seq<K>): set<K> {
    set x | x in s
  }

  /** `std::remove` of one key from a list. */
  function Without<K(==,!new)>(keys: seq<K>, key: K): (r: seq<K>)
    ensures forall k :: k in r <==> k in keys && k != key
    ensures key !in keys ==> r == keys
  {
    if keys == [] then []
    else if keys[0] == key then Without(keys[1..], key)
    else
      var rest := Without(keys[1..], key);
      assert key !in keys ==> [keys[0]] + keys[1..] == keys;
      [keys[0]] + rest
  }

  lemma ElementsSnoc<K(!new)>(front: seq<K>, last: K)
    ensures Elements(front + [last]) == Elements(front) + {last}
    ensures last in Elements(front) <==> last in front
  {
  }

  lemma {:induction false} Cardinality<K(!new)>(s: seq<K>)
    requires NoDuplicates(s)
    ensures |Elements(s)| == |s|
  {
    if s != [] {
      var front, last := s[..|s| - 1], s[|s| - 1];
      Cardinality(front);
      assert last !in front;
      ElementsSnoc(front, last);
      hide Elements, NoDuplicates;
      assert s == front + [last];
    }
  }

  lemma SuffixDistinct<K(!new)>(keys: seq<K>, d: nat)
    requires NoDuplicates(keys) && d <= |keys|
    ensures NoDuplicates(keys[d..])
  {
  }

  lemma Apart<K(!new)>(keys: seq<K>, i: nat, j: nat)
    requires NoDuplicates(keys) && i <= j < |keys|
    ensures i < j ==> keys[i] != keys[j]
  {
  }

  lemma HeadApart<K(!new)>(keys: seq<K>)
    requires keys != [] && keys[0] in keys[1..]
    ensures !NoDuplicates(keys)
  {
    var j :| 0 <= j < |keys[1..]| && keys[1..][j] == keys[0];
    assert keys[j + 1] == keys[0];
  }

  lemma SliceCons<K(!new)>(keys: seq<K>, i: nat)
    requires 0 < i < |keys|
    ensures keys[1..][i - 1] == keys[i]
    ensures [keys[0]] + (keys[1..][..i - 1] + keys[1..][i..]) == keys[..i] + keys[i + 1..]
  {
  }

  /** Removing the key at a place of a list without duplicates. */
  lemma {:induction false} WithoutAt<K(!new)>(keys: seq<K>, i: nat)
    requires NoDuplicates(keys) && i < |keys|
    ensures Without(keys, keys[i]) == keys[..i] + keys[i + 1..]
  {
    SuffixDistinct(keys, 1);
    Apart(keys, 0, i);
    hide NoDuplicates;
    if i > 0 {
      WithoutAt(keys[1..], i - 1);
      SliceCons(keys, i);
    } else {
      if keys[0] in keys[1..] {
        HeadApart(keys);
      }
      assert [] + keys[1..] == keys[1..];
    }
  }

  lemma {:induction false} WithoutFacts<K(!new)>(keys: seq<K>, key: K)
    requires NoDuplicates(keys)
    ensures NoDuplicates(Without(keys, key))
    ensures |Without(keys, key)| == |keys| - (if key in keys then 1 else 0)
  {
    if keys != [] {
      WithoutFacts(keys[1..], key);
      if keys[0] != key {
        var rest := Without(keys[1..], key);
        forall j | 0 <= j < |rest| ensures rest[j] != keys[0] {
          assert rest[j] in keys[1..];
        }
      }
    }
  }
}
