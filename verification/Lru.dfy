/** Least recently used eviction, told by what was asked of the cache alone. */
module Lru {
  import opened DistinctLists

  /** What changes the keys: a request that succeeds, a key that is closed, and
      the end of them all. */
  datatype Op<K> = Request(key: K) | Closed(key: K) | Cleared

  function LastN<K(==,!new)>(keys: seq<K>, n: nat): seq<K> {
    if |keys| <= n then keys else keys[|keys| - n..]
  }

  /** The keys after a request for `sql` that succeeds. */
  function KeysAfter<K(==,!new)>(keys: seq<K>, max: nat, sql: K): seq<K> {
    if sql in keys then Without(keys, sql) + [sql]
    else if max == 0 then keys
    else LastN(keys, max - 1) + [sql]
  }

  function Apply<K(==,!new)>(keys: seq<K>, max: nat, op: Op<K>): seq<K> {
    match op
    case Request(key) => KeysAfter(keys, max, key)
    case Closed(key) => Without(keys, key)
    case Cleared => []
  }

  function KeysOf<K(==,!new)>(history: seq<Op<K>>, max: nat): seq<K> {
    if history == [] then []
    else Apply(KeysOf(history[..|history| - 1], max), max, history[|history| - 1])
  }

  /** A history of requests only. */
  function Asked<K>(keys: seq<K>): (history: seq<Op<K>>)
    ensures |history| == |keys|
  {
    if keys == [] then [] else Asked(keys[..|keys| - 1]) + [Request(keys[|keys| - 1])]
  }

  /** The distinct requests in a history since the last one for `sql`. */
  function Since<K(==,!new)>(history: seq<K>, sql: K): (s: set<K>)
    ensures sql !in s
  {
    if history == [] || history[|history| - 1] == sql then {}
    else Since(history[..|history| - 1], sql) + {history[|history| - 1]}
  }

  /** The keys behind the last occurrence of `key` in a list without duplicates. */
  function Behind<K(==,!new)>(keys: seq<K>, key: K): seq<K> {
    if keys == [] then []
    else if keys[0] == key then keys[1..]
    else Behind(keys[1..], key)
  }

  lemma {:induction false} BehindSplit<K(!new)>(keys: seq<K>, key: K) returns (i: nat)
    requires key in keys
    ensures i < |keys| && keys[i] == key && Behind(keys, key) == keys[i + 1..]
  {
    if keys[0] == key {
      i := 0;
    } else {
      i := BehindSplit(keys[1..], key);
      i := i + 1;
      assert keys[1..][i..] == keys[i + 1..];
    }
  }

  lemma {:induction false} BehindSnoc<K(!new)>(keys: seq<K>, key: K, last: K)
    ensures key in keys ==> Behind(keys + [last], key) == Behind(keys, key) + [last]
    ensures key !in keys && last == key ==> Behind(keys + [last], key) == []
  {
    if keys != [] {
      assert (keys + [last])[1..] == keys[1..] + [last];
      if keys[0] != key {
        BehindSnoc(keys[1..], key, last);
      }
    }
  }

  lemma {:induction false} BehindWithout<K(!new)>(keys: seq<K>, key: K, gone: K)
    requires key != gone && key in keys
    ensures Behind(Without(keys, gone), key) == Without(Behind(keys, key), gone)
  {
    if keys[0] != key {
      BehindWithout(keys[1..], key, gone);
    }
  }

  /** The keys of a cache without a bound, in order of last use. */
  function Recency<K(==,!new)>(history: seq<K>): seq<K> {
    if history == [] then []
    else Without(Recency(history[..|history| - 1]), history[|history| - 1]) + [history[|history| - 1]]
  }

  lemma {:induction false} RecencyFacts<K(!new)>(history: seq<K>)
    ensures NoDuplicates(Recency(history))
    ensures forall k :: k in Recency(history) <==> k in history
  {
    if history != [] {
      RecencyFacts(history[..|history| - 1]);
      WithoutFacts(Recency(history[..|history| - 1]), history[|history| - 1]);
      assert history == history[..|history| - 1] + [history[|history| - 1]];
    }
  }

  /** What lies behind a key in order of last use is what was asked for since. */
  lemma {:induction false} RecencySince<K(!new)>(history: seq<K>, sql: K)
    requires sql in history
    ensures Elements(Behind(Recency(history), sql)) == Since(history, sql)
    ensures |Behind(Recency(history), sql)| == |Since(history, sql)|
  {
    var front, last := history[..|history| - 1], history[|history| - 1];
    var before := Recency(front);
    assert history == front + [last];
    RecencyFacts(front);
    RecencyFacts(history);
    if last == sql {
      BehindSnoc(Without(before, sql), sql, sql);
    } else {
      RecencySince(front, sql);
      BehindWithout(before, sql, last);
      BehindSnoc(Without(before, last), sql, last);
      assert Elements(Behind(Recency(history), sql)) == Since(history, sql);
    }
    var i := BehindSplit(Recency(history), sql);
    assert NoDuplicates(Behind(Recency(history), sql));
    Cardinality(Behind(Recency(history), sql));
  }

  /** The bounded cache holds the end of the unbounded one. */
  lemma {:induction false} KeysAreRecent<K(!new)>(history: seq<K>, max: nat)
    requires max >= 1
    ensures KeysOf(Asked(history), max) == LastN(Recency(history), max)
  {
    if history != [] {
      var front, last := history[..|history| - 1], history[|history| - 1];
      KeysAreRecent(front, max);
      assert Asked(history)[..|history| - 1] == Asked(front);
      RecencyFacts(front);
      AddRecent(Recency(front), max, last);
    }
  }

  lemma {:induction false} AddRecent<K(!new)>(all: seq<K>, max: nat, last: K)
    requires max >= 1 && NoDuplicates(all)
    ensures KeysAfter(LastN(all, max), max, last) == LastN(Without(all, last) + [last], max)
  {
    hide Without, LastN, NoDuplicates, KeysAfter;
    if last in all {
      var i :| 0 <= i < |all| && all[i] == last;
      WithoutAt(all, i);
      var d := if |all| <= max then 0 else |all| - max;
      MoveToEnd(all, max, d, i);
      Ends(all, max, d);
      Ends(all[..i] + all[i + 1..] + [last], max, d);
    } else {
      AddNew(all, max, last);
    }
  }

  lemma Ends<K(!new)>(keys: seq<K>, max: nat, d: nat)
    requires d == if |keys| <= max then 0 else |keys| - max
    ensures LastN(keys, max) == keys[d..]
  {
    assert keys[0..] == keys;
  }

  lemma AddNew<K(!new)>(all: seq<K>, max: nat, last: K)
    requires max >= 1 && last !in all
    ensures KeysAfter(LastN(all, max), max, last) == LastN(all + [last], max)
  {
    hide Without;
    var d := |all| - max;
    if d >= 0 {
      assert (all + [last])[d + 1..] == all[d + 1..] + [last];
      assert all[d..][1..] == all[d + 1..] && all[0..] == all;
    }
  }

  lemma MoveToEnd<K(!new)>(all: seq<K>, max: nat, d: nat, i: nat)
    requires max >= 1 && NoDuplicates(all) && i < |all|
    requires d == if |all| <= max then 0 else |all| - max
    ensures KeysAfter(all[d..], max, all[i]) == (all[..i] + all[i + 1..] + [all[i]])[d..]
  {
    hide Without, NoDuplicates;
    if i >= d {
      MoveKept(all, d, i);
    } else {
      NotKept(all, d, i);
      Slide(all, d, i);
    }
  }

  /** Moving a key within the kept end of the list. */
  lemma MoveKept<K(!new)>(all: seq<K>, d: nat, i: nat)
    requires NoDuplicates(all) && d <= i < |all|
    ensures all[i] in all[d..]
    ensures Without(all[d..], all[i]) + [all[i]] == (all[..i] + all[i + 1..] + [all[i]])[d..]
  {
    hide Without, NoDuplicates;
    var kept := all[d..];
    assert kept[i - d] == all[i];
    SuffixDistinct(all, d);
    WithoutAt(kept, i - d);
    SliceKept(all, d, i);
  }

  lemma SliceKept<K(!new)>(all: seq<K>, d: nat, i: nat)
    requires d <= i < |all|
    ensures all[d..][..i - d] + all[d..][i - d + 1..] + [all[i]] == (all[..i] + all[i + 1..] + [all[i]])[d..]
  {
  }

  lemma NotKept<K(!new)>(all: seq<K>, d: nat, i: nat)
    requires NoDuplicates(all) && i < d <= |all|
    ensures all[i] !in all[d..]
  {
    forall j | 0 <= j < |all[d..]| ensures all[d..][j] != all[i] {
      Apart(all, i, d + j);
    }
  }

  /** Moving a key from in front of the kept end pushes one key out of it. */
  lemma Slide<K(!new)>(all: seq<K>, d: nat, i: nat)
    requires i < d < |all|
    ensures all[d..][1..] + [all[i]] == (all[..i] + all[i + 1..] + [all[i]])[d..]
  {
  }

  /** When nothing is closed: a statement is cached exactly when it was asked for and
      fewer than `max` different ones were asked for since. */
  lemma CachedExactly<K(!new)>(history: seq<K>, max: nat, sql: K)
    requires max >= 1
    ensures sql in KeysOf(Asked(history), max) <==> sql in history && |Since(history, sql)| < max
  {
    KeysAreRecent(history, max);
    RecencyFacts(history);
    var all := Recency(history);
    if sql in history {
      RecencySince(history, sql);
      var i := BehindSplit(all, sql);
      assert |Since(history, sql)| == |all| - i - 1;
      if |all| > max {
        var kept := all[|all| - max..];
        if i >= |all| - max {
          assert kept[i - (|all| - max)] == sql;
        }
      }
    }
  }

  // ------------------------------------------------- histories with closes

  /** The keys asked for since the last request for `key` and not closed after that. */
  function LiveSince<K(==,!new)>(history: seq<Op<K>>, key: K): set<K> {
    if history == [] then {}
    else
      var front := history[..|history| - 1];
      match history[|history| - 1]
      case Request(k) => if k == key then {} else LiveSince(front, key) + {k}
      case Closed(k) => LiveSince(front, key) - {k}
      case Cleared => {}
  }

  /** The key was asked for, and since then it was not closed and at no time were
      `max` other keys live. */
  predicate Survives<K(==,!new)>(history: seq<Op<K>>, max: nat, key: K) {
    history != [] &&
    match history[|history| - 1]
    case Request(k) =>
      k == key || (Survives(history[..|history| - 1], max, key) && |LiveSince(history, key)| < max)
    case Closed(k) => k != key && Survives(history[..|history| - 1], max, key)
    case Cleared => false
  }

  /** A key of the cache, and what lies behind it. */
  ghost predicate Ranked<K(!new)>(keys: seq<K>, max: nat, key: K, live: set<K>) {
    && NoDuplicates(keys) && |keys| <= max
    && (key in keys ==> Elements(Behind(keys, key)) == live && |live| < max)
  }

  lemma RankedBehind<K(!new)>(keys: seq<K>, max: nat, key: K)
    requires NoDuplicates(keys) && |keys| <= max
    ensures Ranked(keys, max, key, Elements(Behind(keys, key)))
  {
    if key in keys {
      var i := BehindSplit(keys, key);
      SuffixDistinct(keys, i + 1);
      Cardinality(Behind(keys, key));
    }
  }

  /** A key is put at the end of a list that it is not in and that has room. */
  lemma RankSnoc<K(!new)>(keys: seq<K>, max: nat, key: K, last: K)
    requires NoDuplicates(keys) && |keys| < max && last !in keys
    ensures NoDuplicates(keys + [last])
    ensures last != key && key in keys ==> Elements(Behind(keys + [last], key)) == Elements(Behind(keys, key)) + {last}
    ensures last == key ==> Elements(Behind(keys + [last], key)) == {}
  {
    BehindSnoc(keys, key, last);
    if key in keys {
      ElementsSnoc(Behind(keys, key), last);
    }
  }

  lemma RankWithout<K(!new)>(keys: seq<K>, key: K, gone: K)
    requires NoDuplicates(keys) && gone != key && key in keys
    ensures Elements(Behind(Without(keys, gone), key)) == Elements(Behind(keys, key)) - {gone}
  {
    BehindWithout(keys, key, gone);
  }

  /** The first key is evicted. */
  lemma RankEvict<K(!new)>(keys: seq<K>, max: nat, key: K)
    requires NoDuplicates(keys) && keys != [] && |keys| == max
    ensures key in keys[1..] ==> key != keys[0] && Behind(keys[1..], key) == Behind(keys, key)
    ensures key == keys[0] ==> key !in keys[1..] && |Elements(Behind(keys, key))| == max - 1
  {
    if keys[0] in keys[1..] {
      HeadApart(keys);
    }
    SuffixDistinct(keys, 1);
    Cardinality(keys[1..]);
  }

  lemma RankRequest<K(!new)>(keys: seq<K>, max: nat, key: K, k: K)
    requires max >= 1 && NoDuplicates(keys) && |keys| <= max
    ensures NoDuplicates(KeysAfter(keys, max, k)) && |KeysAfter(keys, max, k)| <= max
    ensures k in KeysAfter(keys, max, k)
    ensures var live := if k == key then {} else Elements(Behind(keys, key)) + {k};
      && (key in KeysAfter(keys, max, k) ==> Elements(Behind(KeysAfter(keys, max, k), key)) == live)
      && (k != key ==> (key in KeysAfter(keys, max, k) <==> key in keys && |live| < max))
  {
    hide NoDuplicates, Elements, Without, Behind;
    var kept :=
      if k in keys then Without(keys, k) else if |keys| == max then keys[1..] else keys;
    if k in keys {
      WithoutFacts(keys, k);
      if key in keys && k != key {
        RankWithout(keys, key, k);
      }
    } else if |keys| == max {
      SuffixDistinct(keys, 1);
      RankEvict(keys, max, key);
    }
    assert KeysAfter(keys, max, k) == kept + [k];
    RankSnoc(kept, max, key, k);
    RankedBehind(kept + [k], max, key);
    if key in keys && k !in keys {
      NotBehind(keys, key, k);
    }
  }

  lemma NotBehind<K(!new)>(keys: seq<K>, key: K, k: K)
    requires key in keys && k !in keys
    ensures |Elements(Behind(keys, key)) + {k}| == |Elements(Behind(keys, key))| + 1
  {
    var i := BehindSplit(keys, key);
    assert k !in Elements(Behind(keys, key));
  }

  /** Least recently used, in terms of the history alone, whatever is closed in it. */
  lemma {:induction false} CachedIfSurvives<K(!new)>(history: seq<Op<K>>, max: nat, key: K)
    requires max >= 1
    ensures key in KeysOf(history, max) <==> Survives(history, max, key)
    ensures Ranked(KeysOf(history, max), max, key, LiveSince(history, key))
  {
    hide NoDuplicates, Elements, Without, Behind, KeysAfter;
    if history != [] {
      var front, last := history[..|history| - 1], history[|history| - 1];
      CachedIfSurvives(front, max, key);
      var keys := KeysOf(front, max);
      match last
      case Request(k) => RankRequest(keys, max, key, k);
      case Closed(k) =>
        WithoutFacts(keys, k);
        if k != key && key in keys {
          RankWithout(keys, key, k);
        }
      case Cleared =>
      assert NoDuplicates(KeysOf(history, max)) by { NoneTwice<K>(); }
      RankedBehind(KeysOf(history, max), max, key);
    } else {
      NoneTwice<K>();
    }
  }

  lemma NoneTwice<K(!new)>()
    ensures NoDuplicates<K>([])
  {
  }
}
