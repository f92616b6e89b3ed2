/** The greedy wildcard matcher that picks the nodes of a pool cluster. */
module Wildcard {
  import opened Bytes

  /** What a match is: the value can be cut so that every `*` of the pattern takes
      some stretch of it and everything else matches literally. */
  ghost predicate Matches(pattern: string, value: string)
    decreases |pattern|
  {
    if pattern == [] then value == []
    else if pattern[0] == '*' then exists k :: 0 <= k <= |value| && Matches(pattern[1..], value[k..])
    else value != [] && value[0] == pattern[0] && Matches(pattern[1..], value[1..])
  }

  predicate AllStars(s: string) {
    forall i :: 0 <= i < |s| ==> s[i] == '*'
  }

  /** The loop of `wildcard_match` from a state in the middle: a character that
      matches literally is taken even when it is a star. */
  function Scan(pattern: string, value: string, p: nat, v: nat, star: Option<nat>, mark: nat): bool
    requires mark <= v <= |value| && p <= |pattern|
    requires star.Some? ==> star.value < |pattern|
    decreases |value| - mark, |value| - v, |pattern| - p
  {
    if v == |value| then AllStars(pattern[p..])
    else if p < |pattern| && pattern[p] == value[v] then Scan(pattern, value, p + 1, v + 1, star, mark)
    else if p < |pattern| && pattern[p] == '*' then Scan(pattern, value, p + 1, v, Some(p), v)
    else if star.Some? then Scan(pattern, value, star.value + 1, mark + 1, star, mark + 1)
    else false
  }

  /** The answer of `wildcard_match`. */
  function Accepts(pattern: string, value: string): bool {
    Scan(pattern, value, 0, 0, None, 0)
  }

  /** `wildcard_match`; it terminates because each turn of the loop moves the mark
      forward, or the value, or the pattern. */
  method WildcardMatch(pattern: string, value: string) returns (r: bool)
    ensures r == Accepts(pattern, value)
    ensures NoEarlyStar(value) ==> (r <==> Matches(pattern, value))
  {
    var p: nat, v: nat, mark: nat := 0, 0, 0;
    var star: Option<nat> := None;
    while v < |value|
      invariant mark <= v <= |value| && p <= |pattern|
      invariant star.Some? ==> star.value < |pattern|
      invariant Accepts(pattern, value) == Scan(pattern, value, p, v, star, mark)
      decreases |value| - mark, |value| - v, |pattern| - p
    {
      if p < |pattern| && pattern[p] == value[v] {
        p, v := p + 1, v + 1;
      } else if p < |pattern| && pattern[p] == '*' {
        star := Some(p);
        p := p + 1;
        mark := v;
      } else if star.Some? {
        p := star.value + 1;
        mark := mark + 1;
        v := mark;
      } else {
        if NoEarlyStar(value) {
          AcceptsExact(pattern, value);
        }
        return false;
      }
    }
    ghost var from := p;
    while p < |pattern| && pattern[p] == '*'
      invariant from <= p <= |pattern|
      invariant forall i :: from <= i < p ==> pattern[i] == '*'
    {
      p := p + 1;
    }
    r := p == |pattern|;
    assert AllStars(pattern[from..]) <==> r by {
      if !r {
        assert pattern[from..][p - from] != '*';
      }
    }
    if NoEarlyStar(value) {
      AcceptsExact(pattern, value);
    }
  }

  // ---------------------------------------------------------- what it means

  /** No star in the value, except perhaps as its last character. */
  predicate NoEarlyStar(value: string) {
    forall i :: 0 <= i < |value| - 1 ==> value[i] != '*'
  }

  /** The candidates that a state of the loop has still to try. */
  ghost predicate Open(pattern: string, value: string, p: nat, v: nat, star: Option<nat>, mark: nat)
    requires mark <= v <= |value| && p <= |pattern|
    requires star.Some? ==> star.value < |pattern|
  {
    || Matches(pattern[p..], value[v..])
    || (star.Some? && Later(pattern[star.value + 1..], value, mark))
  }

  ghost predicate Later(rest: string, value: string, mark: nat) {
    exists k :: mark < k <= |value| && Matches(rest, value[k..])
  }

  /** Since the last star everything has matched literally. */
  ghost predicate Literal(pattern: string, value: string, p: nat, v: nat, star: Option<nat>, mark: nat) {
    && mark <= v <= |value| && p <= |pattern|
    && (star.Some? ==>
          && star.value < p
          && p - (star.value + 1) == v - mark
          && forall i :: star.value < i < p ==> pattern[i] != '*')
  }

  lemma {:induction false} EmptyValue(pattern: string)
    ensures Matches(pattern, []) <==> AllStars(pattern)
  {
    if pattern != [] {
      EmptyValue(pattern[1..]);
      assert pattern == [pattern[0]] + pattern[1..];
      var none: string := [];
      assert none[0..] == none;
      if pattern[0] == '*' && AllStars(pattern[1..]) {
        assert forall i :: 0 < i < |pattern| ==> pattern[i] == pattern[1..][i - 1];
      }
    }
  }

  /** A literal stretch of the pattern takes exactly its own length. */
  lemma {:induction false} LiteralFront(pattern: string, n: nat, value: string)
    requires n <= |pattern| && forall i :: 0 <= i < n ==> pattern[i] != '*'
    requires Matches(pattern, value)
    ensures n <= |value| && Matches(pattern[n..], value[n..])
  {
    if n > 0 {
      LiteralFront(pattern[1..], n - 1, value[1..]);
      assert pattern[1..][n - 1..] == pattern[n..] && value[1..][n - 1..] == value[n..];
    } else {
      assert pattern[0..] == pattern && value[0..] == value;
    }
  }

  /** After a star the rest of the pattern matches at or behind the same place. */
  lemma StarFront(pattern: string, p: nat, value: string, v: nat)
    requires p < |pattern| && pattern[p] == '*' && v <= |value|
    ensures Matches(pattern[p..], value[v..]) <==>
      Matches(pattern[p + 1..], value[v..]) || Later(pattern[p + 1..], value, v)
  {
    var rest := pattern[p + 1..];
    assert pattern[p..][1..] == rest;
    if Matches(pattern[p..], value[v..]) {
      var k :| 0 <= k <= |value[v..]| && Matches(rest, value[v..][k..]);
      assert value[v..][k..] == value[v + k..];
    }
    if Matches(rest, value[v..]) {
      assert value[v..][0..] == value[v..];
    }
    if Later(rest, value, v) {
      var k :| v < k <= |value| && Matches(rest, value[k..]);
      assert value[v..][k - v..] == value[k..];
    }
  }

  /** A match of the pattern behind the last star that starts later than the mark
      reaches the place of `p` later than `v`. */
  lemma LaterReaches(pattern: string, value: string, p: nat, v: nat, star: nat, mark: nat)
    requires Literal(pattern, value, p, v, Some(star), mark)
    requires Later(pattern[star + 1..], value, mark)
    ensures Later(pattern[p..], value, v)
  {
    var k :| mark < k <= |value| && Matches(pattern[star + 1..], value[k..]);
    ReachesAt(pattern, value, star + 1, p - (star + 1), k);
  }

  lemma ReachesAt(pattern: string, value: string, from: nat, n: nat, k: nat)
    requires from + n <= |pattern| && k <= |value|
    requires forall i :: from <= i < from + n ==> pattern[i] != '*'
    requires Matches(pattern[from..], value[k..])
    ensures k + n <= |value| && Matches(pattern[from + n..], value[k + n..])
  {
    LiteralFront(pattern[from..], n, value[k..]);
    hide Matches;
    assert pattern[from..][n..] == pattern[from + n..] && value[k..][n..] == value[k + n..];
  }

  /** The matcher never accepts what is not a match, whatever the value holds. */
  lemma {:induction false} ScanSound(pattern: string, value: string, p: nat, v: nat, star: Option<nat>, mark: nat)
    requires mark <= v <= |value| && p <= |pattern|
    requires star.Some? ==> star.value < |pattern| && pattern[star.value] == '*'
    requires Scan(pattern, value, p, v, star, mark)
    ensures Open(pattern, value, p, v, star, mark)
    decreases |value| - mark, |value| - v, |pattern| - p
  {
    if v == |value| {
      EmptyValue(pattern[p..]);
      assert value[v..] == [];
    } else if p < |pattern| && pattern[p] == value[v] {
      ScanSound(pattern, value, p + 1, v + 1, star, mark);
      LiteralStep(pattern, value, p, v);
    } else if p < |pattern| && pattern[p] == '*' {
      ScanSound(pattern, value, p + 1, v, Some(p), v);
      StarFront(pattern, p, value, v);
    } else {
      ScanSound(pattern, value, star.value + 1, mark + 1, star, mark + 1);
    }
  }

  lemma LiteralStep(pattern: string, value: string, p: nat, v: nat)
    requires p < |pattern| && v < |value| && pattern[p] == value[v]
    ensures Matches(pattern[p + 1..], value[v + 1..]) ==> Matches(pattern[p..], value[v..])
    ensures pattern[p] != '*' && Matches(pattern[p..], value[v..]) ==> Matches(pattern[p + 1..], value[v + 1..])
  {
    assert pattern[p..][1..] == pattern[p + 1..] && value[v..][1..] == value[v + 1..];
    if Matches(pattern[p + 1..], value[v + 1..]) && pattern[p] == '*' {
      StarFront(pattern, p, value, v);
    }
  }

  /** Going back to the last star only is enough. */
  lemma {:induction false} ScanComplete(pattern: string, value: string, p: nat, v: nat, star: Option<nat>, mark: nat)
    requires Literal(pattern, value, p, v, star, mark) && NoEarlyStar(value)
    requires star.Some? ==> pattern[star.value] == '*'
    requires Open(pattern, value, p, v, star, mark)
    ensures Scan(pattern, value, p, v, star, mark)
    decreases |value| - mark, |value| - v, |pattern| - p
  {
    if v == |value| {
      if !Matches(pattern[p..], value[v..]) {
        LaterReaches(pattern, value, p, v, star.value, mark);
        assert false;
      }
      assert value[v..] == [];
      EmptyValue(pattern[p..]);
    } else if p < |pattern| && pattern[p] == value[v] {
      LiteralStep(pattern, value, p, v);
      if pattern[p] == '*' {
        LastStar(pattern, value, p, v, star, mark);
      } else {
        ScanComplete(pattern, value, p + 1, v + 1, star, mark);
      }
    } else if p < |pattern| && pattern[p] == '*' {
      StarFront(pattern, p, value, v);
      if !Matches(pattern[p..], value[v..]) {
        LaterReaches(pattern, value, p, v, star.value, mark);
        var j :| v < j <= |value| && Matches(pattern[p..], value[j..]);
        StarFront(pattern, p, value, j);
      }
      ScanComplete(pattern, value, p + 1, v, Some(p), v);
    } else {
      assert !Matches(pattern[p..], value[v..]);
      assert star.Some?;
      ScanComplete(pattern, value, star.value + 1, mark + 1, star, mark + 1);
    }
  }

  /** A star that is the last character of the value may be taken literally. */
  lemma LastStar(pattern: string, value: string, p: nat, v: nat, star: Option<nat>, mark: nat)
    requires Literal(pattern, value, p, v, star, mark)
    requires star.Some? ==> pattern[star.value] == '*'
    requires Open(pattern, value, p, v, star, mark)
    requires v == |value| - 1 && value[v] == '*' && p < |pattern| && pattern[p] == '*'
    ensures AllStars(pattern[p + 1..])
  {
    var rest := pattern[p + 1..];
    var j := v;
    if !Matches(pattern[p..], value[v..]) {
      LaterReaches(pattern, value, p, v, star.value, mark);
      j :| v < j <= |value| && Matches(pattern[p..], value[j..]);
    }
    StarFront(pattern, p, value, j);
    assert value[|value|..] == [];
    EmptyValue(rest);
    if Matches(rest, value[v..]) {
      assert value[v..] == "*";
      OneStar(rest);
    }
  }

  lemma {:induction false} OneStar(pattern: string)
    requires Matches(pattern, "*")
    ensures AllStars(pattern)
  {
    if pattern != [] {
      assert "*"[0..] == "*" && "*"[1..] == "";
      EmptyValue(pattern[1..]);
      if Matches(pattern[1..], "*") {
        OneStar(pattern[1..]);
      }
      assert forall i :: 0 < i < |pattern| ==> pattern[i] == pattern[1..][i - 1];
    }
  }

  lemma AcceptsExact(pattern: string, value: string)
    requires NoEarlyStar(value)
    ensures Accepts(pattern, value) <==> Matches(pattern, value)
  {
    assert pattern[0..] == pattern && value[0..] == value;
    if Accepts(pattern, value) {
      ScanSound(pattern, value, 0, 0, None, 0);
    }
    if Matches(pattern, value) {
      ScanComplete(pattern, value, 0, 0, None, 0);
    }
  }

  lemma AcceptsSound(pattern: string, value: string)
    requires Accepts(pattern, value)
    ensures Matches(pattern, value)
  {
    assert pattern[0..] == pattern && value[0..] == value;
    ScanSound(pattern, value, 0, 0, None, 0);
  }

  // -------------------------------------------------------- where it fails

  /** A pattern that matches a value with an early star and is turned down: the
      value up to and including its first star. */
  lemma EarlyStarFails(value: string, i: nat)
    requires i < |value| - 1 && value[i] == '*' && forall j :: 0 <= j < i ==> value[j] != '*'
    ensures Matches(value[..i + 1], value) && !Accepts(value[..i + 1], value)
  {
    TakenLiterally(value, i, 0);
    PrefixMatches(value[..i], value);
    assert value[..i] + "*" == value[..i + 1];
  }

  lemma {:induction false} TakenLiterally(value: string, i: nat, j: nat)
    requires i < |value| - 1 && j <= i + 1
    ensures !Scan(value[..i + 1], value, j, j, None, 0)
    decreases i + 1 - j
  {
    if j <= i {
      TakenLiterally(value, i, j + 1);
    }
  }

  lemma {:induction false} PrefixMatches(prefix: string, value: string)
    requires prefix <= value && '*' !in prefix
    ensures Matches(prefix + "*", value)
  {
    if prefix == [] {
      assert "*"[1..] == [] && value[|value|..] == [];
      assert Matches("*"[1..], value[|value|..]);
      assert prefix + "*" == "*";
    } else {
      assert (prefix + "*")[1..] == prefix[1..] + "*";
      assert prefix[1..] <= value[1..];
      PrefixMatches(prefix[1..], value[1..]);
    }
  }

  lemma {:induction false} FirstStar(value: string, n: nat) returns (i: nat)
    requires n < |value| - 1 && value[n] == '*'
    ensures i <= n && value[i] == '*' && forall j :: 0 <= j < i ==> value[j] != '*'
  {
    i := 0;
    while value[i] != '*'
      invariant i <= n && forall j :: 0 <= j < i ==> value[j] != '*'
      decreases n - i
    {
      i := i + 1;
    }
  }

  /** The matcher is right about a value for every pattern exactly when the value
      has no star before its last character. */
  lemma WildcardExact(value: string)
    ensures (forall pattern :: Accepts(pattern, value) <==> Matches(pattern, value)) <==> NoEarlyStar(value)
  {
    if NoEarlyStar(value) {
      forall pattern ensures Accepts(pattern, value) <==> Matches(pattern, value) {
        AcceptsExact(pattern, value);
      }
    } else {
      var n :| 0 <= n < |value| - 1 && value[n] == '*';
      var i := FirstStar(value, n);
      EarlyStarFails(value, i);
    }
  }
}
