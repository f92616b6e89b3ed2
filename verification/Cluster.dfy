/** The retry loop of a pool cluster with node removal. */
module Cluster {
  import opened Bytes
  import opened Wildcard

  /** A node with its error count and the time until which it is offline; its pool
      answers through `Attempt`. */
  datatype Node = Node(id: string, errors: nat, offlineUntil: nat)

  datatype Selector = RoundRobin | Random | Order

  /** What one call of `pool->get_connection()` does. */
  datatype Attempt = Connected | Failed | OtherException

  datatype Outcome = Got(id: string) | NoMatch | NoneOnline | GaveUp | Escaped

  datatype Options = Options(canRetry: bool, threshold: nat, restore: nat)

  predicate Unique(nodes: seq<Node>) {
    forall i, j :: 0 <= i < j < |nodes| ==> nodes[i].id != nodes[j].id
  }

  /** The empty time point is 0, so it never lies ahead. */
  predicate Online(node: Node, now: nat) {
    node.offlineUntil <= now
  }

  predicate Selected(node: Node, pattern: string, offlineToo: bool, now: nat) {
    Accepts(pattern, node.id) && (offlineToo || Online(node, now))
  }

  /** The ids that match a pattern, in the order of the node map. */
  function Matching(nodes: seq<Node>, pattern: string, offlineToo: bool, now: nat): seq<string> {
    if nodes == [] then []
    else
      var first := if Selected(nodes[0], pattern, offlineToo, now) then [nodes[0].id] else [];
      first + Matching(nodes[1..], pattern, offlineToo, now)
  }

  /** How often a node can still fail before it is removed or goes offline. */
  function Cost(node: Node, pattern: string, threshold: nat, now: nat): nat {
    if !Selected(node, pattern, false, now) then 0
    else if threshold > node.errors then threshold - node.errors else 1
  }

  function Budget(nodes: seq<Node>, pattern: string, threshold: nat, now: nat): nat {
    if nodes == [] then 0
    else Cost(nodes[0], pattern, threshold, now) + Budget(nodes[1..], pattern, threshold, now)
  }

  /** The nodes after a failure of node `i`: one more error, and at the threshold
      the node goes offline or is removed. */
  function AfterFailure(nodes: seq<Node>, i: nat, options: Options, now: nat): seq<Node>
    requires i < |nodes|
  {
    var node := nodes[i].(errors := nodes[i].errors + 1);
    if node.errors < options.threshold then nodes[i := node]
    else if options.restore > 0 then nodes[i := node.(offlineUntil := now + options.restore)]
    else nodes[..i] + nodes[i + 1..]
  }

  /** The nodes after a success of node `i`: one error fewer, and an offline time
      that is over is cleared. */
  function AfterSuccess(nodes: seq<Node>, i: nat, now: nat): seq<Node>
    requires i < |nodes|
  {
    nodes[i := nodes[i].(
      errors := if nodes[i].errors > 0 then nodes[i].errors - 1 else 0,
      offlineUntil := if Online(nodes[i], now) then 0 else nodes[i].offlineUntil)]
  }

  /** The nodes that a pattern does not match. */
  function Others(nodes: seq<Node>, pattern: string): seq<Node> {
    if nodes == [] then []
    else (if Accepts(pattern, nodes[0].id) then [] else [nodes[0]]) + Others(nodes[1..], pattern)
  }

  lemma {:induction false} MatchingExact(nodes: seq<Node>, pattern: string, offlineToo: bool, now: nat)
    ensures forall id :: id in Matching(nodes, pattern, offlineToo, now) <==>
      exists i :: 0 <= i < |nodes| && nodes[i].id == id && Selected(nodes[i], pattern, offlineToo, now)
  {
    hide Selected;
    if nodes != [] {
      MatchingExact(nodes[1..], pattern, offlineToo, now);
      forall id ensures id in Matching(nodes, pattern, offlineToo, now) <==>
        exists i :: 0 <= i < |nodes| && nodes[i].id == id && Selected(nodes[i], pattern, offlineToo, now)
      {
        if id in Matching(nodes[1..], pattern, offlineToo, now) {
          var i :| 0 <= i < |nodes| - 1 && nodes[1..][i].id == id && Selected(nodes[1..][i], pattern, offlineToo, now);
          assert nodes[i + 1].id == id;
        }
        if i :| 0 <= i < |nodes| && nodes[i].id == id && Selected(nodes[i], pattern, offlineToo, now) {
          if i > 0 {
            assert nodes[1..][i - 1].id == id;
          }
        }
      }
    }
  }

  lemma {:induction false} NothingMatches(nodes: seq<Node>, pattern: string, threshold: nat, now: nat)
    ensures Matching(nodes, pattern, false, now) == [] <==> Budget(nodes, pattern, threshold, now) == 0
    ensures Matching(nodes, pattern, true, now) == [] ==>
      Others(nodes, pattern) == nodes && Matching(nodes, pattern, false, now) == []
  {
    hide Accepts, Online;
    if nodes != [] {
      NothingMatches(nodes[1..], pattern, threshold, now);
    }
  }

  /** A failure of a matching node that is online uses up exactly one of the budget
      and leaves the nodes that do not match alone. */
  lemma {:induction false} FailureCosts(nodes: seq<Node>, i: nat, pattern: string, options: Options, now: nat)
    requires i < |nodes| && Selected(nodes[i], pattern, false, now)
    ensures Budget(AfterFailure(nodes, i, options, now), pattern, options.threshold, now) + 1 ==
      Budget(nodes, pattern, options.threshold, now)
    ensures Others(AfterFailure(nodes, i, options, now), pattern) == Others(nodes, pattern)
  {
    hide Accepts;
    var after := AfterFailure(nodes, i, options, now);
    if i > 0 {
      FailureCosts(nodes[1..], i - 1, pattern, options, now);
      assert after[0] == nodes[0];
      assert after[1..] == AfterFailure(nodes[1..], i - 1, options, now);
    } else if nodes[0].errors + 1 < options.threshold || options.restore > 0 {
      assert after[1..] == nodes[1..];
    } else {
      assert after == nodes[1..];
    }
  }

  /** A success of a matching node leaves the others alone. */
  lemma {:induction false} SuccessKeepsOthers(nodes: seq<Node>, i: nat, pattern: string, now: nat)
    requires i < |nodes| && Accepts(pattern, nodes[i].id)
    ensures Others(AfterSuccess(nodes, i, now), pattern) == Others(nodes, pattern)
  {
    hide Accepts, Online;
    var after := AfterSuccess(nodes, i, now);
    if i > 0 {
      SuccessKeepsOthers(nodes[1..], i - 1, pattern, now);
      assert after[0] == nodes[0];
      assert after[1..] == AfterSuccess(nodes[1..], i - 1, now);
    } else {
      assert after[1..] == nodes[1..];
    }
  }

  lemma UniqueAfter(nodes: seq<Node>, i: nat, options: Options, now: nat)
    requires Unique(nodes) && i < |nodes|
    ensures Unique(AfterFailure(nodes, i, options, now))
  {
  }

  // ------------------------------------------------------------- the clock

  /** The readings of the steady clock, three for each round of `get_connection`;
      those not given repeat the last. */
  function Reading(clock: seq<nat>, k: nat): nat {
    if clock == [] then 0 else if k < |clock| then clock[k] else clock[|clock| - 1]
  }

  predicate Steady(clock: seq<nat>) {
    forall j, k :: 0 <= j <= k < |clock| ==> clock[j] <= clock[k]
  }

  lemma Later(clock: seq<nat>, j: nat, k: nat)
    requires Steady(clock) && j <= k
    ensures Reading(clock, j) <= Reading(clock, k)
  {
  }

  /** No node comes back online between the first reading and the last. */
  ghost predicate NoneReturns(nodes: seq<Node>, clock: seq<nat>) {
    forall i :: 0 <= i < |nodes| ==>
      nodes[i].offlineUntil <= Reading(clock, 0) || Reading(clock, |clock|) < nodes[i].offlineUntil
  }

  /** The call is over before a node that it sends offline would come back. */
  ghost predicate Brief(options: Options, clock: seq<nat>) {
    options.restore > 0 ==> Reading(clock, |clock|) < Reading(clock, 0) + options.restore
  }

  lemma {:induction false} SameMatching(nodes: seq<Node>, pattern: string, threshold: nat, clock: seq<nat>, k: nat)
    requires Steady(clock) && NoneReturns(nodes, clock)
    ensures Matching(nodes, pattern, false, Reading(clock, k)) == Matching(nodes, pattern, false, Reading(clock, 0))
    ensures Budget(nodes, pattern, threshold, Reading(clock, k)) == Budget(nodes, pattern, threshold, Reading(clock, 0))
  {
    hide Accepts;
    if nodes != [] {
      assert NoneReturns(nodes[1..], clock);
      SameMatching(nodes[1..], pattern, threshold, clock, k);
      hide NoneReturns, Steady;
      SameOnline(nodes, clock, k);
    }
  }

  lemma SameOnline(nodes: seq<Node>, clock: seq<nat>, k: nat)
    requires Steady(clock) && NoneReturns(nodes, clock) && nodes != []
    ensures Online(nodes[0], Reading(clock, k)) <==> Online(nodes[0], Reading(clock, 0))
  {
    Later(clock, 0, k);
    Later(clock, k, if k < |clock| then |clock| else k);
  }

  lemma NoneReturnsAfter(nodes: seq<Node>, i: nat, options: Options, clock: seq<nat>, k: nat)
    requires i < |nodes| && Steady(clock) && NoneReturns(nodes, clock) && Brief(options, clock)
    ensures NoneReturns(AfterFailure(nodes, i, options, Reading(clock, k)), clock)
  {
    Later(clock, 0, k);
  }

  /** Nodes that are online stay online. */
  lemma {:induction false} StillMatching(nodes: seq<Node>, pattern: string, now: nat, later: nat)
    requires now <= later && Matching(nodes, pattern, false, now) != []
    ensures Matching(nodes, pattern, false, later) != []
  {
    hide Accepts;
    if !Selected(nodes[0], pattern, false, now) {
      StillMatching(nodes[1..], pattern, now, later);
    }
  }

  /** Asking for offline nodes too, the time does not matter. */
  lemma {:induction false} AnyTime(nodes: seq<Node>, pattern: string, now: nat, other: nat)
    ensures Matching(nodes, pattern, true, now) == Matching(nodes, pattern, true, other)
  {
    hide Accepts;
    if nodes != [] {
      AnyTime(nodes[1..], pattern, now, other);
    }
  }

  ghost predicate AllOnline(nodes: seq<Node>, now: nat) {
    forall i :: 0 <= i < |nodes| ==> Online(nodes[i], now)
  }

  lemma {:induction false} AllMatching(nodes: seq<Node>, pattern: string, now: nat)
    requires AllOnline(nodes, now)
    ensures Matching(nodes, pattern, false, now) == Matching(nodes, pattern, true, now)
  {
    hide Accepts;
    if nodes != [] {
      AllMatching(nodes[1..], pattern, now);
    }
  }

  /** Where nodes are restored, a failure removes none. */
  lemma {:induction false} NoneRemoved(nodes: seq<Node>, i: nat, pattern: string, options: Options, now: nat)
    requires i < |nodes| && options.restore > 0
    ensures Matching(AfterFailure(nodes, i, options, now), pattern, true, 0) == Matching(nodes, pattern, true, 0)
  {
    hide Accepts;
    var after := AfterFailure(nodes, i, options, now);
    if i > 0 {
      NoneRemoved(nodes[1..], i - 1, pattern, options, now);
      assert after[0] == nodes[0];
      assert after[1..] == AfterFailure(nodes[1..], i - 1, options, now);
    } else {
      assert after[1..] == nodes[1..];
    }
  }

  /** Each of the first `n` failures is handled at least the restore time before
      the check for another node. */
  ghost predicate Unhurried(options: Options, clock: seq<nat>, n: nat) {
    && options.restore > 0
    && forall k: nat :: k < n ==> Reading(clock, 3 * k + 1) + options.restore <= Reading(clock, 3 * k + 2)
  }

  function AllFailed(n: nat): (attempts: seq<Attempt>)
    ensures |attempts| == n && forall k :: 0 <= k < n ==> attempts[k].Failed?
  {
    seq(n, _ => Failed)
  }

  lemma OnlineAgain(nodes: seq<Node>, i: nat, options: Options, clock: seq<nat>, n: nat, k: nat)
    requires i < |nodes| && Steady(clock) && Unhurried(options, clock, n) && k < n
    requires AllOnline(nodes, Reading(clock, 3 * k))
    ensures AllOnline(AfterFailure(nodes, i, options, Reading(clock, 3 * k + 1)), Reading(clock, 3 * k + 2))
    ensures AllOnline(AfterFailure(nodes, i, options, Reading(clock, 3 * k + 1)), Reading(clock, 3 * (k + 1)))
  {
    Later(clock, 3 * k, 3 * k + 1);
    Later(clock, 3 * k + 1, 3 * k + 2);
    Later(clock, 3 * k + 2, 3 * (k + 1));
    assert Reading(clock, 3 * k + 1) + options.restore <= Reading(clock, 3 * k + 2);
    hide Reading, Steady;
  }

  lemma NoneSentOffline(nodes: seq<Node>, i: nat, options: Options, now: nat, start: nat)
    requires i < |nodes|
    ensures options.restore == 0 && AllOnline(nodes, start) ==> AllOnline(AfterFailure(nodes, i, options, now), start)
  {
  }

  /** What round `f` of the retry loop does when the pool of node `i` fails. */
  lemma FailureRound(nodes: seq<Node>, i: nat, pattern: string, options: Options, clock: seq<nat>, f: nat, n: nat)
    requires i < |nodes| && Steady(clock) && Selected(nodes[i], pattern, false, Reading(clock, 3 * f))
    ensures var after, start := AfterFailure(nodes, i, options, Reading(clock, 3 * f + 1)), Reading(clock, 0);
      && Others(after, pattern) == Others(nodes, pattern)
      && (NoneReturns(nodes, clock) && Brief(options, clock) ==>
        && NoneReturns(after, clock)
        && Budget(after, pattern, options.threshold, start) + 1 == Budget(nodes, pattern, options.threshold, start))
      && (f < n && Unhurried(options, clock, n) && AllOnline(nodes, Reading(clock, 3 * f)) ==>
        && AllOnline(after, Reading(clock, 3 * f + 2)) && AllOnline(after, Reading(clock, 3 * (f + 1)))
        && Matching(after, pattern, true, 0) == Matching(nodes, pattern, true, 0))
      && (options.restore == 0 && AllOnline(nodes, start) ==> AllOnline(after, start))
  {
    Later(clock, 3 * f, 3 * f + 1);
    NoneSentOffline(nodes, i, options, Reading(clock, 3 * f + 1), Reading(clock, 0));
    var now := Reading(clock, 3 * f + 1);
    var after := AfterFailure(nodes, i, options, now);
    hide Accepts, AfterFailure, Steady, Reading;
    FailureCosts(nodes, i, pattern, options, now);
    if NoneReturns(nodes, clock) && Brief(options, clock) {
      NoneReturnsAfter(nodes, i, options, clock, 3 * f + 1);
      SameMatching(nodes, pattern, options.threshold, clock, 3 * f + 1);
      SameMatching(after, pattern, options.threshold, clock, 3 * f + 1);
    }
    if f < n && Unhurried(options, clock, n) && AllOnline(nodes, Reading(clock, 3 * f)) {
      OnlineAgain(nodes, i, options, clock, n, f);
      NoneRemoved(nodes, i, pattern, options, now);
    }
  }

  /** What the check for another node in round `f` tells. */
  lemma CheckRound(nodes: seq<Node>, pattern: string, threshold: nat, clock: seq<nat>, f: nat)
    requires Steady(clock)
    ensures var found, start := Matching(nodes, pattern, false, Reading(clock, 3 * f + 2)), Reading(clock, 0);
      && (found != [] ==> Matching(nodes, pattern, false, Reading(clock, 3 * (f + 1))) != [])
      && (NoneReturns(nodes, clock) && found == [] ==>
        Matching(nodes, pattern, false, start) == [] && Budget(nodes, pattern, threshold, start) == 0)
      && (AllOnline(nodes, Reading(clock, 3 * f + 2)) ==> found == Matching(nodes, pattern, true, 0))
  {
    var now := Reading(clock, 3 * f + 2);
    Later(clock, 3 * f + 2, 3 * (f + 1));
    hide Matching, Budget, Steady, Reading;
    if Matching(nodes, pattern, false, now) != [] {
      StillMatching(nodes, pattern, now, Reading(clock, 3 * (f + 1)));
    }
    NothingMatches(nodes, pattern, threshold, now);
    if NoneReturns(nodes, clock) {
      SameMatching(nodes, pattern, threshold, clock, 3 * f + 2);
    }
    if AllOnline(nodes, now) {
      AllMatching(nodes, pattern, now);
      AnyTime(nodes, pattern, now, 0);
    }
  }

  /** What holds after `f` failures in a call that began with `nodes0` and is given
      `n` attempts. */
  ghost predicate Kept(nodes0: seq<Node>, nodes: seq<Node>, pattern: string, options: Options, clock: seq<nat>, n: nat, f: nat) {
    var start := Reading(clock, 0);
    && Others(nodes, pattern) == Others(nodes0, pattern)
    && (f == 0 ==> nodes == nodes0)
    && (NoneReturns(nodes0, clock) && Brief(options, clock) ==>
      && NoneReturns(nodes, clock)
      && f + Budget(nodes, pattern, options.threshold, start) == Budget(nodes0, pattern, options.threshold, start))
    && (Unhurried(options, clock, n) && AllOnline(nodes0, start) ==>
      && AllOnline(nodes, Reading(clock, 3 * f))
      && Matching(nodes, pattern, true, 0) == Matching(nodes0, pattern, true, 0))
    && (options.restore == 0 && AllOnline(nodes0, start) ==> AllOnline(nodes, start))
  }

  /** One more failure; `another` is what the check for another node finds. */
  lemma KeptStep(nodes0: seq<Node>, nodes: seq<Node>, i: nat, pattern: string, options: Options, clock: seq<nat>, n: nat, f: nat)
    requires i < |nodes| && Steady(clock) && Selected(nodes[i], pattern, false, Reading(clock, 3 * f)) && f < n
    requires Kept(nodes0, nodes, pattern, options, clock, n, f)
    ensures var after := AfterFailure(nodes, i, options, Reading(clock, 3 * f + 1));
      var another := Matching(after, pattern, false, Reading(clock, 3 * f + 2));
      && Kept(nodes0, after, pattern, options, clock, n, f + 1)
      && (another != [] ==> Matching(after, pattern, false, Reading(clock, 3 * (f + 1))) != [])
      && (NoneReturns(nodes0, clock) && Brief(options, clock) && another == [] ==>
        && Matching(after, pattern, false, Reading(clock, 0)) == []
        && f + 1 == Budget(nodes0, pattern, options.threshold, Reading(clock, 0)))
      && (Unhurried(options, clock, n) && AllOnline(nodes0, Reading(clock, 0)) ==>
        another == Matching(nodes0, pattern, true, 0))
  {
    FailureRound(nodes, i, pattern, options, clock, f, n);
    var after := AfterFailure(nodes, i, options, Reading(clock, 3 * f + 1));
    CheckRound(after, pattern, options.threshold, clock, f);
    hide AfterFailure, Others, NoneReturns, Brief, Budget, Unhurried, AllOnline, Matching, Reading, Steady, Selected;
  }

  /** What the first selection of a round tells. */
  lemma KeptSelect(nodes0: seq<Node>, nodes: seq<Node>, pattern: string, options: Options, clock: seq<nat>, n: nat, f: nat)
    requires Kept(nodes0, nodes, pattern, options, clock, n, f)
    ensures var found := Matching(nodes, pattern, false, Reading(clock, 3 * f));
      && (found != [] ==> Matching(nodes, pattern, true, 0) != [])
      && (Unhurried(options, clock, n) && AllOnline(nodes0, Reading(clock, 0)) ==>
        found == Matching(nodes0, pattern, true, 0))
      && Matching(nodes, pattern, true, Reading(clock, 3 * f)) == Matching(nodes, pattern, true, 0)
      && (f == 0 ==> nodes == nodes0)
  {
    var now := Reading(clock, 3 * f);
    hide Others, NoneReturns, Brief, Budget, Unhurried, Matching, Reading;
    NothingMatches(nodes, pattern, options.threshold, now);
    AnyTime(nodes, pattern, now, 0);
    if AllOnline(nodes, now) {
      AllMatching(nodes, pattern, now);
    }
  }

  /** How one round of `get_connection` ends; without an outcome there is another.
      It is node `i` that was asked for a connection. */
  ghost predicate Round(before: seq<Node>, after: seq<Node>, i: nat, pattern: string, options: Options, attempt: Attempt,
                        now: nat, answered: nat, check: nat, o: Option<Outcome>)
  {
    if Matching(before, pattern, false, now) == [] then
      && o == Some(if Matching(before, pattern, true, now) == [] then NoMatch else NoneOnline)
      && after == before
    else
      match attempt
      case Connected =>
        && i < |before| && Accepts(pattern, before[i].id)
        && o == Some(Got(before[i].id)) && after == AfterSuccess(before, i, answered)
      case OtherException => o == Some(Escaped) && after == before
      case Failed =>
        && i < |before| && Selected(before[i], pattern, false, now)
        && after == AfterFailure(before, i, options, answered)
        && o == if options.canRetry && Matching(after, pattern, false, check) != [] then None else Some(GaveUp)
  }

  /** What a call of `get_connection` that was given `attempts` may have done after
      `failures` of them: */
  ghost predicate Answers(nodes0: seq<Node>, nodes: seq<Node>, pattern: string, options: Options, attempts: seq<Attempt>,
                          clock: seq<nat>, o: Outcome, failures: nat)
  {
    var start := Reading(clock, 0);
    var budget := Budget(nodes0, pattern, options.threshold, start);
    // it says that nothing matches, or nothing online, exactly then,
    && (o.NoMatch? <==> Matching(nodes0, pattern, true, 0) == [])
    && (o.NoMatch? || o.NoneOnline? <==> Matching(nodes0, pattern, false, start) == [])
    && (o.NoMatch? || o.NoneOnline? ==> failures == 0 && nodes == nodes0)
    // it hands out a connection of a matching node,
    && (o.Got? ==> Accepts(pattern, o.id) && exists j :: 0 <= j < |nodes| && nodes[j].id == o.id)
    // it leaves the other nodes alone, and without retries it fails once at most,
    && Others(nodes, pattern) == Others(nodes0, pattern)
    && (!options.canRetry ==> failures <= 1) && (o.GaveUp? ==> failures >= 1)
    // and as long as no node comes back online during the call, the failures are
    // what the budget of the matching nodes loses, and giving up has used it all;
    && (NoneReturns(nodes0, clock) && Brief(options, clock) ==>
      && failures <= budget
      && (o.GaveUp? && options.canRetry ==>
        failures == budget && Matching(nodes, pattern, false, start) == [])
      && (!o.Got? ==> failures + Budget(nodes, pattern, options.threshold, start) == budget))
    // which without a restore time means that every matching node is gone;
    && (options.restore == 0 && AllOnline(nodes0, start) ==>
      && failures <= budget
      && (o.GaveUp? && options.canRetry ==> Matching(nodes, pattern, true, 0) == []))
    // but with nodes that come back before the next check, only the attempts end it
    && (options.canRetry && Unhurried(options, clock, |attempts|) && AllOnline(nodes0, start)
      && Matching(nodes0, pattern, true, 0) != [] && attempts == AllFailed(|attempts|)
      ==> o.Got? && failures == |attempts|)
  }

  /** Between two rounds. */
  ghost predicate Between(nodes0: seq<Node>, nodes: seq<Node>, pattern: string, options: Options, clock: seq<nat>, n: nat, f: nat) {
    && f <= n && Kept(nodes0, nodes, pattern, options, clock, n, f)
    && (f > 0 ==>
      && options.canRetry && Matching(nodes, pattern, false, Reading(clock, 3 * f)) != []
      && Matching(nodes0, pattern, false, Reading(clock, 0)) != [] && Matching(nodes0, pattern, true, 0) != [])
  }

  lemma RoundKeeps(nodes0: seq<Node>, before: seq<Node>, after: seq<Node>, i: nat, pattern: string, options: Options,
                   attempts: seq<Attempt>, clock: seq<nat>, f: nat, o: Option<Outcome>)
    requires Steady(clock) && Between(nodes0, before, pattern, options, clock, |attempts|, f)
    requires var attempt := if f < |attempts| then attempts[f] else Connected;
      Round(before, after, i, pattern, options, attempt,
            Reading(clock, 3 * f), Reading(clock, 3 * f + 1), Reading(clock, 3 * f + 2), o)
    ensures o.None? ==> f < |attempts| && Between(nodes0, after, pattern, options, clock, |attempts|, f + 1)
    ensures o.Some? ==>
      Answers(nodes0, after, pattern, options, attempts, clock, o.value, if o.value.GaveUp? then f + 1 else f)
  {
    hide Accepts, Matching, Budget, AfterFailure, Others, Reading, Steady, NoneReturns, Brief, AllOnline, Unhurried, Selected;
    KeptSelect(nodes0, before, pattern, options, clock, |attempts|, f);
    if Matching(before, pattern, false, Reading(clock, 3 * f)) != [] && f < |attempts| && attempts[f].Failed? {
      KeptStep(nodes0, before, i, pattern, options, clock, |attempts|, f);
    }
    RoundOthers(before, after, i, pattern, options, if f < |attempts| then attempts[f] else Connected,
                Reading(clock, 3 * f), Reading(clock, 3 * f + 1), Reading(clock, 3 * f + 2), o);
    OnlineFromStart(nodes0, after, pattern, options, clock);
  }

  lemma RoundOthers(before: seq<Node>, after: seq<Node>, i: nat, pattern: string, options: Options, attempt: Attempt,
                    now: nat, answered: nat, check: nat, o: Option<Outcome>)
    requires Round(before, after, i, pattern, options, attempt, now, answered, check, o)
    ensures o.Some? && !o.value.GaveUp? ==> Others(after, pattern) == Others(before, pattern)
    ensures o.Some? && o.value.Got? ==>
      Accepts(pattern, o.value.id) && exists j :: 0 <= j < |after| && after[j].id == o.value.id
  {
    hide Accepts, Matching, AfterFailure;
    if Matching(before, pattern, false, now) != [] && attempt.Connected? {
      SuccessKeepsOthers(before, i, pattern, answered);
      assert after[i].id == before[i].id;
    }
  }

  /** Without a restore time the nodes that are online from the start stay so. */
  lemma OnlineFromStart(nodes0: seq<Node>, nodes: seq<Node>, pattern: string, options: Options, clock: seq<nat>)
    ensures var start := Reading(clock, 0);
      && (options.restore == 0 && AllOnline(nodes0, start) ==> NoneReturns(nodes0, clock) && Brief(options, clock))
      && (AllOnline(nodes, start) && Matching(nodes, pattern, false, start) == [] ==> Matching(nodes, pattern, true, 0) == [])
  {
    var start := Reading(clock, 0);
    hide Matching, Reading;
    AnyTime(nodes, pattern, start, 0);
    if AllOnline(nodes, start) {
      AllMatching(nodes, pattern, start);
    }
  }

  // ------------------------------------------------------- calls as functions

  /** `select_node` among the ids that match. */
  function Choice(ids: seq<string>, selector: Selector, roundRobin: nat, pick: nat): string
    requires ids != []
  {
    match selector
    case Order => ids[0]
    case Random => ids[pick % |ids|]
    case RoundRobin => ids[roundRobin % |ids|]
  }

  function RoundRobinAfter(selector: Selector, roundRobin: nat): nat {
    if selector.RoundRobin? then roundRobin + 1 else roundRobin
  }

  /** `nodes_.find(id)`; the number of nodes is its end. */
  function IndexOf(nodes: seq<Node>, id: string): (i: nat)
    ensures i <= |nodes| && (i < |nodes| ==> nodes[i].id == id)
    ensures forall j :: 0 <= j < i ==> nodes[j].id != id
  {
    if nodes == [] || nodes[0].id == id then 0 else IndexOf(nodes[1..], id) + 1
  }

  lemma SelectedFound(nodes: seq<Node>, pattern: string, now: nat, id: string)
    requires id in Matching(nodes, pattern, false, now)
    ensures IndexOf(nodes, id) < |nodes|
    ensures Unique(nodes) ==> Selected(nodes[IndexOf(nodes, id)], pattern, false, now)
  {
    hide Accepts, Matching, Online;
    MatchingExact(nodes, pattern, false, now);
    var j :| 0 <= j < |nodes| && nodes[j].id == id && Selected(nodes[j], pattern, false, now);
    assert IndexOf(nodes, id) <= j;
  }

  /** One round: its outcome, if it is the last, the nodes, and the round-robin index. */
  function RoundOf(options: Options, nodes: seq<Node>, roundRobin: nat, pattern: string, selector: Selector,
                   attempt: Attempt, pick: nat, now: nat, answered: nat, check: nat): (Option<Outcome>, seq<Node>, nat)
  {
    var ids := Matching(nodes, pattern, false, now);
    if ids == [] then
      (Some(if Matching(nodes, pattern, true, now) == [] then NoMatch else NoneOnline), nodes, roundRobin)
    else
      var id, next := Choice(ids, selector, roundRobin, pick), RoundRobinAfter(selector, roundRobin);
      SelectedFound(nodes, pattern, now, id);
      var i := IndexOf(nodes, id);
      match attempt
      case Connected => (Some(Got(id)), AfterSuccess(nodes, i, answered), next)
      case OtherException => (Some(Escaped), nodes, next)
      case Failed =>
        var after := AfterFailure(nodes, i, options, answered);
        (if options.canRetry && Matching(after, pattern, false, check) != [] then None else Some(GaveUp), after, next)
  }

  lemma RoundOfExact(options: Options, nodes: seq<Node>, roundRobin: nat, pattern: string, selector: Selector,
                     attempt: Attempt, pick: nat, now: nat, answered: nat, check: nat) returns (i: nat)
    requires Unique(nodes)
    ensures var (o, after, _) := RoundOf(options, nodes, roundRobin, pattern, selector, attempt, pick, now, answered, check);
      Round(nodes, after, i, pattern, options, attempt, now, answered, check, o) && Unique(after)
  {
    hide Accepts, Matching, Online, AfterFailure;
    i := 0;
    var ids := Matching(nodes, pattern, false, now);
    if ids != [] {
      var id := Choice(ids, selector, roundRobin, pick);
      SelectedFound(nodes, pattern, now, id);
      i := IndexOf(nodes, id);
      UniqueAfter(nodes, i, options, answered);
    }
  }

  datatype Called = Called(outcome: Outcome, nodes: seq<Node>, failures: nat, roundRobin: nat)

  /** A call of `get_connection` that has failed `f` times. The attempts and picks
      not given are successes and first choices. */
  function Call(options: Options, nodes: seq<Node>, roundRobin: nat, pattern: string, selector: Selector,
                attempts: seq<Attempt>, picks: seq<nat>, clock: seq<nat>, f: nat): Called
    requires f <= |attempts|
    decreases |attempts| - f
  {
    var attempt := if f < |attempts| then attempts[f] else Connected;
    var pick := if f < |picks| then picks[f] else 0;
    var (o, after, next) := RoundOf(options, nodes, roundRobin, pattern, selector, attempt, pick,
                                    Reading(clock, 3 * f), Reading(clock, 3 * f + 1), Reading(clock, 3 * f + 2));
    match o
    case Some(outcome) => Called(outcome, after, if outcome.GaveUp? then f + 1 else f, next)
    case None => Call(options, after, next, pattern, selector, attempts, picks, clock, f + 1)
  }

  lemma CallStep(options: Options, nodes: seq<Node>, roundRobin: nat, pattern: string, selector: Selector,
                 attempts: seq<Attempt>, picks: seq<nat>, clock: seq<nat>, f: nat)
    requires f <= |attempts|
    ensures var attempt := if f < |attempts| then attempts[f] else Connected;
      var (o, after, next) := RoundOf(options, nodes, roundRobin, pattern, selector, attempt, if f < |picks| then picks[f] else 0,
                                      Reading(clock, 3 * f), Reading(clock, 3 * f + 1), Reading(clock, 3 * f + 2));
      && (o.None? ==> f < |attempts|)
      && Call(options, nodes, roundRobin, pattern, selector, attempts, picks, clock, f) ==
        match o
        case Some(outcome) => Called(outcome, after, if outcome.GaveUp? then f + 1 else f, next)
        case None => Call(options, after, next, pattern, selector, attempts, picks, clock, f + 1)
  {
    hide Matching, Reading, AfterFailure, AfterSuccess, Choice, IndexOf, Accepts;
  }

  /** Whatever the selector picks and however the pools answer. */
  lemma {:induction false} CallAnswers(options: Options, nodes0: seq<Node>, nodes: seq<Node>, roundRobin: nat, pattern: string,
                                       selector: Selector, attempts: seq<Attempt>, picks: seq<nat>, clock: seq<nat>, f: nat)
    requires Steady(clock) && Unique(nodes) && Between(nodes0, nodes, pattern, options, clock, |attempts|, f)
    ensures var c := Call(options, nodes, roundRobin, pattern, selector, attempts, picks, clock, f);
      && Answers(nodes0, c.nodes, pattern, options, attempts, clock, c.outcome, c.failures)
      && Unique(c.nodes) && c.failures <= |attempts|
    decreases |attempts| - f
  {
    CallStep(options, nodes, roundRobin, pattern, selector, attempts, picks, clock, f);
    var attempt := if f < |attempts| then attempts[f] else Connected;
    var pick := if f < |picks| then picks[f] else 0;
    var now, answered, check := Reading(clock, 3 * f), Reading(clock, 3 * f + 1), Reading(clock, 3 * f + 2);
    var i := RoundOfExact(options, nodes, roundRobin, pattern, selector, attempt, pick, now, answered, check);
    var (o, after, next) := RoundOf(options, nodes, roundRobin, pattern, selector, attempt, pick, now, answered, check);
    GaveUpFailed(nodes, after, i, pattern, options, attempt, now, answered, check, o);
    hide RoundOf, Round, Answers, Steady, Reading, Unique, Call;
    RoundKeeps(nodes0, nodes, after, i, pattern, options, attempts, clock, f, o);
    if o.None? {
      CallAnswers(options, nodes0, after, next, pattern, selector, attempts, picks, clock, f + 1);
    }
  }

  lemma GaveUpFailed(before: seq<Node>, after: seq<Node>, i: nat, pattern: string, options: Options, attempt: Attempt,
                     now: nat, answered: nat, check: nat, o: Option<Outcome>)
    requires Round(before, after, i, pattern, options, attempt, now, answered, check, o)
    ensures o == Some(GaveUp) ==> attempt.Failed?
  {
    hide Matching, Accepts, AfterFailure, AfterSuccess;
  }

  lemma FirstRound(nodes: seq<Node>, pattern: string, options: Options, clock: seq<nat>, n: nat)
    ensures Between(nodes, nodes, pattern, options, clock, n, 0)
  {
  }

  // ------------------------------------------------- when retries are bounded

  /** Every call fails at most as often as the budget allows, whatever the clock, the
      selector, its choices and the answers. */
  ghost predicate RetriesBounded(options: Options, nodes: seq<Node>, pattern: string) {
    forall roundRobin: nat, selector, attempts, picks, clock ::
      Steady(clock) ==>
        Call(options, nodes, roundRobin, pattern, selector, attempts, picks, clock, 0).failures
        <= Budget(nodes, pattern, options.threshold, 0)
  }

  lemma {:induction false} OnlineBudget(nodes: seq<Node>, pattern: string, threshold: nat, now: nat)
    requires AllOnline(nodes, 0)
    ensures AllOnline(nodes, now)
    ensures Budget(nodes, pattern, threshold, now) == Budget(nodes, pattern, threshold, 0)
  {
    hide Accepts;
    if nodes != [] {
      OnlineBudget(nodes[1..], pattern, threshold, now);
    }
  }

  lemma BoundedCall(options: Options, nodes: seq<Node>, roundRobin: nat, pattern: string, selector: Selector,
                    attempts: seq<Attempt>, picks: seq<nat>, clock: seq<nat>)
    requires Unique(nodes) && AllOnline(nodes, 0) && Steady(clock) && (!options.canRetry || options.restore == 0)
    ensures Call(options, nodes, roundRobin, pattern, selector, attempts, picks, clock, 0).failures
         <= Budget(nodes, pattern, options.threshold, 0)
  {
    var start := Reading(clock, 0);
    FirstRound(nodes, pattern, options, clock, |attempts|);
    OnlineBudget(nodes, pattern, options.threshold, start);
    NothingMatches(nodes, pattern, options.threshold, start);
    hide Between, Call, Matching, Budget, Reading, Steady, Unique;
    CallAnswers(options, nodes, nodes, roundRobin, pattern, selector, attempts, picks, clock, 0);
  }

  /** A clock on which every failure takes the restore time. */
  function SlowClock(restore: nat, n: nat): (clock: seq<nat>)
    requires restore > 0
    ensures Steady(clock)
  {
    Ordered(restore);
    seq(3 * n + 1, k requires 0 <= k => k * restore)
  }

  lemma Ordered(restore: nat)
    ensures forall j: nat, k: nat :: j <= k ==> j * restore <= k * restore
  {
    forall j: nat, k: nat | j <= k ensures j * restore <= k * restore {
      assert (k - j) * restore >= 0;
    }
  }

  lemma SlowIsUnhurried(options: Options, n: nat)
    requires options.restore > 0
    ensures Unhurried(options, SlowClock(options.restore, n), n)
  {
    var clock, r := SlowClock(options.restore, n), options.restore;
    forall k: nat | k < n ensures Reading(clock, 3 * k + 1) + r <= Reading(clock, 3 * k + 2) {
      assert clock[3 * k + 1] == (3 * k + 1) * r && clock[3 * k + 2] == (3 * k + 2) * r;
      assert (3 * k + 2) * r == (3 * k + 1) * r + r;
    }
  }

  /** With retries and a restore time, a call can fail any number of times: on such a
      clock every check finds the nodes restored. */
  lemma UnboundedCall(options: Options, nodes: seq<Node>, pattern: string, selector: Selector, n: nat)
    requires Unique(nodes) && AllOnline(nodes, 0) && Matching(nodes, pattern, true, 0) != []
    requires options.canRetry && options.restore > 0
    ensures Call(options, nodes, 0, pattern, selector, AllFailed(n), [], SlowClock(options.restore, n), 0).failures == n
  {
    var clock := SlowClock(options.restore, n);
    SlowIsUnhurried(options, n);
    FirstRound(nodes, pattern, options, clock, n);
    OnlineBudget(nodes, pattern, options.threshold, Reading(clock, 0));
    hide Between, Call, Matching, Budget, Reading, Steady, Unique, SlowClock, Unhurried;
    CallAnswers(options, nodes, nodes, 0, pattern, selector, AllFailed(n), [], clock, 0);
  }

  /** The retries of a cluster with its nodes online are bounded on every clock exactly
      when it does not retry or has no restore time. */
  lemma RetryBoundExact(options: Options, nodes: seq<Node>, pattern: string)
    requires Unique(nodes) && AllOnline(nodes, 0) && Matching(nodes, pattern, true, 0) != []
    ensures RetriesBounded(options, nodes, pattern) <==> !options.canRetry || options.restore == 0
  {
    hide Call, Budget, Matching;
    if !options.canRetry || options.restore == 0 {
      forall roundRobin: nat, selector, attempts, picks, clock | Steady(clock)
        ensures Call(options, nodes, roundRobin, pattern, selector, attempts, picks, clock, 0).failures
             <= Budget(nodes, pattern, options.threshold, 0)
      {
        BoundedCall(options, nodes, roundRobin, pattern, selector, attempts, picks, clock);
      }
    } else {
      var n := Budget(nodes, pattern, options.threshold, 0) + 1;
      UnboundedCall(options, nodes, pattern, Order, n);
    }
  }

  lemma NoneLeft(nodes: seq<Node>, pattern: string, offlineToo: bool, now: nat)
    ensures Matching(nodes[|nodes|..], pattern, offlineToo, now) == []
  {
  }

  lemma MatchingCons(nodes: seq<Node>, i: nat, pattern: string, offlineToo: bool, now: nat)
    requires i < |nodes|
    ensures Matching(nodes[i..], pattern, offlineToo, now) ==
      (if Selected(nodes[i], pattern, offlineToo, now) then [nodes[i].id] else []) +
      Matching(nodes[i + 1..], pattern, offlineToo, now)
  {
    assert nodes[i..][1..] == nodes[i + 1..];
  }

  class PoolCluster {
    const options: Options
    /** The node map in key order. */
    var nodes: seq<Node>
    var roundRobin: nat

    ghost predicate Valid()
      reads this
    {
      Unique(nodes) && (options.restore == 0 ==> AllOnline(nodes, 0))
    }

    constructor (options: Options, nodes: seq<Node>)
      requires Unique(nodes) && (options.restore == 0 ==> AllOnline(nodes, 0))
      ensures Valid() && this.options == options && this.nodes == nodes
    {
      this.options, this.nodes := options, nodes;
      roundRobin := 0;
    }

    /** `matching_node_ids` */
    method MatchingNodeIds(pattern: string, offlineToo: bool, now: nat) returns (ids: seq<string>)
      ensures ids == Matching(nodes, pattern, offlineToo, now)
    {
      ids := [];
      hide Accepts, Matching;
      assert nodes[0..] == nodes;
      NoneLeft(nodes, pattern, offlineToo, now);
      for i := 0 to |nodes|
        invariant Matching(nodes, pattern, offlineToo, now) == ids + Matching(nodes[i..], pattern, offlineToo, now)
      {
        MatchingCons(nodes, i, pattern, offlineToo, now);
        var accepted := WildcardMatch(pattern, nodes[i].id);
        if !accepted {
          continue;
        }
        if !offlineToo && nodes[i].offlineUntil != 0 && nodes[i].offlineUntil > now {
          continue;
        }
        ids := ids + [nodes[i].id];
      }
    }

    /** `select_node` among the nodes that are online; a random selector picks any
        place. */
    method SelectNode(pattern: string, selector: Selector, now: nat, pick: nat) returns (id: Option<string>)
      modifies this`roundRobin
      ensures var ids := Matching(nodes, pattern, false, now);
        && (id.None? <==> ids == [])
        && (id.Some? ==> id.value in ids && id.value == Choice(ids, selector, old(roundRobin), pick))
        && roundRobin == if id.Some? then RoundRobinAfter(selector, old(roundRobin)) else old(roundRobin)
    {
      var ids := MatchingNodeIds(pattern, false, now);
      if ids == [] {
        return None;
      }
      match selector
      case Order => id := Some(ids[0]);
      case Random => id := Some(ids[pick % |ids|]);
      case RoundRobin =>
        id := Some(ids[roundRobin % |ids|]);
        roundRobin := roundRobin + 1;
    }

    /** `nodes_.find(id)` for an id that is there. */
    method Find(id: string) returns (i: nat)
      requires IndexOf(nodes, id) < |nodes|
      ensures i == IndexOf(nodes, id)
    {
      i := 0;
      while nodes[i].id != id
        invariant i <= IndexOf(nodes, id)
        decreases |nodes| - i
      {
        i := i + 1;
      }
    }

    /** `increase_error_count` */
    method IncreaseErrorCount(i: nat, now: nat)
      requires Valid() && i < |nodes|
      modifies this`nodes
      ensures Valid() && nodes == AfterFailure(old(nodes), i, options, now)
    {
      UniqueAfter(nodes, i, options, now);
      NoneSentOffline(nodes, i, options, now, 0);
      hide AllOnline, Unique;
      var node := nodes[i].(errors := nodes[i].errors + 1);
      if node.errors < options.threshold {
        nodes := nodes[i := node];
        return;
      }
      if options.restore > 0 {
        nodes := nodes[i := node.(offlineUntil := now + options.restore)];
      } else {
        nodes := nodes[..i] + nodes[i + 1..];
      }
    }

    /** `decrease_error_count` */
    method DecreaseErrorCount(i: nat, now: nat)
      requires Valid() && i < |nodes|
      modifies this`nodes
      ensures Valid() && nodes == AfterSuccess(old(nodes), i, now)
      ensures |nodes| == |old(nodes)| && forall j :: 0 <= j < |nodes| && j != i ==> nodes[j] == old(nodes)[j]
      ensures nodes[i].id == old(nodes)[i].id
      ensures nodes[i].errors == if old(nodes)[i].errors > 0 then old(nodes)[i].errors - 1 else 0
      ensures nodes[i].offlineUntil == if Online(old(nodes)[i], now) then 0 else old(nodes)[i].offlineUntil
    {
      var node := nodes[i];
      if node.errors > 0 {
        node := node.(errors := node.errors - 1);
      }
      if node.offlineUntil != 0 && node.offlineUntil <= now {
        node := node.(offlineUntil := 0);
      }
      nodes := nodes[i := node];
    }

    /** One round of `get_connection`. */
    method TryOnce(pattern: string, selector: Selector, attempt: Attempt, pick: nat, now: nat, answered: nat, check: nat)
      returns (o: Option<Outcome>)
      requires Valid()
      modifies this
      ensures Valid()
      ensures (o, nodes, roundRobin) ==
        RoundOf(options, old(nodes), old(roundRobin), pattern, selector, attempt, pick, now, answered, check)
    {
      hide Accepts, Matching, AfterFailure, AfterSuccess, Choice, IndexOf, Unique, AllOnline;
      var id := SelectNode(pattern, selector, now, pick);
      if id.None? {
        var all := MatchingNodeIds(pattern, true, now);
        return Some(if all == [] then NoMatch else NoneOnline);
      }
      SelectedFound(nodes, pattern, now, id.value);
      var i := Find(id.value);
      match attempt
      case Connected =>
        DecreaseErrorCount(i, answered);
        o := Some(Got(id.value));
      case OtherException =>
        o := Some(Escaped);
      case Failed =>
        IncreaseErrorCount(i, answered);
        if options.canRetry {
          var ids := MatchingNodeIds(pattern, false, check);
          if ids != [] {
            return None;
          }
        }
        o := Some(GaveUp);
    }

    /** `get_connection`, whatever the selector picks and however the pools answer. */
    method GetConnection(pattern: string, selector: Selector, attempts: seq<Attempt>, picks: seq<nat>, clock: seq<nat>)
      returns (o: Outcome, failures: nat)
      requires Valid() && Steady(clock)
      modifies this
      ensures Valid() && failures <= |attempts|
      ensures Called(o, nodes, failures, roundRobin) ==
        Call(options, old(nodes), old(roundRobin), pattern, selector, attempts, picks, clock, 0)
      ensures Answers(old(nodes), nodes, pattern, options, attempts, clock, o, failures)
      ensures options.restore == 0 && options.canRetry && o.GaveUp? ==> Matching(nodes, pattern, true, 0) == []
    {
      hide Call, RoundOf, Between, Answers, Steady, Reading, Matching, Unique, AllOnline;
      failures := 0;
      var n := |attempts|;
      ghost var all := Call(options, nodes, roundRobin, pattern, selector, attempts, picks, clock, 0);
      FirstRound(nodes, pattern, options, clock, n);
      CallAnswers(options, nodes, nodes, roundRobin, pattern, selector, attempts, picks, clock, 0);
      CallRemoves(options, nodes, pattern, attempts, clock, all);
      while true
        invariant Valid() && failures <= n
        invariant all == Call(options, nodes, roundRobin, pattern, selector, attempts, picks, clock, failures)
        decreases n - failures
      {
        CallStep(options, nodes, roundRobin, pattern, selector, attempts, picks, clock, failures);
        var attempt := if failures < n then attempts[failures] else Connected;
        var pick := if failures < |picks| then picks[failures] else 0;
        var k := 3 * failures;
        var result :=
          TryOnce(pattern, selector, attempt, pick, Reading(clock, k), Reading(clock, k + 1), Reading(clock, k + 2));
        if result.Some? && !result.value.GaveUp? {
          return result.value, failures;
        }
        failures := failures + 1;
        if result.Some? {
          return GaveUp, failures;
        }
      }
    }

    static lemma CallRemoves(options: Options, nodes: seq<Node>, pattern: string, attempts: seq<Attempt>, clock: seq<nat>, c: Called)
      requires Answers(nodes, c.nodes, pattern, options, attempts, clock, c.outcome, c.failures)
      requires options.restore == 0 ==> AllOnline(nodes, 0)
      ensures options.restore == 0 && options.canRetry && c.outcome.GaveUp? ==> Matching(c.nodes, pattern, true, 0) == []
    {
      hide Matching, Budget, Reading;
    }
  }
}
