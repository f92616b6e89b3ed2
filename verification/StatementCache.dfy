/** The prepared-statement cache of a connection, bounded and evicted in least
    recently used order, with the statements the server keeps open. */
module StatementCache {
  import opened Bytes
  import opened DistinctLists
  import opened Lru

  datatype Statement = Statement(id: nat, sql: string)

  /** The server's side: the statement ids it keeps open, and every STMT_CLOSE it
      has been sent. Ids start at 1 and are never given out twice. */
  class Server {
    var open: set<nat>
    var closes: seq<nat>
    var nextId: nat

    ghost predicate Valid()
      reads this
    {
      nextId >= 1 && forall i :: i in open ==> 1 <= i < nextId
    }

    constructor ()
      ensures Valid() && open == {} && closes == []
    {
      open, closes, nextId := {}, [], 1;
    }

    method Prepare() returns (id: nat)
      requires Valid()
      modifies this`open, this`nextId
      ensures Valid() && id >= 1 && id !in old(open) && open == old(open) + {id}
    {
      id := nextId;
      open := open + {id};
      nextId := nextId + 1;
    }

    method Close(id: nat)
      requires Valid()
      modifies this`open, this`closes
      ensures Valid() && open == old(open) - {id} && closes == old(closes) + [id]
    {
      open := open - {id};
      closes := closes + [id];
    }

    /** A new session: nothing is open. */
    method Restart()
      requires Valid()
      modifies this`open
      ensures Valid() && open == {}
    {
      open := {};
    }
  }

  /** The list names exactly the cached statements, once each, and no two of them
      share a server id. */
  ghost predicate Lists(lru: seq<string>, cache: map<string, Statement>) {
    && NoDuplicates(lru)
    && (forall k :: k in lru <==> k in cache)
    && (forall k :: k in cache ==> cache[k].sql == k && cache[k].id != 0)
    && (forall j, k :: j in cache && k in cache && cache[j].id == cache[k].id ==> j == k)
  }

  function Ids(cache: map<string, Statement>): (ids: set<nat>)
    ensures forall k :: k in cache ==> cache[k].id in ids
  {
    set k | k in cache :: cache[k].id
  }

  lemma {:induction false} EraseKey(lru: seq<string>, cache: map<string, Statement>, key: string)
    requires Lists(lru, cache) && key in cache
    ensures Lists(Without(lru, key), cache - {key})
    ensures Ids(cache - {key}) == Ids(cache) - {cache[key].id}
    ensures |Without(lru, key)| == |lru| - 1
  {
    WithoutFacts(lru, key);
    hide Without, NoDuplicates;
    forall id ensures id in Ids(cache - {key}) <==> id in Ids(cache) && id != cache[key].id {
      if id in Ids(cache) && id != cache[key].id {
        var k :| k in cache && cache[k].id == id;
        assert k in cache - {key} && (cache - {key})[k].id == id;
      }
    }
  }

  lemma FirstKey(lru: seq<string>, cache: map<string, Statement>)
    requires Lists(lru, cache) && lru != []
    ensures lru[0] in cache && Without(lru, lru[0]) == lru[1..]
  {
    WithoutAt(lru, 0);
  }

  lemma AddKey(lru: seq<string>, cache: map<string, Statement>, statement: Statement)
    requires Lists(lru, cache) && statement.sql !in cache && statement.id != 0 && statement.id !in Ids(cache)
    ensures Lists(lru + [statement.sql], cache[statement.sql := statement])
    ensures Ids(cache[statement.sql := statement]) == Ids(cache) + {statement.id}
  {
    var cache' := cache[statement.sql := statement];
    assert cache'[statement.sql].id in Ids(cache');
    forall id ensures id in Ids(cache') <==> id in Ids(cache) || id == statement.id {
      if id in Ids(cache) {
        var k :| k in cache && cache[k].id == id;
        assert k in cache' && cache'[k].id == id;
      }
    }
  }

  /** Using a key again moves it to the end. */
  lemma MoveKey(lru: seq<string>, cache: map<string, Statement>, key: string)
    requires Lists(lru, cache) && key in cache
    ensures Lists(Without(lru, key) + [key], cache) && |Without(lru, key) + [key]| == |lru|
  {
    WithoutFacts(lru, key);
  }

  lemma Sizes(lru: seq<string>, cache: map<string, Statement>)
    requires Lists(lru, cache)
    ensures |cache| == |lru|
  {
    Cardinality(lru);
    assert Elements(lru) == cache.Keys;
  }

  class Connection {
    const server: Server
    const max: nat
    var cache: map<string, Statement>
    var lru: seq<string>
    /** Whether a query stream is active; then no command can be sent. */
    var streaming: bool
    /** Statements that callers prepared and have not closed. */
    ghost var explicit: set<nat>
    /** Statements that left the cache without being closed. */
    ghost var lost: set<nat>
    /** What was asked of the cache so far. */
    ghost var history: seq<Op<string>>

    /** Every statement that the server keeps open is accounted for. */
    ghost predicate Tracked()
      reads this, server
    {
      && server.Valid() && Lists(lru, cache)
      && |lru| <= max
      && Ids(cache) !! explicit && Ids(cache) !! lost
      && server.open == Ids(cache) + explicit + lost
    }

    ghost predicate Valid()
      reads this, server
    {
      Tracked() && lru == KeysOf(history, max)
    }

    /** What the cache is for: the server keeps open what is cached or was prepared
        by callers, and nothing else. */
    ghost predicate Exact()
      reads this, server
    {
      server.open == Ids(cache) + explicit
    }

    constructor (server: Server, max: nat)
      requires server.Valid() && server.open == {}
      ensures Valid() && Exact() && this.server == server && this.max == max && !streaming
      ensures lru == [] && cache == map[] && explicit == {} && history == []
    {
      this.server, this.max, streaming := server, max, false;
      cache, lru, explicit, lost, history := map[], [], {}, {}, [];
    }

    /** `query_stream`: refused while another stream is active. */
    method StartStream() returns (ok: bool)
      modifies this`streaming
      ensures streaming && (ok <==> !old(streaming))
    {
      ok := !streaming;
      streaming := true;
    }

    /** The stream ends or is abandoned. */
    method FinishStream()
      modifies this`streaming
      ensures !streaming
    {
      streaming := false;
    }

    /** `prepare`; the server may refuse, and a stream is in the way. */
    method Prepare(sql: string, refused: bool) returns (r: Result<Statement, ()>)
      requires Valid()
      modifies this`explicit, server`open, server`nextId
      ensures Valid() && (r.Err? <==> refused || streaming)
      ensures r.Err? ==> explicit == old(explicit) && server.open == old(server.open)
      ensures r.Ok? ==>
        && r.value.sql == sql && r.value.id != 0 && r.value.id !in old(server.open)
        && explicit == old(explicit) + {r.value.id} && server.open == old(server.open) + {r.value.id}
    {
      hide NoDuplicates, Ids, KeysOf;
      if streaming || refused {
        return Err(());
      }
      var id := server.Prepare();
      explicit := explicit + {id};
      r := Ok(Statement(id, sql));
    }

    /** `close_statement(statement)`: refused while a stream is active, whatever the
        id; else, unless the id is 0, one STMT_CLOSE, and no cached statement keeps
        that id. */
    method CloseStatement(statement: Statement) returns (ok: bool)
      requires Tracked()
      modifies this`cache, this`lru, this`explicit, this`lost, this`history, server`open, server`closes
      ensures Tracked() && (old(Valid()) ==> Valid()) && (old(Exact()) ==> Exact())
      ensures ok <==> !streaming
      ensures !ok || statement.id == 0 ==> unchanged(this) && unchanged(server)
      ensures statement.id !in Ids(old(cache)) ==> cache == old(cache) && lru == old(lru) && history == old(history)
      ensures ok ==> forall k :: k in old(cache) && old(cache)[k].id == statement.id ==>
        cache == old(cache) - {k} && lru == Without(old(lru), k) && history == old(history) + [Closed(k)]
      ensures ok && statement.id != 0 ==>
        && server.open == old(server.open) - {statement.id}
        && server.closes == old(server.closes) + [statement.id]
        && explicit == old(explicit) - {statement.id} && lost == old(lost) - {statement.id}
    {
      hide Without, NoDuplicates, Ids, KeysOf;
      if streaming {
        return false;
      }
      if statement.id == 0 {
        NoZero(lru, cache);
        return true;
      }
      ForgetId(statement.id);
      server.Close(statement.id);
      explicit, lost := explicit - {statement.id}, lost - {statement.id};
      ok := true;
    }

    static lemma NoZero(lru: seq<string>, cache: map<string, Statement>)
      requires Lists(lru, cache)
      ensures 0 !in Ids(cache)
    {
    }

    /** The loop of `close_statement` over the whole cache. */
    method ForgetId(id: nat)
      requires Lists(lru, cache)
      modifies this`cache, this`lru, this`history
      ensures Lists(lru, cache)
      ensures id !in Ids(old(cache)) ==> cache == old(cache) && lru == old(lru) && history == old(history)
      ensures forall k :: k in old(cache) && old(cache)[k].id == id ==>
        cache == old(cache) - {k} && lru == Without(old(lru), k) && history == old(history) + [Closed(k)]
      ensures Ids(cache) == Ids(old(cache)) - {id} && |lru| <= |old(lru)|
      ensures old(lru) == KeysOf(old(history), max) ==> lru == KeysOf(history, max)
    {
      ghost var cache0, lru0, history0 := cache, lru, history;
      var left := cache.Keys;
      hide Without, NoDuplicates, KeysOf;
      while left != {}
        invariant left <= cache0.Keys && Lists(lru, cache)
        invariant (forall k :: k in cache0 && cache0[k].id == id ==> k in left) ==>
          cache == cache0 && lru == lru0 && history == history0
        invariant forall k :: k in cache0 && cache0[k].id == id && k !in left ==>
          cache == cache0 - {k} && lru == Without(lru0, k) && history == history0 + [Closed(k)]
        decreases left
      {
        var key :| key in left;
        if key in cache && cache[key].id == id {
          EraseKey(lru, cache, key);
          lru := Without(lru, key);
          cache := cache - {key};
          history := history + [Closed(key)];
        }
        left := left - {key};
      }
      if id in Ids(cache0) {
        ghost var k :| k in cache0 && cache0[k].id == id;
        EraseKey(lru0, cache0, k);
        KeysSnoc(history0, max, Closed(k));
      }
    }

    static lemma KeysSnoc(history: seq<Op<string>>, max: nat, op: Op<string>)
      ensures KeysOf(history + [op], max) == Apply(KeysOf(history, max), max, op)
    {
      assert (history + [op])[..|history|] == history;
    }

    /** `close_statement(sql)`: the entry is erased first and the statement closed
        after that, which an active stream refuses. */
    method CloseSql(sql: string) returns (ok: bool)
      requires Valid()
      modifies this`cache, this`lru, this`explicit, this`lost, this`history, server`open, server`closes
      ensures Valid() && (ok <==> !(streaming && sql in old(cache)))
      ensures sql !in old(cache) ==> cache == old(cache) && lru == old(lru) && history == old(history)
      ensures sql !in old(cache) || !ok ==> server.closes == old(server.closes) && server.open == old(server.open)
      ensures sql in old(cache) ==>
        && cache == old(cache) - {sql} && lru == Without(old(lru), sql) && history == old(history) + [Closed(sql)]
      ensures sql in old(cache) && ok ==>
        && server.closes == old(server.closes) + [old(cache)[sql].id]
        && server.open == old(server.open) - {old(cache)[sql].id}
      ensures explicit == old(explicit)
      ensures lost == if ok then old(lost) else old(lost) + {old(cache)[sql].id}
      // exactly then does the server keep a statement open that nothing names
      ensures old(Exact()) ==> (Exact() <==> ok)
    {
      hide Without, NoDuplicates, Ids, KeysOf;
      if sql !in cache {
        return true;
      }
      var statement := cache[sql];
      EraseKey(lru, cache, sql);
      KeysSnoc(history, max, Closed(sql));
      lru := Without(lru, sql);
      cache := cache - {sql};
      history := history + [Closed(sql)];
      lost := lost + {statement.id};
      ok := CloseStatement(statement);
    }

    /** One turn of the eviction loop: the least recently used statement leaves the
        cache and is closed. */
    method EvictFirst()
      requires Tracked() && !streaming && lru != []
      modifies this`cache, this`lru, this`explicit, this`lost, this`history, server`open, server`closes
      ensures Tracked() && (old(Exact()) ==> Exact())
      ensures lru == old(lru)[1..] && old(lru)[0] in old(cache) && cache == old(cache) - {old(lru)[0]}
      ensures var id := old(cache)[old(lru)[0]].id;
        && Ids(cache) == Ids(old(cache)) - {id} && id in Ids(old(cache))
        && server.open == old(server.open) - {id} && server.closes == old(server.closes) + [id]
      ensures explicit == old(explicit) && lost == old(lost) && history == old(history)
    {
      hide Without, NoDuplicates, Ids;
      var key := lru[0];
      FirstKey(lru, cache);
      EraseKey(lru, cache, key);
      lru := lru[1..];
      var statement := cache[key];
      cache := cache - {key};
      lost := lost + {statement.id};
      var _ := CloseStatement(statement);
    }

    /** `prepare_cached`: a hit needs no command and succeeds even beside a stream. */
    method PrepareCached(sql: string, refused: bool) returns (r: Result<Statement, ()>)
      requires Valid()
      modifies this`cache, this`lru, this`explicit, this`lost, this`history
      modifies server`open, server`nextId, server`closes
      ensures Valid() && (old(Exact()) ==> Exact())
      ensures r.Err? <==> sql !in old(cache) && (refused || streaming)
      ensures r.Err? ==> cache == old(cache) && lru == old(lru) && server.open == old(server.open)
      ensures history == if r.Ok? then old(history) + [Request(sql)] else old(history)
      // a hit gives the cached statement and only reorders
      ensures sql in old(cache) ==> r == Ok(old(cache)[sql]) && cache == old(cache) && server.open == old(server.open)
      ensures r.Ok? ==> r.value.sql == sql && r.value.id in server.open && lru == KeysAfter(old(lru), max, sql)
      ensures r.Ok? && max > 0 ==> explicit == old(explicit) && sql in cache && cache[sql] == r.value
      ensures r.Ok? && max > 0 ==> forall k :: k in cache && k != sql ==> k in old(cache) && cache[k] == old(cache)[k]
      ensures r.Ok? && max == 0 ==> explicit == old(explicit) + {r.value.id}
      // exactly one STMT_CLOSE, and only when a full cache misses
      ensures server.closes == old(server.closes) + Evicted(old(lru), old(cache), max, sql, r.Ok?)
    {
      hide Without, NoDuplicates, Ids, KeysOf, LastN;
      KeysSnoc(history, max, Request(sql));
      if sql in cache {
        assert cache[sql].id in Ids(cache);
        TouchKey(sql);
        return Ok(cache[sql]);
      }
      r := PrepareMissing(sql, refused);
      if r.Ok? {
        history := history + [Request(sql)];
      }
    }

    /** `touch_lru_key` */
    method TouchKey(sql: string)
      requires Valid() && sql in cache
      modifies this`lru, this`history
      ensures Valid() && lru == KeysAfter(old(lru), max, sql) && history == old(history) + [Request(sql)]
    {
      hide Without, NoDuplicates, Ids, KeysOf;
      KeysSnoc(history, max, Request(sql));
      MoveKey(lru, cache, sql);
      lru := Without(lru, sql) + [sql];
      history := history + [Request(sql)];
    }

    /** `prepare_cached` for a statement that is not in the cache. */
    method PrepareMissing(sql: string, refused: bool) returns (r: Result<Statement, ()>)
      requires Valid() && sql !in cache
      modifies this`cache, this`lru, this`explicit, this`lost, this`history
      modifies server`open, server`nextId, server`closes
      ensures Tracked() && (old(Exact()) ==> Exact()) && history == old(history)
      ensures r.Err? <==> refused || streaming
      ensures r.Err? ==> cache == old(cache) && lru == old(lru) && server.open == old(server.open)
      ensures r.Ok? ==> r.value.sql == sql && r.value.id in server.open
      ensures r.Ok? ==> lru == if max == 0 then old(lru) else LastN(old(lru), max - 1) + [sql]
      ensures r.Ok? && max > 0 ==> explicit == old(explicit) && sql in cache && cache[sql] == r.value
      ensures r.Ok? && max > 0 ==> forall k :: k in cache && k != sql ==> k in old(cache) && cache[k] == old(cache)[k]
      ensures r.Ok? && max == 0 ==> explicit == old(explicit) + {r.value.id}
      ensures server.closes == old(server.closes) + Evicted(old(lru), old(cache), max, sql, r.Ok?)
    {
      hide Without, NoDuplicates, Ids, LastN, KeysOf;
      var statement :- Prepare(sql, refused);
      if max == 0 {
        return Ok(statement);
      }
      MakeRoom(statement.id);
      AddKey(lru, cache, statement);
      lru := lru + [sql];
      cache := cache[sql := statement];
      explicit := explicit - {statement.id};
      r := Ok(statement);
    }

    /** The ids closed by a request. */
    static ghost function Evicted(lru: seq<string>, cache: map<string, Statement>, max: nat, sql: string, ok: bool): seq<nat>
      requires Lists(lru, cache)
    {
      if ok && sql !in cache && 0 < max <= |lru| then [cache[lru[0]].id] else []
    }

    /** The eviction loop of `prepare_cached`, with one statement in hand. */
    method MakeRoom(ghost newId: nat)
      requires Tracked() && !streaming && max > 0 && newId in explicit
      modifies this`cache, this`lru, this`explicit, this`lost, this`history, server`open, server`closes
      ensures Tracked() && (old(Exact()) ==> Exact())
      ensures |lru| < max && explicit == old(explicit) && lost == old(lost) && history == old(history)
      ensures lru == LastN(old(lru), max - 1)
      ensures forall k :: k in cache ==> k in old(cache) && cache[k] == old(cache)[k]
      ensures Ids(cache) <= Ids(old(cache))
      ensures server.closes == old(server.closes) + if max <= |old(lru)| then [old(cache)[old(lru)[0]].id] else []
    {
      hide Without, NoDuplicates, Ids;
      Sizes(lru, cache);
      while |cache| >= max && lru != []
        invariant Tracked() && (old(Exact()) ==> Exact())
        invariant |cache| == |lru| && explicit == old(explicit) && lost == old(lost) && history == old(history)
        invariant lru == old(lru) || (|old(lru)| == max && lru == old(lru)[1..])
        invariant lru == old(lru) ==> cache == old(cache) && server.closes == old(server.closes)
        invariant lru != old(lru) ==>
          cache == old(cache) - {old(lru)[0]} && server.closes == old(server.closes) + [old(cache)[old(lru)[0]].id]
        invariant Ids(cache) <= Ids(old(cache))
        decreases |lru|
      {
        EvictFirst();
        Sizes(lru, cache);
      }
    }

    /** `reset`: refused beside a stream or by the server, and then nothing changes;
        else the server forgets every statement and so does the cache. */
    method Reset(refused: bool) returns (ok: bool)
      requires Valid()
      modifies this`cache, this`lru, this`explicit, this`lost, this`history, server`open
      ensures Valid() && (ok <==> !streaming && !refused)
      ensures !ok ==> unchanged(this) && unchanged(server)
      ensures ok ==> Exact() && cache == map[] && lru == [] && explicit == {} && history == old(history) + [Cleared]
    {
      if streaming || refused {
        return false;
      }
      server.Restart();
      cache, lru, explicit, lost := map[], [], {}, {};
      KeysSnoc(history, max, Cleared);
      history := history + [Cleared];
      ok := true;
    }

    /** A reconnect starts a new session but keeps the cache: afterwards the
        cached statements are the server's exactly when there are none. */
    method Reconnect()
      requires Valid()
      modifies this`explicit, this`lost, server`open
      ensures Lists(lru, cache) && cache == old(cache) && lru == old(lru) && explicit == {} && server.open == {}
      ensures Valid() <==> old(cache) == map[]
      ensures Exact() <==> old(cache) == map[]
    {
      server.Restart();
      explicit, lost := {}, {};
      if cache != map[] {
        var k :| k in cache;
        assert cache[k].id in Ids(cache);
      }
    }

    /** What is cached, told by the history alone. */
    lemma CachedFromHistory(sql: string)
      requires Valid() && max >= 1
      ensures sql in cache <==> Survives(history, max, sql)
    {
      CachedIfSurvives(history, max, sql);
    }
  }

  /** A statement is executed, a stream opened, and the statement closed by its text:
      the call fails and the server keeps a statement open that nothing names, until
      the next reset. */
  method CloseBesideStream(server: Server, sql: string, max: nat) returns (connection: Connection)
    requires server.Valid() && server.open == {} && max >= 1
    modifies server
    ensures connection.server == server && connection.Valid() && !connection.Exact()
    ensures connection.cache == map[] && connection.explicit == {} && server.closes == old(server.closes)
    ensures |server.open| == 1
  {
    connection := new Connection(server, max);
    var r := connection.PrepareCached(sql, false);
    var _ := connection.StartStream();
    assert connection.explicit == {};
    ghost var before := connection.cache;
    assert connection.lru == [sql];
    assert before.Keys == {sql};
    var ok := connection.CloseSql(sql);
    assert before - {sql} == map[];
    assert server.open == {r.value.id};
  }
}
