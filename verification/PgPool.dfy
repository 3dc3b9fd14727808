/** The connection pool: an idle queue, a map of connections in use, lazy spawning and a reset that drains the
    queue and returns what it drained. A run is any interleaving of the methods below. The pool's mutex makes
    all of them atomic but `Connect`, whose atomicity is an assumption. */
module PgPools {
  datatype BusyConnection = BusyConnection(id: nat)

  /** What `connect` reports. */
  datatype Status = Connected | PoolSizeTooSmall | AlreadyConnected | UnableToConnect | TypesNotLoaded

  const STOP_SPAWN_CONNECTIONS_ON_SIZE: int := 4

  function Min(a: int, b: int): int { if a < b then a else b }

  // ---------------------------------------------------------------- accounts

  function Ids(pool: seq<BusyConnection>): (ids: seq<nat>)
    ensures |ids| == |pool|
  {
    seq(|pool|, i requires 0 <= i < |pool| => pool[i].id)
  }

  /** The ids given out before `next`. */
  ghost function Spawned(next: nat): (ids: set<nat>)
    ensures forall id: nat :: id in ids <==> 1 <= id < next
  {
    if next <= 1 then {} else Spawned(next - 1) + {next - 1}
  }

  function NewConnections(from: nat, k: nat): (pool: seq<BusyConnection>)
    ensures |pool| == k
  {
    seq(k, i requires 0 <= i => BusyConnection(from + i))
  }

  /** How many of the first `n` attempts succeed before one fails. */
  function Successes(spawns: seq<bool>, n: nat): (k: nat)
    requires n <= |spawns|
    ensures k <= n && (k < n ==> !spawns[k]) && forall i :: 0 <= i < k ==> spawns[i]
  {
    if n == 0 then 0
    else var k := Successes(spawns, n - 1); if k == n - 1 && spawns[n - 1] then n else k
  }

  lemma {:induction false} SpawnedCount(next: nat)
    requires next >= 1
    ensures |Spawned(next)| == next - 1
  {
    if next > 1 { SpawnedCount(next - 1); }
  }

  lemma IdsPushed(pool: seq<BusyConnection>, con: BusyConnection)
    ensures Ids(pool + [con]) == Ids(pool) + [con.id]
    ensures multiset(Ids(pool + [con])) == multiset(Ids(pool)) + multiset{con.id}
  {
    assert Ids(pool + [con]) == Ids(pool) + [con.id];
  }

  lemma IdsPopped(pool: seq<BusyConnection>)
    requires |pool| > 0
    ensures multiset(Ids(pool)) == multiset{pool[0].id} + multiset(Ids(pool[1..]))
  {
    assert Ids(pool) == [pool[0].id] + Ids(pool[1..]);
  }

  /** Every connection ever spawned is idle or in use, and exactly one of the two; `out` is who has the ones
      in use. */
  ghost predicate Accounts(pool: seq<BusyConnection>, used: map<nat, BusyConnection>, next: nat, out: multiset<nat>) {
    && next >= 1
    && multiset(Ids(pool)) + out == multiset(Spawned(next)) && out == multiset(used.Keys)
    && forall id :: id in used ==> used[id].id == id
  }

  lemma AccountsSpawned(pool: seq<BusyConnection>, used: map<nat, BusyConnection>, next: nat, out: multiset<nat>)
    requires Accounts(pool, used, next, out)
    ensures Accounts(pool + [BusyConnection(next)], used, next + 1, out)
  {
    IdsPushed(pool, BusyConnection(next));
    assert multiset(Spawned(next + 1)) == multiset(Spawned(next)) + multiset{next};
  }

  lemma AccountsTaken(pool: seq<BusyConnection>, used: map<nat, BusyConnection>, next: nat, out: multiset<nat>)
    requires Accounts(pool, used, next, out) && pool != []
    ensures var con := pool[0];
      con.id !in used && Accounts(pool[1..], used[con.id := con], next, out + multiset{con.id})
  {
    EveryConnectionOnce(pool, used, next, out);
    var con := pool[0];
    IdsPopped(pool);
    hide Ids, Spawned;
    assert used[con.id := con].Keys == used.Keys + {con.id};
  }

  lemma AccountsReleased(pool: seq<BusyConnection>, used: map<nat, BusyConnection>, next: nat, out: multiset<nat>, id: nat)
    requires Accounts(pool, used, next, out) && id in out
    ensures id in used && Accounts(pool + [used[id]], used - {id}, next, out - multiset{id})
  {
    assert id in used;
    IdsPushed(pool, used[id]);
    hide Ids, Spawned;
    assert (used - {id}).Keys == used.Keys - {id};
    assert multiset(used.Keys - {id}) == multiset(used.Keys) - multiset{id};
  }

  /** What the accounts mean. */
  lemma EveryConnectionOnce(pool: seq<BusyConnection>, used: map<nat, BusyConnection>, next: nat, out: multiset<nat>)
    requires Accounts(pool, used, next, out)
    ensures forall i, j :: 0 <= i < j < |pool| ==> pool[i].id != pool[j].id
    ensures forall i :: 0 <= i < |pool| ==> pool[i].id !in used && 1 <= pool[i].id < next
    ensures forall id :: id in used ==> 1 <= id < next
    ensures forall id :: out[id] == if id in used then 1 else 0
    ensures |pool| + |used| == next - 1
  {
    var ids, all := multiset(Ids(pool)), multiset(Spawned(next));
    assert forall id :: ids[id] + out[id] == all[id] <= 1;
    forall i, j | 0 <= i < j < |pool| ensures pool[i].id != pool[j].id {
      if pool[i].id == pool[j].id { TwiceInSequence(Ids(pool), i, j); }
    }
    forall i | 0 <= i < |pool| ensures pool[i].id !in used && 1 <= pool[i].id < next {
      assert Ids(pool)[i] in ids;
      assert pool[i].id in all;
    }
    forall id | id in used ensures 1 <= id < next {
      assert id in out;
      assert id in all;
    }
    SpawnedCount(next);
    assert |ids + out| == |all|;
  }

  lemma TwiceInSequence(s: seq<nat>, i: nat, j: nat)
    requires i < j < |s| && s[i] == s[j]
    ensures multiset(s)[s[i]] >= 2
  {
    assert s == s[..j] + s[j..];
    assert s[..j][i] == s[i] && s[j..][0] == s[j];
    assert s[i] in multiset(s[..j]) && s[i] in multiset(s[j..]);
  }

  /** The map after taking a whole queue into it. */
  function Taken(used: map<nat, BusyConnection>, pool: seq<BusyConnection>): map<nat, BusyConnection>
    decreases |pool|
  {
    if pool == [] then used else Taken(used[pool[0].id := pool[0]], pool[1..])
  }

  /** Taking a queue adds exactly its connections, each under its id. */
  lemma {:induction false} TakenExactly(used: map<nat, BusyConnection>, pool: seq<BusyConnection>, id: nat)
    requires forall i, j :: 0 <= i < j < |pool| ==> pool[i].id != pool[j].id
    ensures id in Taken(used, pool) <==> id in used || exists i :: 0 <= i < |pool| && pool[i].id == id
    ensures forall i :: 0 <= i < |pool| && pool[i].id == id ==> Taken(used, pool)[id] == pool[i]
    ensures id in used && (forall i :: 0 <= i < |pool| ==> pool[i].id != id) ==> Taken(used, pool)[id] == used[id]
    decreases |pool|
  {
    if pool != [] {
      var con, rest := pool[0], pool[1..];
      TakenExactly(used[con.id := con], rest, id);
      assert forall i :: 0 < i < |pool| ==> pool[i] == rest[i - 1];
    }
  }

  lemma {:induction false} TakenKeeps(used: map<nat, BusyConnection>, con: BusyConnection, pool: seq<BusyConnection>)
    requires forall i :: 0 <= i < |pool| ==> pool[i].id != con.id
    ensures Taken(used[con.id := con], pool) == Taken(used, pool)[con.id := con]
    ensures con.id !in used ==> con.id !in Taken(used, pool)
    decreases |pool|
  {
    if pool != [] {
      var first := pool[0];
      assert used[con.id := con][first.id := first] == used[first.id := first][con.id := con];
      TakenKeeps(used[first.id := first], con, pool[1..]);
    }
  }

  /** Releasing the first connection taken leaves the map as if it had not been taken. */
  lemma TakenReleased(used: map<nat, BusyConnection>, pool: seq<BusyConnection>)
    requires pool != [] && pool[0].id !in used && forall i :: 0 < i < |pool| ==> pool[i].id != pool[0].id
    ensures var con := pool[0];
      && con.id in Taken(used, pool) && Taken(used, pool)[con.id] == con
      && Taken(used, pool) - {con.id} == Taken(used, pool[1..])
  {
    TakenKeeps(used, pool[0], pool[1..]);
  }

  class PgPool {
    var connPool: seq<BusyConnection>
    var usedConnections: map<nat, BusyConnection>
    var nextConId: nat
    var maxPoolSize: int
    /** The state of the pool's callers: the connections clients hold, and those a reset has drained and not yet
        returned. */
    var held: multiset<nat>
    var returning: multiset<nat>
    /** The connections taken out for a caller who got an exception instead. */
    ghost var leaked: multiset<nat>
    /** The last attempt to spawn a connection failed, or there was none. */
    ghost var spawnFailed: bool

    /** Every connection in use has exactly one holder. */
    ghost predicate Balanced()
      reads `connPool, `usedConnections, `nextConId, `held, `returning, `leaked
    {
      Accounts(connPool, usedConnections, nextConId, held + returning + leaked)
    }

    ghost predicate Valid()
      reads this
    {
      && Balanced()
      && (connPool == [] ==> Total() >= maxPoolSize || returning != multiset{} || spawnFailed)
    }

    ghost function Snapshot(): State
      reads this
    {
      State(connPool, usedConnections, nextConId, maxPoolSize, held, returning, leaked, spawnFailed)
    }

    function Total(): nat
      reads `connPool, `usedConnections
    {
      |connPool| + |usedConnections|
    }

    predicate Within()
      reads `connPool, `usedConnections, `maxPoolSize
    {
      Total() <= maxPoolSize
    }

    constructor ()
      ensures Valid() && Within() && connPool == [] && usedConnections == map[]
      ensures held == returning == leaked == multiset{}
      ensures nextConId == maxPoolSize == 1 && spawnFailed
    {
      connPool := [];
      usedConnections := map[];
      nextConId := 1;
      maxPoolSize := 1;
      held, returning, leaked := multiset{}, multiset{}, multiset{};
      spawnFailed := true;
      assert Spawned(1) == {};
    }

    /** A successful `conSpawner_` and the push after it. */
    method PushSpawned()
      requires Balanced()
      modifies `connPool, `nextConId
      ensures Balanced()
      ensures connPool == old(connPool) + [BusyConnection(old(nextConId))] && nextConId == old(nextConId) + 1
    {
      AccountsSpawned(connPool, usedConnections, nextConId, held + returning + leaked);
      hide Accounts;
      connPool := connPool + [BusyConnection(nextConId)];
      nextConId := nextConId + 1;
    }

    /** Takes the first idle connection; the caller says on whose behalf. */
    method TakeFront(byReset: bool) returns (con: BusyConnection)
      requires Balanced() && connPool != []
      modifies `connPool, `usedConnections, `held, `returning
      ensures Balanced() && con == old(connPool)[0] && con.id !in old(usedConnections)
      ensures connPool == old(connPool)[1..] && usedConnections == old(usedConnections)[con.id := con]
      ensures if byReset then held == old(held) && returning == old(returning) + multiset{con.id}
              else held == old(held) + multiset{con.id} && returning == old(returning)
      ensures Total() == old(Total())
    {
      ghost var out := held + returning + leaked;
      AccountsTaken(connPool, usedConnections, nextConId, out);
      hide Accounts;
      con := connPool[0];
      connPool := connPool[1..];
      usedConnections := usedConnections[con.id := con];
      if byReset { returning := returning + multiset{con.id}; } else { held := held + multiset{con.id}; }
      assert held + returning + leaked == out + multiset{con.id};
    }

    /** `connect`, up to loading the type names; `spawns` is which attempts to open a connection succeed. On a
        pool whose connections are all in use a second call goes through, and the limit is kept exactly when
        the connections in use and the new ones fit. */
    method Connect(poolSize: int, spawns: seq<bool>) returns (status: Status)
      requires Valid() && |spawns| >= STOP_SPAWN_CONNECTIONS_ON_SIZE
      modifies this
      ensures Valid() && usedConnections == old(usedConnections)
      ensures held == old(held) && returning == old(returning) && leaked == old(leaked)
      ensures status == PoolSizeTooSmall <==> poolSize < 1
      ensures status == AlreadyConnected <==> poolSize >= 1 && old(connPool) != []
      ensures status != TypesNotLoaded
      ensures status in {PoolSizeTooSmall, AlreadyConnected} ==>
        connPool == old(connPool) && maxPoolSize == old(maxPoolSize) && nextConId == old(nextConId)
      ensures status in {Connected, UnableToConnect} ==>
        var n := Min(poolSize, STOP_SPAWN_CONNECTIONS_ON_SIZE);
        var k := Successes(spawns, n);
        && maxPoolSize == poolSize && connPool == NewConnections(old(nextConId), k) && nextConId == old(nextConId) + k
        && (status == Connected <==> forall i :: 0 <= i < n ==> spawns[i])
        && (forall i :: 0 <= i < k ==> connPool[i].id == old(nextConId) + i)
        && (status == Connected ==> |connPool| == if poolSize < 4 then poolSize else 4)
        && (status == Connected ==> (Within() <==> |old(usedConnections)| + n <= poolSize))
      ensures spawnFailed == match status
        case Connected => false
        case UnableToConnect => true
        case _ => old(spawnFailed)
    {
      if poolSize < 1 { return PoolSizeTooSmall; }
      if |connPool| > 0 { return AlreadyConnected; }
      maxPoolSize := poolSize;
      var curPoolSize := Min(poolSize, STOP_SPAWN_CONNECTIONS_ON_SIZE);
      ghost var from := nextConId;
      hide Accounts, NewConnections, Balanced;
      NoConnections(from);
      for i := 0 to curPoolSize
        invariant unchanged(`usedConnections, `held, `returning, `leaked) && maxPoolSize == poolSize
        invariant Balanced()
        invariant Successes(spawns, i) == i && connPool == NewConnections(from, i) && nextConId == from + i
      {
        if !spawns[i] {
          spawnFailed := true;
          SuccessesStop(spawns, i, curPoolSize);
          NewIds(from, i);
          return UnableToConnect;
        }
        OneMoreConnection(from, i);
        PushSpawned();
      }
      NewIds(from, curPoolSize);
      spawnFailed := false;
      status := Connected;
    }

    /** `getUnusedConnection`, once it does not have to wait. `spawns` is whether a connection can be opened;
        when one is needed and cannot be, the caller gets an exception and the connection it was to get stays in
        use for good. */
    method GetUnusedConnection(spawns: bool) returns (threw: bool, con: BusyConnection)
      requires Valid() && connPool != []
      modifies this
      ensures Valid() && con == old(connPool)[0] && con.id !in old(usedConnections)
      ensures usedConnections == old(usedConnections)[con.id := con] && maxPoolSize == old(maxPoolSize)
      ensures var spawning := |old(connPool)| == 1 && old(Total()) < maxPoolSize;
        && (threw <==> spawning && !spawns)
        && connPool == (if spawning && spawns then [BusyConnection(old(nextConId))] else old(connPool)[1..])
        && nextConId == (if spawning && spawns then old(nextConId) + 1 else old(nextConId))
        && spawnFailed == (if spawning then !spawns else old(spawnFailed))
      ensures returning == old(returning)
      ensures if threw then held == old(held) && leaked == old(leaked) + multiset{con.id}
              else held == old(held) + multiset{con.id} && leaked == old(leaked)
      ensures (Within() <==> old(Within())) && Total() == old(Total()) + if nextConId > old(nextConId) then 1 else 0
    {
      hide Accounts, Balanced;
      con := TakeFront(false);
      var totalConnsCount := |connPool| + |usedConnections|;
      threw := false;
      if connPool == [] {
        if totalConnsCount < maxPoolSize {
          if spawns {
            PushSpawned();
            spawnFailed := false;
          } else {
            Leak(con.id);
            threw := true;
          }
        }
      }
    }

    /** The exception leaves the connection in use without a holder. */
    method Leak(id: nat)
      requires Balanced() && id in held
      modifies `held, `leaked, `spawnFailed
      ensures Balanced() && spawnFailed
      ensures held == old(held) - multiset{id} && leaked == old(leaked) + multiset{id}
    {
      hide Accounts;
      ghost var out := held + returning + leaked;
      held := held - multiset{id};
      leaked := leaked + multiset{id};
      spawnFailed := true;
      assert held + returning + leaked == out;
    }

    /** `releaseConnection`, by a client who holds the connection or by a reset that drained it. */
    method ReleaseConnection(conId: nat, byReset: bool)
      requires Valid() && conId in if byReset then returning else held
      modifies `connPool, `usedConnections, `held, `returning
      ensures Valid() && conId in old(usedConnections) && Total() == old(Total())
      ensures connPool == old(connPool) + [old(usedConnections)[conId]]
      ensures usedConnections == old(usedConnections) - {conId}
      ensures if byReset then held == old(held) && returning == old(returning) - multiset{conId}
              else held == old(held) - multiset{conId} && returning == old(returning)
    {
      ghost var out := held + returning + leaked;
      AccountsReleased(connPool, usedConnections, nextConId, out, conId);
      hide Accounts;
      connPool := connPool + [usedConnections[conId]];
      usedConnections := usedConnections - {conId};
      if byReset { returning := returning - multiset{conId}; } else { held := held - multiset{conId}; }
      assert held + returning + leaked == out - multiset{conId};
    }

    /** The part of `checkAndResetAllConnections` done under the mutex: everything idle is taken. */
    method Drain() returns (idsVec: seq<nat>)
      requires Valid()
      modifies `connPool, `usedConnections, `held, `returning
      ensures Valid() && Total() == old(Total()) && held == old(held)
      ensures connPool == [] && usedConnections == Taken(old(usedConnections), old(connPool))
      ensures idsVec == Ids(old(connPool)) && returning == old(returning) + multiset(idsVec)
    {
      hide Accounts;
      idsVec := [];
      ghost var was := connPool;
      while connPool != []
        invariant Balanced() && Total() == old(Total()) && held == old(held)
        invariant idsVec + Ids(connPool) == Ids(was) && returning == old(returning) + multiset(idsVec)
        invariant Taken(usedConnections, connPool) == Taken(old(usedConnections), was)
        invariant connPool == [] ==> Total() >= maxPoolSize || returning != multiset{} || spawnFailed
        decreases |connPool|
      {
        assert Ids(connPool) == [connPool[0].id] + Ids(connPool[1..]);
        var con := TakeFront(true);
        idsVec := idsVec + [con.id];
      }
    }

    /** `checkAndResetAllConnections` when nothing happens between its steps: what was idle is idle again, in
        the same order. */
    method CheckAndResetAllConnections()
      requires Valid()
      modifies `connPool, `usedConnections, `held, `returning
      ensures Valid() && connPool == old(connPool) && usedConnections == old(usedConnections)
      ensures held == old(held) && returning == old(returning)
    {
      hide *;
      ghost var idle, used, others := connPool, usedConnections, returning;
      var idsVec := BeginReset();
      ghost var rest := idle;
      for i := 0 to |idsVec|
        invariant Valid() && held == old(held)
        invariant Ids(rest) == idsVec[i..] && ResetAt(idle, used, others, rest)
      {
        IdsTail(rest, idsVec, i);
        rest := ReturnNext(idsVec[i], idle, used, others, rest);
      }
      ResetEnds(idle, used, others, rest);
    }

    /** The drain, seen as the start of a reset that has everything still to return. */
    method BeginReset() returns (idsVec: seq<nat>)
      requires Valid()
      modifies `connPool, `usedConnections, `held, `returning
      ensures Valid() && held == old(held) && idsVec == Ids(old(connPool))
      ensures ResetAt(old(connPool), old(usedConnections), old(returning), old(connPool))
    {
      EveryConnectionOnce(connPool, usedConnections, nextConId, held + returning + leaked);
      hide Accounts, Balanced, Taken, Ids, Total;
      idsVec := Drain();
    }

    lemma ResetEnds(idle: seq<BusyConnection>, used: map<nat, BusyConnection>, others: multiset<nat>,
                    rest: seq<BusyConnection>)
      requires ResetAt(idle, used, others, rest) && Ids(rest) == []
      ensures connPool == idle && usedConnections == used && returning == others
    {
      assert rest == [];
      AllReturned(used);
    }

    /** A reset under way with nothing happening between its steps: `rest` is what it has still to return. */
    ghost predicate ResetAt(idle: seq<BusyConnection>, used: map<nat, BusyConnection>, others: multiset<nat>,
                            rest: seq<BusyConnection>)
      reads `connPool, `usedConnections, `returning
    {
      && idle == connPool + rest && Returnable(used, rest) && usedConnections == Taken(used, rest)
      && returning == others + multiset(Ids(rest))
    }

    method ReturnNext(conId: nat, ghost idle: seq<BusyConnection>, ghost used: map<nat, BusyConnection>,
                      ghost others: multiset<nat>, ghost rest: seq<BusyConnection>)
        returns (ghost rest': seq<BusyConnection>)
      requires Valid() && ResetAt(idle, used, others, rest) && rest != [] && conId == rest[0].id
      modifies `connPool, `usedConnections, `held, `returning
      ensures Valid() && held == old(held) && rest' == rest[1..] && ResetAt(idle, used, others, rest')
    {
      hide Valid, Balanced, Taken, Returnable, Ids, Total;
      OneReturned(used, rest, connPool, others);
      ReleaseConnection(conId, true);
      rest' := rest[1..];
    }

    /** All of `connect`, when nothing happens before its query for the type names has a connection; the query
        gives it back later, as every client does. */
    method ConnectAndLoadTypes(poolSize: int, spawns: seq<bool>, loaded: bool) returns (status: Status)
      requires Valid() && |spawns| >= STOP_SPAWN_CONNECTIONS_ON_SIZE
      modifies this
      ensures Valid() && returning == old(returning) && leaked == old(leaked)
      ensures status == PoolSizeTooSmall <==> poolSize < 1
      ensures status == AlreadyConnected <==> poolSize >= 1 && old(connPool) != []
      ensures status in {PoolSizeTooSmall, AlreadyConnected} ==> Snapshot() == old(Snapshot())
      ensures status !in {PoolSizeTooSmall, AlreadyConnected} ==>
        var n := Min(poolSize, STOP_SPAWN_CONNECTIONS_ON_SIZE);
        && maxPoolSize == poolSize
        && (status == UnableToConnect <==> exists i :: 0 <= i < n && !spawns[i])
        && (status == Connected ==> loaded) && (status == TypesNotLoaded ==> !loaded)
        && if status == UnableToConnect then connPool == NewConnections(old(nextConId), Successes(spawns, n)) && held == old(held)
           else connPool == NewConnections(old(nextConId), n)[1..] && held == old(held) + multiset{old(nextConId)}
    {
      hide Accounts, Balanced, Ids;
      status := Connect(poolSize, spawns);
      if status == Connected {
        AllSucceed(spawns, Min(poolSize, STOP_SPAWN_CONNECTIONS_ON_SIZE));
        var _, _ := GetUnusedConnection(true);
        if !loaded { return TypesNotLoaded; }
      }
    }
  }

  /** What a reset has still to return, on top of the connections in use when it started. */
  ghost predicate Returnable(used: map<nat, BusyConnection>, rest: seq<BusyConnection>) {
    && (forall i, j :: 0 <= i < j < |rest| ==> rest[i].id != rest[j].id)
    && forall i :: 0 <= i < |rest| ==> rest[i].id !in used
  }

  lemma OneReturned(used: map<nat, BusyConnection>, rest: seq<BusyConnection>, pool: seq<BusyConnection>,
                    others: multiset<nat>)
    requires rest != [] && Returnable(used, rest)
    ensures var con := rest[0];
      && con.id in Taken(used, rest) && Taken(used, rest)[con.id] == con
      && Taken(used, rest) - {con.id} == Taken(used, rest[1..]) && Returnable(used, rest[1..])
      && pool + rest == (pool + [con]) + rest[1..]
      && con.id in others + multiset(Ids(rest))
      && others + multiset(Ids(rest)) - multiset{con.id} == others + multiset(Ids(rest[1..]))
  {
    TakenReleased(used, rest);
    IdsPopped(rest);
    hide Taken, Ids;
  }

  lemma IdsTail(pool: seq<BusyConnection>, ids: seq<nat>, i: nat)
    requires i < |ids| && Ids(pool) == ids[i..]
    ensures pool != [] && pool[0].id == ids[i] && Ids(pool[1..]) == ids[i + 1..]
  {
    assert ids[i..][1..] == ids[i + 1..];
    assert Ids(pool)[0] == ids[i..][0];
    assert Ids(pool[1..]) == Ids(pool)[1..];
  }

  lemma AllReturned(used: map<nat, BusyConnection>)
    ensures Taken(used, []) == used && multiset(Ids([])) == multiset{}
  {}

  lemma NoConnections(from: nat)
    ensures NewConnections(from, 0) == []
  {}

  lemma NewIds(from: nat, k: nat)
    ensures forall i :: 0 <= i < k ==> NewConnections(from, k)[i].id == from + i
  {}

  lemma OneMoreConnection(from: nat, k: nat)
    ensures NewConnections(from, k + 1) == NewConnections(from, k) + [BusyConnection(from + k)]
  {}

  lemma {:induction false} SuccessesStop(spawns: seq<bool>, i: nat, n: nat)
    requires i < n <= |spawns| && Successes(spawns, i) == i && !spawns[i]
    ensures Successes(spawns, n) == i
  {
    if n > i + 1 { SuccessesStop(spawns, i, n - 1); }
  }

  lemma {:induction false} AllSucceed(spawns: seq<bool>, n: nat)
    requires n <= |spawns| && forall i :: 0 <= i < n ==> spawns[i]
    ensures Successes(spawns, n) == n
  {
    if n > 0 { AllSucceed(spawns, n - 1); }
  }

  // ---------------------------------------------------------------- runs

  datatype Event =
    | Connect(poolSize: int, attempts: seq<bool>)
    | Get(spawns: bool)
    | Release(conId: nat)
    | StartReset
    | ReturnOne(conId: nat)

  /** What the pool and its callers hold at one moment. */
  datatype State = State(idle: seq<BusyConnection>, used: map<nat, BusyConnection>, next: nat, max: int,
                         held: multiset<nat>, returning: multiset<nat>, leaked: multiset<nat>, spawnFailed: bool)

  ghost predicate Good(s: State) {
    && Accounts(s.idle, s.used, s.next, s.held + s.returning + s.leaked)
    && (s.idle == [] ==> Size(s) >= s.max || s.returning != multiset{} || s.spawnFailed)
  }

  function Size(s: State): nat { |s.idle| + |s.used| }

  /** The pool lets the call through now; a call for a connection waits while nothing is idle. */
  predicate Enabled(s: State, e: Event) {
    match e
    case Connect(_, attempts) => |attempts| >= STOP_SPAWN_CONNECTIONS_ON_SIZE
    case Get(_) => s.idle != []
    case Release(conId) => conId in s.held
    case StartReset => true
    case ReturnOne(conId) => conId in s.returning
  }

  /** The `connect` goes through: it is not refused. */
  predicate Connects(s: State, e: Event) {
    Enabled(s, e) && e.Connect? && e.poolSize >= 1 && s.idle == []
  }

  function Opened(e: Event): (k: nat)
    requires e.Connect? && e.poolSize >= 1 && |e.attempts| >= STOP_SPAWN_CONNECTIONS_ON_SIZE
  {
    Successes(e.attempts, Min(e.poolSize, STOP_SPAWN_CONNECTIONS_ON_SIZE))
  }

  /** The step the specification allows for an event. */
  function Next(s: State, e: Event): State {
    if !Enabled(s, e) then s
    else match e
      case Connect(n, _) =>
        if !Connects(s, e) then s
        else s.(max := n, idle := NewConnections(s.next, Opened(e)), next := s.next + Opened(e),
                spawnFailed := Opened(e) < Min(n, STOP_SPAWN_CONNECTIONS_ON_SIZE))
      case Get(spawns) =>
        var con := s.idle[0];
        var t := s.(idle := s.idle[1..], used := s.used[con.id := con], held := s.held + multiset{con.id});
        if |s.idle| > 1 || Size(s) >= s.max then t
        else if spawns then t.(idle := [BusyConnection(s.next)], next := s.next + 1, spawnFailed := false)
        else t.(held := s.held, leaked := s.leaked + multiset{con.id}, spawnFailed := true)
      case Release(id) =>
        s.(idle := s.idle + [BusyConnection(id)], used := s.used - {id}, held := s.held - multiset{id})
      case StartReset =>
        s.(idle := [], used := Taken(s.used, s.idle), returning := s.returning + multiset(Ids(s.idle)))
      case ReturnOne(id) =>
        s.(idle := s.idle + [BusyConnection(id)], used := s.used - {id}, returning := s.returning - multiset{id})
  }

  function After(s: State, events: seq<Event>): State
    decreases |events|
  {
    if |events| == 0 then s else Next(After(s, events[..|events| - 1]), events[|events| - 1])
  }

  lemma {:induction false} AccountsOpened(used: map<nat, BusyConnection>, next: nat, out: multiset<nat>, k: nat)
    requires Accounts([], used, next, out)
    ensures Accounts(NewConnections(next, k), used, next + k, out)
  {
    hide Accounts, NewConnections;
    NoConnections(next);
    if k > 0 {
      AccountsOpened(used, next, out, k - 1);
      AccountsSpawned(NewConnections(next, k - 1), used, next + k - 1, out);
      OneMoreConnection(next, k - 1);
    }
  }

  lemma {:induction false} AccountsDrained(pool: seq<BusyConnection>, used: map<nat, BusyConnection>, next: nat, out: multiset<nat>)
    requires Accounts(pool, used, next, out)
    ensures Accounts([], Taken(used, pool), next, out + multiset(Ids(pool)))
    decreases |pool|
  {
    hide Accounts, Ids;
    NoIds();
    if pool != [] {
      AccountsTaken(pool, used, next, out);
      IdsPopped(pool);
      var con := pool[0];
      AccountsDrained(pool[1..], used[con.id := con], next, out + multiset{con.id});
      assert out + multiset(Ids(pool)) == out + multiset{con.id} + multiset(Ids(pool[1..]));
    } else {
      assert out + multiset(Ids(pool)) == out;
    }
  }

  lemma NoIds()
    ensures Ids([]) == []
  {}

  lemma GivenBack(s: State, id: nat)
    requires Good(s) && id in s.held + s.returning
    ensures id in s.used && s.used[id] == BusyConnection(id)
    ensures Accounts(s.idle + [BusyConnection(id)], s.used - {id}, s.next, s.held + s.returning + s.leaked - multiset{id})
  {
    AccountsReleased(s.idle, s.used, s.next, s.held + s.returning + s.leaked, id);
  }

  lemma ConnectKeepsGood(s: State, e: Event)
    requires Good(s) && e.Connect?
    ensures Good(Next(s, e))
  {
    hide Accounts, Ids, NewConnections, Taken;
    if Connects(s, e) { AccountsOpened(s.used, s.next, s.held + s.returning + s.leaked, Opened(e)); }
  }

  lemma GetKeepsGood(s: State, e: Event)
    requires Good(s) && e.Get? && s.idle != []
    ensures Good(Next(s, e))
  {
    hide Accounts, Ids, NewConnections, Taken;
    var out, con, r := s.held + s.returning + s.leaked, s.idle[0], Next(s, e);
    AccountsTaken(s.idle, s.used, s.next, out);
    TotalTaken(s);
    assert r.held + r.returning + r.leaked == out + multiset{con.id};
    if |s.idle| == 1 && Size(s) < s.max && e.spawns {
      AccountsSpawned(s.idle[1..], s.used[con.id := con], s.next, out + multiset{con.id});
      assert s.idle[1..] + [BusyConnection(s.next)] == r.idle;
    }
  }

  lemma TotalTaken(s: State)
    requires Good(s) && s.idle != []
    ensures |s.idle[1..]| + |s.used[s.idle[0].id := s.idle[0]]| == Size(s)
  {
    AccountsTaken(s.idle, s.used, s.next, s.held + s.returning + s.leaked);
    hide Accounts;
  }

  lemma ReturnKeepsGood(s: State, e: Event)
    requires Good(s) && Enabled(s, e) && (e.Release? || e.ReturnOne?)
    ensures Good(Next(s, e))
  {
    hide Accounts, Ids, NewConnections, Taken;
    var r := Next(s, e);
    GivenBack(s, e.conId);
    assert r.held + r.returning + r.leaked == s.held + s.returning + s.leaked - multiset{e.conId};
  }

  lemma ResetKeepsGood(s: State)
    requires Good(s)
    ensures Good(Next(s, StartReset))
  {
    hide Accounts, Ids, NewConnections, Taken;
    var out, r := s.held + s.returning + s.leaked, Next(s, StartReset);
    AccountsDrained(s.idle, s.used, s.next, out);
    assert r.held + r.returning + r.leaked == out + multiset(Ids(s.idle));
    if s.idle == [] {
      NoIds();
      TakenNone(s.used);
    } else {
      assert Ids(s.idle)[0] in r.returning;
    }
  }

  lemma TakenNone(used: map<nat, BusyConnection>)
    ensures Taken(used, []) == used
  {}

  /** Every step keeps the accounts, and an empty queue explained. */
  lemma NextKeepsGood(s: State, e: Event)
    requires Good(s)
    ensures Good(Next(s, e))
  {
    hide Good;
    if Enabled(s, e) {
      match e
      case Connect(_, _) => ConnectKeepsGood(s, e);
      case Get(_) => GetKeepsGood(s, e);
      case Release(_) => ReturnKeepsGood(s, e);
      case StartReset => ResetKeepsGood(s);
      case ReturnOne(_) => ReturnKeepsGood(s, e);
    }
  }

  /** Which steps keep the total within the maximum: a `connect` that goes through does iff the connections in
      use and those it opens fit, and every other step iff it was within before. */
  lemma WithinIff(s: State, e: Event)
    requires Good(s)
    ensures Size(Next(s, e)) <= Next(s, e).max <==>
      if Connects(s, e) then |s.used| + Opened(e) <= e.poolSize else Size(s) <= s.max
  {
    var r := Next(s, e);
    EveryConnectionOnce(s.idle, s.used, s.next, s.held + s.returning + s.leaked);
    NextKeepsGood(s, e);
    EveryConnectionOnce(r.idle, r.used, r.next, r.held + r.returning + r.leaked);
    hide Accounts, Ids, NewConnections, Taken;
  }

  /** A popped connection whose spawn failed stays out for good, and a failure is on record only after one. */
  lemma NextLeaksAndFails(s: State, e: Event)
    ensures s.leaked <= Next(s, e).leaked
    ensures !s.spawnFailed && Succeeds(e) ==> !Next(s, e).spawnFailed
  {
    if Connects(s, e) && Succeeds(e) { AllSucceed(e.attempts, Min(e.poolSize, STOP_SPAWN_CONNECTIONS_ON_SIZE)); }
  }

  /** Every attempt to open a connection in the event succeeds. */
  predicate Succeeds(e: Event) {
    match e
    case Connect(_, attempts) => forall i :: 0 <= i < |attempts| ==> attempts[i]
    case Get(spawns) => spawns
    case _ => true
  }

  /** A `connect` that goes through has room for all it may open. */
  predicate Fits(s: State, e: Event) {
    Connects(s, e) ==> |s.used| + Min(e.poolSize, STOP_SPAWN_CONNECTIONS_ON_SIZE) <= e.poolSize
  }

  predicate AllFit(s: State, events: seq<Event>) {
    forall i :: 0 <= i < |events| ==> Fits(After(s, events[..i]), events[i])
  }

  lemma {:induction false} AfterKeepsGood(s: State, events: seq<Event>)
    requires Good(s)
    ensures Good(After(s, events)) && s.leaked <= After(s, events).leaked
    decreases |events|
  {
    hide Good, Next;
    if |events| > 0 {
      var before, e := events[..|events| - 1], events[|events| - 1];
      AfterKeepsGood(s, before);
      NextKeepsGood(After(s, before), e);
      NextLeaksAndFails(After(s, before), e);
    }
  }

  /** With room for every `connect` a pool never exceeds its maximum. */
  lemma {:induction false} AfterKeepsWithin(s: State, events: seq<Event>)
    requires Good(s) && Size(s) <= s.max && AllFit(s, events)
    ensures Size(After(s, events)) <= After(s, events).max
    decreases |events|
  {
    if |events| > 0 {
      var before, e := events[..|events| - 1], events[|events| - 1];
      assert forall i :: 0 <= i < |before| ==> before[..i] == events[..i];
      hide Next, Good;
      AfterKeepsGood(s, before);
      AfterKeepsWithin(s, before);
      WithinIff(After(s, before), e);
    }
  }

  lemma {:induction false} AfterStaysUp(s: State, events: seq<Event>)
    requires !s.spawnFailed && forall i :: 0 <= i < |events| ==> Succeeds(events[i])
    ensures !After(s, events).spawnFailed
    decreases |events|
  {
    hide Next, Succeeds;
    if |events| > 0 {
      var before, e := events[..|events| - 1], events[|events| - 1];
      AfterStaysUp(s, before);
      NextLeaksAndFails(After(s, before), e);
    }
  }

  /** As long as connections can be opened, nothing is idle only at the maximum or while a reset is still
      returning connections. */
  lemma EmptyOnlyWhenFull(s: State, events: seq<Event>)
    requires Good(s) && Size(s) <= s.max && AllFit(s, events)
    requires !s.spawnFailed && forall i :: 0 <= i < |events| ==> Succeeds(events[i])
    ensures var r := After(s, events); r.idle == [] ==> Size(r) == r.max || r.returning != multiset{}
  {
    AfterKeepsGood(s, events);
    AfterKeepsWithin(s, events);
    AfterStaysUp(s, events);
    hide After, AllFit;
  }

  // ---------------------------------------------------------------- exactly when the promises hold

  /** An empty queue means that the maximum is reached or a reset is still returning connections. */
  predicate Explained(s: State) { s.idle == [] ==> Size(s) >= s.max || s.returning != multiset{} }

  /** With no reset under way, the last idle connection is taken although there is room and no other can be
      opened, or a `connect` with room for one fails at the first. */
  predicate RunsDry(s: State, e: Event) {
    && s.returning == multiset{}
    && ((e.Get? && |s.idle| == 1 && Size(s) < s.max && !e.spawns)
        || (Connects(s, e) && !e.attempts[0] && |s.used| < e.poolSize))
  }

  /** What refills a queue that ran dry: a connection given back, or a `connect` that opens one or has no room. */
  predicate Refills(s: State, e: Event) {
    || (e.Release? && e.conId in s.held)
    || (Connects(s, e) && (e.attempts[0] || |s.used| >= e.poolSize))
  }

  lemma {:induction false} OpenedNone(attempts: seq<bool>, n: nat)
    requires 0 < n <= |attempts|
    ensures Successes(attempts, n) == 0 <==> !attempts[0]
  {
    if n > 1 { OpenedNone(attempts, n - 1); }
  }

  /** An explained state stays explained exactly when the event does not run the queue dry; from any other state
      exactly the events that refill the queue lead back. */
  lemma ExplainedIff(s: State, e: Event)
    requires Good(s)
    ensures Explained(Next(s, e)) <==> if Explained(s) then !RunsDry(s, e) else Refills(s, e)
  {
    hide Good, Next, Explained, RunsDry, Refills;
    if Enabled(s, e) {
      match e
      case Connect(_, _) => ConnectExplained(s, e);
      case Get(_) => GetExplained(s, e);
      case Release(_) => ReturnExplained(s, e);
      case StartReset => ResetExplained(s);
      case ReturnOne(_) => ReturnExplained(s, e);
    } else {
      NotEnabledExplained(s, e);
    }
  }

  lemma ConnectExplained(s: State, e: Event)
    requires Good(s) && e.Connect? && Enabled(s, e)
    ensures Explained(Next(s, e)) <==> if Explained(s) then !RunsDry(s, e) else Refills(s, e)
  {
    hide Good, NewConnections, Successes;
    if Connects(s, e) { OpenedNone(e.attempts, Min(e.poolSize, STOP_SPAWN_CONNECTIONS_ON_SIZE)); }
  }

  lemma GetExplained(s: State, e: Event)
    requires Good(s) && e.Get? && Enabled(s, e)
    ensures Explained(Next(s, e)) <==> if Explained(s) then !RunsDry(s, e) else Refills(s, e)
  {
    hide Accounts, Successes;
    TotalTaken(s);
    hide Good;
  }

  lemma ReturnExplained(s: State, e: Event)
    requires Enabled(s, e) && (e.Release? || e.ReturnOne?)
    ensures Explained(Next(s, e)) <==> if Explained(s) then !RunsDry(s, e) else Refills(s, e)
  {}

  lemma NotEnabledExplained(s: State, e: Event)
    requires !Enabled(s, e)
    ensures Explained(Next(s, e)) <==> if Explained(s) then !RunsDry(s, e) else Refills(s, e)
  {}

  lemma ResetExplained(s: State)
    ensures Explained(Next(s, StartReset)) <==> if Explained(s) then !RunsDry(s, StartReset) else Refills(s, StartReset)
  {
    if s.idle == [] {
      NoIds();
      TakenNone(s.used);
    } else {
      assert Ids(s.idle)[0] in Next(s, StartReset).returning;
    }
  }

  predicate AlwaysExplained(s: State, events: seq<Event>) {
    forall i :: 0 <= i <= |events| ==> Explained(After(s, events[..i]))
  }

  predicate NeverRunsDry(s: State, events: seq<Event>) {
    forall i :: 0 <= i < |events| ==> !RunsDry(After(s, events[..i]), events[i])
  }

  lemma {:induction false} ExplainedUpTo(s: State, events: seq<Event>, i: nat)
    requires Good(s) && Explained(s) && i <= |events|
    requires forall m :: 0 <= m < i ==> !RunsDry(After(s, events[..m]), events[m])
    ensures Explained(After(s, events[..i]))
  {
    hide Good, Next, Explained, RunsDry;
    if i == 0 {
      assert events[..0] == [];
    } else {
      ExplainedUpTo(s, events, i - 1);
      AfterKeepsGood(s, events[..i - 1]);
      AfterNext(s, events, i - 1);
      ExplainedIff(After(s, events[..i - 1]), events[i - 1]);
    }
  }

  /** Throughout a run an empty queue means that the maximum is reached or a reset is still returning
      connections exactly when no event runs the queue dry. */
  lemma AlwaysExplainedIff(s: State, events: seq<Event>)
    requires Good(s) && Explained(s)
    ensures AlwaysExplained(s, events) <==> NeverRunsDry(s, events)
  {
    hide Good, Next, Explained, RunsDry, After;
    if NeverRunsDry(s, events) {
      forall i | 0 <= i <= |events| ensures Explained(After(s, events[..i])) { ExplainedUpTo(s, events, i); }
    }
    if AlwaysExplained(s, events) {
      forall i | 0 <= i < |events| ensures !RunsDry(After(s, events[..i]), events[i]) {
        AfterKeepsGood(s, events[..i]);
        AfterNext(s, events, i);
        ExplainedIff(After(s, events[..i]), events[i]);
        assert Explained(After(s, events[..i])) && Explained(After(s, events[..i + 1]));
      }
    }
  }

  predicate WithinMax(s: State) { Size(s) <= s.max }

  /** A `connect` goes through and opens more connections than there is room for. */
  predicate Overfills(s: State, e: Event) {
    Connects(s, e) && |s.used| + Opened(e) > e.poolSize
  }

  predicate AlwaysWithin(s: State, events: seq<Event>) {
    forall i :: 0 <= i <= |events| ==> WithinMax(After(s, events[..i]))
  }

  predicate NeverOverfills(s: State, events: seq<Event>) {
    forall i :: 0 <= i < |events| ==> !Overfills(After(s, events[..i]), events[i])
  }

  lemma {:induction false} WithinUpTo(s: State, events: seq<Event>, i: nat)
    requires Good(s) && WithinMax(s) && i <= |events|
    requires forall m :: 0 <= m < i ==> !Overfills(After(s, events[..m]), events[m])
    ensures WithinMax(After(s, events[..i]))
  {
    hide Good, Next;
    if i == 0 {
      assert events[..0] == [];
    } else {
      WithinUpTo(s, events, i - 1);
      AfterKeepsGood(s, events[..i - 1]);
      AfterNext(s, events, i - 1);
      WithinIff(After(s, events[..i - 1]), events[i - 1]);
    }
  }

  /** Throughout a run the maximum is kept exactly when no `connect` opens more than there is room for. */
  lemma AlwaysWithinIff(s: State, events: seq<Event>)
    requires Good(s) && WithinMax(s)
    ensures AlwaysWithin(s, events) <==> NeverOverfills(s, events)
  {
    hide Good, Next, After;
    if NeverOverfills(s, events) {
      forall i | 0 <= i <= |events| ensures WithinMax(After(s, events[..i])) { WithinUpTo(s, events, i); }
    }
    if AlwaysWithin(s, events) {
      forall i | 0 <= i < |events| ensures !Overfills(After(s, events[..i]), events[i]) {
        AfterKeepsGood(s, events[..i]);
        AfterNext(s, events, i);
        WithinIff(After(s, events[..i]), events[i]);
        assert WithinMax(After(s, events[..i + 1]));
      }
    }
  }

  /** What the accounts of a good state mean for its callers. */
  lemma OneHolderEach(s: State)
    requires Good(s)
    ensures Size(s) == s.next - 1
    ensures forall i, j :: 0 <= i < j < |s.idle| ==> s.idle[i].id != s.idle[j].id
    ensures forall i :: 0 <= i < |s.idle| ==> s.idle[i].id !in s.used
    ensures forall id :: s.held[id] + s.returning[id] + s.leaked[id] == if id in s.used then 1 else 0
  {
    var out := s.held + s.returning + s.leaked;
    EveryConnectionOnce(s.idle, s.used, s.next, out);
    hide Accounts;
    assert forall id :: out[id] == s.held[id] + s.returning[id] + s.leaked[id];
  }

  method ConnectStep(pool: PgPool, e: Event)
    requires pool.Valid() && e.Connect? && |e.attempts| >= STOP_SPAWN_CONNECTIONS_ON_SIZE
    modifies pool
    ensures pool.Valid() && pool.Snapshot() == Next(old(pool.Snapshot()), e)
  {
    hide Accounts, Taken, Ids, NewConnections, PgPool.Balanced;
    var status := pool.Connect(e.poolSize, e.attempts);
  }

  method GetStep(pool: PgPool, e: Event)
    requires pool.Valid() && e.Get? && pool.connPool != []
    modifies pool
    ensures pool.Valid() && pool.Snapshot() == Next(old(pool.Snapshot()), e)
  {
    hide Accounts, Taken, Ids, NewConnections, PgPool.Balanced;
    var _, _ := pool.GetUnusedConnection(e.spawns);
  }

  method ReturnStep(pool: PgPool, e: Event)
    requires pool.Valid() && (e.Release? || e.ReturnOne?) && Enabled(pool.Snapshot(), e)
    modifies pool
    ensures pool.Valid() && pool.Snapshot() == Next(old(pool.Snapshot()), e)
  {
    hide Accounts, Taken, Ids, NewConnections;
    GivenBack(pool.Snapshot(), e.conId);
    hide PgPool.Balanced;
    pool.ReleaseConnection(e.conId, e.ReturnOne?);
  }

  method ResetStep(pool: PgPool)
    requires pool.Valid()
    modifies pool
    ensures pool.Valid() && pool.Snapshot() == Next(old(pool.Snapshot()), StartReset)
  {
    hide Accounts, Taken, Ids, NewConnections, PgPool.Balanced;
    var _ := pool.Drain();
  }

  /** One event, done by the pool's methods. */
  method Step(pool: PgPool, e: Event)
    requires pool.Valid()
    modifies pool
    ensures pool.Valid() && pool.Snapshot() == Next(old(pool.Snapshot()), e)
  {
    hide PgPool.Valid;
    match e
    case Connect(_, attempts) => if |attempts| >= STOP_SPAWN_CONNECTIONS_ON_SIZE { ConnectStep(pool, e); }
    case Get(_) => if pool.connPool != [] { GetStep(pool, e); }
    case Release(conId) => if conId in pool.held { ReturnStep(pool, e); }
    case StartReset => ResetStep(pool);
    case ReturnOne(conId) => if conId in pool.returning { ReturnStep(pool, e); }
  }

  /** Every run ends in the state its events lead to: the connections idle and in use are those ever spawned,
      each of them once; no connection has two holders, and none taken out for an exception comes back; with
      room for every `connect` there are never more than the maximum; and as long as connections can be opened,
      nothing is idle only when there are that many or a reset is still returning connections. */
  method Run(pool: PgPool, events: seq<Event>)
    requires pool.Valid()
    modifies pool
    ensures pool.Valid() && pool.Snapshot() == After(old(pool.Snapshot()), events)
    ensures pool.Total() == pool.nextConId - 1 && old(pool.leaked) <= pool.leaked
    ensures forall i, j :: 0 <= i < j < |pool.connPool| ==> pool.connPool[i].id != pool.connPool[j].id
    ensures forall i :: 0 <= i < |pool.connPool| ==> pool.connPool[i].id !in pool.usedConnections
    ensures forall id :: pool.held[id] + pool.returning[id] + pool.leaked[id] == if id in pool.usedConnections then 1 else 0
    ensures old(pool.Within()) && AllFit(old(pool.Snapshot()), events) ==> pool.Within()
    ensures !old(pool.spawnFailed) && (forall i :: 0 <= i < |events| ==> Succeeds(events[i])) ==>
      && !pool.spawnFailed
      && (pool.connPool == [] ==> pool.Total() >= pool.maxPoolSize || pool.returning != multiset{})
  {
    ghost var s := pool.Snapshot();
    assert events[..0] == [];
    hide Accounts, PgPool.Balanced;
    for i := 0 to |events|
      invariant pool.Valid() && pool.Snapshot() == After(s, events[..i])
    {
      AfterNext(s, events, i);
      Step(pool, events[i]);
    }
    assert events[..|events|] == events;
    hide After, Next, AllFit, Succeeds;
    OneHolderEach(pool.Snapshot());
    AfterKeepsGood(s, events);
    if Size(s) <= s.max && AllFit(s, events) { AfterKeepsWithin(s, events); }
    if !s.spawnFailed && forall i :: 0 <= i < |events| ==> Succeeds(events[i]) { AfterStaysUp(s, events); }
  }

  lemma AfterNext(s: State, events: seq<Event>, i: nat)
    requires i < |events|
    ensures After(s, events[..i + 1]) == Next(After(s, events[..i]), events[i])
  {
    hide Next;
    assert events[..i + 1][..i] == events[..i];
  }

  /** Connecting again while everything is in use goes over the limit when what is added does not fit. */
  method ReconnectOverfills() returns (pool: PgPool)
    ensures fresh(pool) && pool.Valid() && !pool.Within()
  {
    hide Accounts, PgPool.Balanced;
    var all := [true, true, true, true];
    pool := new PgPool();
    var _ := pool.Connect(1, all);
    assert |pool.connPool| == 1;
    var _, _ := pool.GetUnusedConnection(true);
    var _ := pool.Connect(1, all);
  }

  /** After a failed spawn nothing is idle although there is room and no reset is under way, and the connection
      that was to be handed out has no holder. */
  method FailedSpawnEmptiesPool() returns (pool: PgPool)
    ensures fresh(pool) && pool.Valid() && pool.connPool == [] && pool.Total() < pool.maxPoolSize
    ensures pool.returning == multiset{} && pool.spawnFailed && pool.leaked == multiset{4} && 4 !in pool.held
  {
    hide Accounts, PgPool.Balanced, PgPool.Valid;
    pool := FourOfFive();
    var _, _ := pool.GetUnusedConnection(true);
    assert pool.connPool == [BusyConnection(2), BusyConnection(3), BusyConnection(4)] && pool.Total() == 4;
    var _, _ := pool.GetUnusedConnection(true);
    assert pool.connPool == [BusyConnection(3), BusyConnection(4)] && pool.Total() == 4;
    var _, _ := pool.GetUnusedConnection(true);
    assert pool.connPool == [BusyConnection(4)] && pool.Total() == 4;
    var _, _ := pool.GetUnusedConnection(false);
  }

  /** A pool of at most five with the four connections it starts with. */
  method FourOfFive() returns (pool: PgPool)
    ensures fresh(pool) && pool.Valid() && pool.Total() == 4 && pool.maxPoolSize == 5
    ensures pool.connPool == [BusyConnection(1), BusyConnection(2), BusyConnection(3), BusyConnection(4)]
    ensures pool.held == pool.returning == pool.leaked == multiset{}
  {
    hide Accounts, PgPool.Balanced;
    var all := [true, true, true, true];
    AllSucceed(all, 4);
    pool := new PgPool();
    var _ := pool.Connect(5, all);
  }
}
