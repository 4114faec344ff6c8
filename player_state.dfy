/*
  The presence table of in-game players. Every heartbeat refreshes (or
  creates) the record of a public key; a background analyzer periodically
  merges in the accounts the store says are logged in, drops the records
  whose last ping is older than the configured timeout and tells the store,
  in one bulk call, that those keys are logged off.

  Times are integer milliseconds; the clock is a `now` parameter. The
  store is abstracted: a fetch is the sequence of accounts it returns, and
  the bulk "logged off" calls are recorded in a ghost log.
*/
module PlayerState {
  import opened Common
  import LoginQueue

  /** One presence record. `alive` is set on creation and never read. */
  datatype PlayerStateObject = PlayerStateObject(alive: bool, lastPing: int, publicKey: string)

  /** The analyzer's configuration: its period, the advertised capacity
      and the heartbeat timeout in seconds. */
  datatype PlayerStateSettings = PlayerStateSettings(ttl: int, maxPlayersOnline: int, secondsTimeout: int)

  /** Whether some record carries `publicKey`. */
  predicate Connected(ps: seq<PlayerStateObject>, publicKey: string)
  {
    exists i :: 0 <= i < |ps| && ps[i].publicKey == publicKey
  }

  /** No two records share a public key. */
  predicate UniqueKeys(ps: seq<PlayerStateObject>)
  {
    forall i, j :: 0 <= i < j < |ps| ==> ps[i].publicKey != ps[j].publicKey
  }

  /** A record is alive while at most `secondsTimeout` seconds have passed
      since its last ping (the bound is inclusive); one pinged at `now` is
      alive. */
  predicate IsAlive(p: PlayerStateObject, secondsTimeout: int, now: int)
    ensures 0 <= secondsTimeout && now <= p.lastPing ==> IsAlive(p, secondsTimeout, now)
  {
    now - p.lastPing <= secondsTimeout * 1000
  }

  /** Index of the first record carrying `publicKey`, or -1. */
  function FindIndex(ps: seq<PlayerStateObject>, publicKey: string): (r: int)
    ensures -1 <= r < |ps|
    ensures r == -1 <==> !Connected(ps, publicKey)
    ensures r >= 0 ==> ps[r].publicKey == publicKey
    ensures forall j :: 0 <= j < r ==> ps[j].publicKey != publicKey
  {
    if |ps| == 0 then -1
    else if ps[0].publicKey == publicKey then 0
    else
      var r := FindIndex(ps[1..], publicKey);
      assert forall j :: 1 <= j < |ps| ==> ps[j] == ps[1..][j - 1];
      if r == -1 then -1 else r + 1
  }

  /** The records created from the accounts the store reports as logged
      in: alive, pinged now, one per account and in the store's order. */
  function FetchAlivesPlayers(accounts: seq<LoginQueue.Account>, now: int): (r: seq<PlayerStateObject>)
    ensures |r| == |accounts|
    ensures forall i :: 0 <= i < |r| ==>
              r[i].alive && r[i].lastPing == now && r[i].publicKey == accounts[i].publicKey
  {
    seq(|accounts|, i requires 0 <= i < |accounts| => PlayerStateObject(true, now, accounts[i].publicKey))
  }

  /** The table after a heartbeat from `publicKey`. */
  function Heartbeat(ps: seq<PlayerStateObject>, publicKey: string, now: int): (r: seq<PlayerStateObject>)
    ensures Connected(r, publicKey)
    ensures !Connected(ps, publicKey) ==> r == ps + [PlayerStateObject(true, now, publicKey)]
    ensures Connected(ps, publicKey) ==>
              var i := FindIndex(ps, publicKey);
              |r| == |ps| && r[i] == ps[i].(lastPing := now)
              && forall j :: 0 <= j < |ps| && j != i ==> r[j] == ps[j]
  {
    var i := FindIndex(ps, publicKey);
    if i < 0 then
      var r := ps + [PlayerStateObject(true, now, publicKey)];
      assert r[|ps|].publicKey == publicKey;
      r
    else
      var r := ps[i := ps[i].(lastPing := now)];
      assert r[i].publicKey == publicKey;
      r
  }

  /** The table after `publicKey` disconnects: unchanged when the key is
      absent, otherwise the first record with that key is cut out. */
  function Disconnect(ps: seq<PlayerStateObject>, publicKey: string): (r: seq<PlayerStateObject>)
    ensures !Connected(ps, publicKey) ==> r == ps
    ensures Connected(ps, publicKey) ==> RemovedAt(r, ps, FindIndex(ps, publicKey))
  {
    if !Connected(ps, publicKey) then ps
    else
      var i := FindIndex(ps, publicKey);
      ps[..i] + ps[i + 1..]
  }

  /** The incoming records whose key is not in `ps`, in incoming order. */
  function NewArrivals(ps: seq<PlayerStateObject>, incoming: seq<PlayerStateObject>): (r: seq<PlayerStateObject>)
    ensures |r| <= |incoming|
    ensures forall x :: x in r <==> x in incoming && !Connected(ps, x.publicKey)
  {
    if incoming == [] then []
    else
      var init := NewArrivals(ps, incoming[..|incoming| - 1]);
      var x := incoming[|incoming| - 1];
      assert incoming == incoming[..|incoming| - 1] + [x];
      if Connected(ps, x.publicKey) then init else init + [x]
  }

  /** The records of `ps` still alive at `now`, in order. */
  function Kept(ps: seq<PlayerStateObject>, secondsTimeout: int, now: int): (r: seq<PlayerStateObject>)
    ensures |r| <= |ps|
    ensures forall i :: 0 <= i < |r| ==> r[i] in ps && IsAlive(r[i], secondsTimeout, now)
  {
    if ps == [] then []
    else
      var init := Kept(ps[..|ps| - 1], secondsTimeout, now);
      if IsAlive(ps[|ps| - 1], secondsTimeout, now) then init + [ps[|ps| - 1]] else init
  }

  /** The keys of the records of `ps` expired at `now`, in order. */
  function Expired(ps: seq<PlayerStateObject>, secondsTimeout: int, now: int): (r: seq<string>)
    ensures |r| <= |ps|
  {
    if ps == [] then []
    else
      var init := Expired(ps[..|ps| - 1], secondsTimeout, now);
      if IsAlive(ps[|ps| - 1], secondsTimeout, now) then init else init + [ps[|ps| - 1].publicKey]
  }

  /** Kept and expired split the table: every record lands in exactly one
      of them according to `IsAlive`, and nothing else does. */
  lemma {:induction false} PartitionExact(ps: seq<PlayerStateObject>, secondsTimeout: int, now: int)
    ensures |Kept(ps, secondsTimeout, now)| + |Expired(ps, secondsTimeout, now)| == |ps|
    ensures forall x :: x in Kept(ps, secondsTimeout, now) <==> x in ps && IsAlive(x, secondsTimeout, now)
    ensures forall k :: k in Expired(ps, secondsTimeout, now) <==>
              exists i :: 0 <= i < |ps| && ps[i].publicKey == k && !IsAlive(ps[i], secondsTimeout, now)
  {
    if ps != [] {
      var init := ps[..|ps| - 1];
      PartitionExact(init, secondsTimeout, now);
      assert ps == init + [ps[|ps| - 1]];
      forall k | k in Expired(ps, secondsTimeout, now)
        ensures exists i :: 0 <= i < |ps| && ps[i].publicKey == k && !IsAlive(ps[i], secondsTimeout, now)
      {
        if k in Expired(init, secondsTimeout, now) {
          var i :| 0 <= i < |init| && init[i].publicKey == k && !IsAlive(init[i], secondsTimeout, now);
          assert ps[i] == init[i];
        }
      }
      forall k | exists i :: 0 <= i < |ps| && ps[i].publicKey == k && !IsAlive(ps[i], secondsTimeout, now)
        ensures k in Expired(ps, secondsTimeout, now)
      {
        var i :| 0 <= i < |ps| && ps[i].publicKey == k && !IsAlive(ps[i], secondsTimeout, now);
        if i < |init| {
          assert init[i] == ps[i];
        }
      }
    }
  }

  /** Filtering distributes over concatenation, so kept records keep
      their relative order. */
  lemma {:induction false} KeptAppend(a: seq<PlayerStateObject>, b: seq<PlayerStateObject>, secondsTimeout: int, now: int)
    ensures Kept(a + b, secondsTimeout, now) == Kept(a, secondsTimeout, now) + Kept(b, secondsTimeout, now)
  {
    if b != [] {
      var init := b[..|b| - 1];
      KeptAppend(a, init, secondsTimeout, now);
      assert (a + b)[..|a + b| - 1] == a + init;
    } else {
      assert a + b == a;
    }
  }

  /** When nothing has expired, every record is kept. */
  lemma {:induction false} NoneExpiredKeepsAll(ps: seq<PlayerStateObject>, secondsTimeout: int, now: int)
    requires Expired(ps, secondsTimeout, now) == []
    ensures Kept(ps, secondsTimeout, now) == ps
  {
    if ps != [] {
      var init := ps[..|ps| - 1];
      NoneExpiredKeepsAll(init, secondsTimeout, now);
      assert ps == init + [ps[|ps| - 1]];
    }
  }

  /** Dropping expired records never creates a second record for a key. */
  lemma {:induction false} KeptKeepsUnique(ps: seq<PlayerStateObject>, secondsTimeout: int, now: int)
    requires UniqueKeys(ps)
    ensures UniqueKeys(Kept(ps, secondsTimeout, now))
  {
    if ps != [] {
      var init, x := ps[..|ps| - 1], ps[|ps| - 1];
      assert UniqueKeys(init);
      KeptKeepsUnique(init, secondsTimeout, now);
      PartitionExact(init, secondsTimeout, now);
      var k := Kept(init, secondsTimeout, now);
      if IsAlive(x, secondsTimeout, now) {
        forall i | 0 <= i < |k| ensures k[i].publicKey != x.publicKey {
          assert k[i] in init;
          var j :| 0 <= j < |init| && init[j] == k[i];
          assert ps[j] == init[j];
        }
      }
    }
  }

  /** A heartbeat never creates a second record for a key. */
  lemma HeartbeatKeepsUnique(ps: seq<PlayerStateObject>, publicKey: string, now: int)
    requires UniqueKeys(ps)
    ensures UniqueKeys(Heartbeat(ps, publicKey, now))
    ensures |ps| <= |Heartbeat(ps, publicKey, now)| <= |ps| + 1
  {
  }

  /** With unique keys, a disconnect removes the key entirely and keeps
      every other key. */
  lemma DisconnectForgetsKey(ps: seq<PlayerStateObject>, publicKey: string, k: string)
    requires UniqueKeys(ps)
    ensures UniqueKeys(Disconnect(ps, publicKey))
    ensures Connected(Disconnect(ps, publicKey), k) <==> Connected(ps, k) && k != publicKey
  {
    var r := Disconnect(ps, publicKey);
    if Connected(ps, publicKey) {
      var c := FindIndex(ps, publicKey);
      RemovedAtIsCut(r, ps, c);
      if Connected(ps, k) && k != publicKey {
        var i :| 0 <= i < |ps| && ps[i].publicKey == k;
        assert r[if i < c then i else i - 1] == ps[i];
      }
    }
  }

  /** Merging incoming records that have unique keys among themselves
      keeps the table's keys unique. */
  lemma {:induction false} MergeKeepsUnique(ps: seq<PlayerStateObject>, incoming: seq<PlayerStateObject>)
    requires UniqueKeys(ps) && UniqueKeys(incoming)
    ensures UniqueKeys(ps + NewArrivals(ps, incoming))
  {
    if incoming != [] {
      var init := incoming[..|incoming| - 1];
      var x := incoming[|incoming| - 1];
      MergeKeepsUnique(ps, init);
      var a := NewArrivals(ps, init);
      if !Connected(ps, x.publicKey) {
        forall y | y in a ensures y.publicKey != x.publicKey {
          var j :| 0 <= j < |init| && init[j] == y;
          assert incoming[j] == y;
        }
        var m := ps + a + [x];
        assert ps + NewArrivals(ps, incoming) == m;
        forall i, j | 0 <= i < j < |m| ensures m[i].publicKey != m[j].publicKey {
          if j == |m| - 1 && i >= |ps| {
            assert m[i] in a;
          }
        }
      }
    }
  }

  class PlayerStateService {
    const settings: PlayerStateSettings
    var players: seq<PlayerStateObject>
    /** Key lists passed to the store's bulk "logged off" update, in call order. */
    ghost var loggedOffCalls: seq<seq<string>>

    constructor(settings: PlayerStateSettings)
      ensures this.settings == settings && players == [] && loggedOffCalls == []
    {
      this.settings := settings;
      players := [];
      loggedOffCalls := [];
    }

    /** Start-up: the table becomes the records of the logged-in accounts. */
    method Start(accounts: seq<LoginQueue.Account>, now: int)
      modifies this`players
      ensures players == FetchAlivesPlayers(accounts, now)
    {
      SetAlivePlayers(FetchAlivesPlayers(accounts, now));
    }

    /** Refreshes the record of `publicKey`, creating it if absent. */
    method UpdateAlivePlayer(publicKey: string, now: int)
      modifies this`players
      ensures players == Heartbeat(old(players), publicKey, now)
    {
      var i := FindIndex(players, publicKey);
      if i < 0 {
        players := players + [PlayerStateObject(true, now, publicKey)];
      } else {
        players := players[i := players[i].(lastPing := now)];
      }
    }

    /** Drops the first record of `publicKey`, if there is one. */
    method DisconnectPlayer(publicKey: string)
      modifies this`players
      ensures players == Disconnect(old(players), publicKey)
    {
      var connected := IsAlreadyConnected(publicKey);
      if !connected {
        return;
      }
      var index := FindIndex(players, publicKey);
      players := players[..index] + players[index + 1..];
    }

    /** The number of records. */
    method GetConnectedCount() returns (n: int)
      ensures n == |players|
    {
      n := |players|;
    }

    /** The number of records; the same answer as `GetConnectedCount`. */
    method CountAlivePlayers() returns (n: int)
      ensures n == |players|
    {
      n := |players|;
    }

    /** Whether some record carries `publicKey`. */
    method IsAlreadyConnected(publicKey: string) returns (b: bool)
      ensures b <==> Connected(players, publicKey)
    {
      b := FindIndex(players, publicKey) != -1;
    }

    /** The configured capacity. */
    method GetMaxPlayers() returns (n: int)
      ensures n == settings.maxPlayersOnline
    {
      n := settings.maxPlayersOnline;
    }

    /** Replaces the whole table. */
    method SetAlivePlayers(ps: seq<PlayerStateObject>)
      modifies this`players
      ensures players == ps
    {
      players := ps;
    }

    /** Appends the incoming records whose key is not already present. */
    method MergeAlivePlayers(newPlayers: seq<PlayerStateObject>)
      modifies this`players
      ensures players == old(players) + NewArrivals(old(players), newPlayers)
    {
      var toAdd := NewArrivals(players, newPlayers);
      players := players + toAdd;
    }

    /** The analyzer's walk over a snapshot: alive records are collected,
        the keys of expired ones listed. */
    method Partition(snapshot: seq<PlayerStateObject>, now: int)
      returns (stillAlives: seq<PlayerStateObject>, toDisconnects: seq<string>)
      ensures stillAlives == Kept(snapshot, settings.secondsTimeout, now)
      ensures toDisconnects == Expired(snapshot, settings.secondsTimeout, now)
    {
      stillAlives, toDisconnects := [], [];
      var i := 0;
      while i < |snapshot|
        invariant 0 <= i <= |snapshot|
        invariant stillAlives == Kept(snapshot[..i], settings.secondsTimeout, now)
        invariant toDisconnects == Expired(snapshot[..i], settings.secondsTimeout, now)
      {
        var x := snapshot[i];
        assert snapshot[..i + 1][..i] == snapshot[..i];
        if now - x.lastPing <= settings.secondsTimeout * 1000 {
          stillAlives := stillAlives + [x];
        } else {
          toDisconnects := toDisconnects + [x.publicKey];
        }
        i := i + 1;
      }
      assert snapshot[..i] == snapshot;
    }

    /** One analyzer iteration: merge in the store's logged-in accounts,
        then, if any record expired, log those keys off in one bulk call
        and keep only the alive records. Either way the table ends up as
        exactly the alive records of the merged table. */
    method AliveAnalyzerStep(accounts: seq<LoginQueue.Account>, now: int)
      modifies this`players, this`loggedOffCalls
      ensures var merged := old(players) + NewArrivals(old(players), FetchAlivesPlayers(accounts, now));
              && players == Kept(merged, settings.secondsTimeout, now)
              && loggedOffCalls == old(loggedOffCalls) +
                   (if Expired(merged, settings.secondsTimeout, now) == [] then []
                    else [Expired(merged, settings.secondsTimeout, now)])
      ensures UniqueKeys(old(players)) && UniqueKeys(FetchAlivesPlayers(accounts, now)) ==> UniqueKeys(players)
    {
      ghost var fetched := FetchAlivesPlayers(accounts, now);
      if UniqueKeys(players) && UniqueKeys(fetched) {
        MergeKeepsUnique(players, fetched);
        KeptKeepsUnique(players + NewArrivals(players, fetched), settings.secondsTimeout, now);
      }
      MergeAlivePlayers(FetchAlivesPlayers(accounts, now));
      var livePlayers := players;
      var stillAlives, toDisconnects := Partition(livePlayers, now);
      if |toDisconnects| > 0 {
        loggedOffCalls := loggedOffCalls + [toDisconnects];
        SetAlivePlayers(stillAlives);
      } else {
        NoneExpiredKeepsAll(livePlayers, settings.secondsTimeout, now);
      }
    }
  }
}
