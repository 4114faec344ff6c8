/**
  The abstract view of the login ticket queue: the tickets from the oldest
  (the head, position 0) to the newest (the tail). A ticket's position is its
  index in this sequence. The linked implementation in module Utilities is
  proved to keep its nodes in step with this view.
*/
module Tickets {
  import opened Common

  /** One queued ticket: its key, its payload and the time (ms) it was last touched. */
  datatype Ticket<K, T> = Ticket(key: K, value: T, time: int)

  /** The set of keys present in the queue. */
  function KeysOf<K(==), T>(ts: seq<Ticket<K, T>>): set<K>
  {
    set i | 0 <= i < |ts| :: ts[i].key
  }

  /** No key is queued twice. */
  predicate DistinctKeys<K(==), T>(ts: seq<Ticket<K, T>>)
  {
    forall i, j :: 0 <= i < j < |ts| ==> ts[i].key != ts[j].key
  }

  /** The position GetPosition reports: the number of tickets ahead of the
      first ticket with this key, or -1 when no ticket has the key. */
  function PositionOf<K(==), T>(ts: seq<Ticket<K, T>>, key: K): (p: int)
    ensures -1 <= p < |ts|
    ensures p == -1 <==> key !in KeysOf(ts)
    ensures p >= 0 ==> ts[p].key == key && forall j :: 0 <= j < p ==> ts[j].key != key
  {
    if |ts| == 0 then -1
    else if ts[0].key == key then 0
    else
      var p := PositionOf(ts[1..], key);
      assert forall j :: 1 <= j < |ts| ==> ts[j].key == ts[1..][j - 1].key;
      assert key in KeysOf(ts[1..]) ==> key in KeysOf(ts);
      assert key in KeysOf(ts) ==> key in KeysOf(ts[1..]);
      if p == -1 then -1 else p + 1
  }

  /** A ticket is stale when it was last touched more than `timeout` ms before `now`;
      one touched at `now` is never stale. */
  predicate Stale<K(==), T>(t: Ticket<K, T>, timeout: int, now: int)
    ensures 0 <= timeout && now <= t.time ==> !Stale(t, timeout, now)
  {
    t.time + timeout < now
  }

  /** The tickets an eviction sweep keeps, in their original order. */
  function Survivors<K(==), T>(ts: seq<Ticket<K, T>>, timeout: int, now: int): (r: seq<Ticket<K, T>>)
    ensures |r| <= |ts|
    ensures forall i :: 0 <= i < |r| ==> !Stale(r[i], timeout, now)
    ensures KeysOf(r) <= KeysOf(ts)
  {
    if ts == [] then []
    else
      var init, t := ts[..|ts| - 1], ts[|ts| - 1];
      assert KeysOf(init) <= KeysOf(ts) by {
        forall k | k in KeysOf(init) ensures k in KeysOf(ts) {
          var i :| 0 <= i < |init| && init[i].key == k;
          assert ts[i].key == k;
        }
      }
      assert t.key in KeysOf(ts) by { assert ts[|ts| - 1] == t; }
      Survivors(init, timeout, now) + (if Stale(t, timeout, now) then [] else [t])
  }

  /** The keys an eviction sweep removes, oldest first. */
  function EvictedKeys<K(==), T>(ts: seq<Ticket<K, T>>, timeout: int, now: int): (r: seq<K>)
    ensures |r| <= |ts|
  {
    if ts == [] then []
    else
      var init, t := ts[..|ts| - 1], ts[|ts| - 1];
      EvictedKeys(init, timeout, now) + (if Stale(t, timeout, now) then [t.key] else [])
  }

  /** Every ticket a sweep keeps is one of the tickets it was given. */
  lemma {:induction false} SurvivorsAreTickets<K, T>(ts: seq<Ticket<K, T>>, timeout: int, now: int)
    ensures forall i :: 0 <= i < |Survivors(ts, timeout, now)| ==> Survivors(ts, timeout, now)[i] in ts
  {
    if ts != [] {
      var init := ts[..|ts| - 1];
      SurvivorsAreTickets(init, timeout, now);
      assert forall i :: 0 <= i < |init| ==> init[i] == ts[i];
    }
  }

  /** One more ticket visited by the sweep: it either survives or has its
      key reported. */
  lemma SweepSnoc<K, T>(ts: seq<Ticket<K, T>>, i: nat, timeout: int, now: int)
    requires i < |ts|
    ensures Survivors(ts[..i + 1], timeout, now)
            == Survivors(ts[..i], timeout, now) + (if Stale(ts[i], timeout, now) then [] else [ts[i]])
    ensures EvictedKeys(ts[..i + 1], timeout, now)
            == EvictedKeys(ts[..i], timeout, now) + (if Stale(ts[i], timeout, now) then [ts[i].key] else [])
  {
    assert ts[..i + 1][..i] == ts[..i];
  }

  /** Midway through a sweep, with the first i tickets visited and the
      survivors among them in front, ticket i sits right behind those
      survivors. */
  lemma SweepFront<K, T>(ts: seq<Ticket<K, T>>, i: nat, timeout: int, now: int, cs: seq<Ticket<K, T>>)
    requires i < |ts| && cs == Survivors(ts[..i], timeout, now) + ts[i..]
    ensures |Survivors(ts[..i], timeout, now)| < |cs|
    ensures cs[|Survivors(ts[..i], timeout, now)|] == ts[i]
  {
  }

  /** Visiting ticket i (dropping it when stale, keeping it otherwise)
      carries the sweep invariant from i to i + 1. */
  lemma SweepStep<K, T>(ts: seq<Ticket<K, T>>, i: nat, timeout: int, now: int,
                        cs: seq<Ticket<K, T>>, cs': seq<Ticket<K, T>>)
    requires i < |ts| && cs == Survivors(ts[..i], timeout, now) + ts[i..]
    requires Stale(ts[i], timeout, now) ==> RemovedAt(cs', cs, |Survivors(ts[..i], timeout, now)|)
    requires !Stale(ts[i], timeout, now) ==> cs' == cs
    ensures cs' == Survivors(ts[..i + 1], timeout, now) + ts[i + 1..]
    ensures |Survivors(ts[..i + 1], timeout, now)|
            == |Survivors(ts[..i], timeout, now)| + (if Stale(ts[i], timeout, now) then 0 else 1)
    ensures EvictedKeys(ts[..i + 1], timeout, now)
            == EvictedKeys(ts[..i], timeout, now) + (if Stale(ts[i], timeout, now) then [ts[i].key] else [])
  {
    SweepSnoc(ts, i, timeout, now);
    DropSplit(ts, i);
    if Stale(ts[i], timeout, now) {
      RemovedAtSplice(cs', Survivors(ts[..i], timeout, now), ts, i);
    }
  }

  /** Keys of a sequence split at its last element. */
  lemma KeysOfSnoc<K, T>(ts: seq<Ticket<K, T>>, t: Ticket<K, T>)
    ensures KeysOf(ts + [t]) == KeysOf(ts) + {t.key}
  {
    var s := ts + [t];
    forall k | k in KeysOf(s) ensures k in KeysOf(ts) + {t.key} {
      var i :| 0 <= i < |s| && s[i].key == k;
      if i < |ts| { assert ts[i].key == k; }
    }
    forall k | k in KeysOf(ts) ensures k in KeysOf(s) {
      var i :| 0 <= i < |ts| && ts[i].key == k;
      assert s[i].key == k;
    }
    assert s[|ts|].key == t.key;
  }

  /** The ticket at index p carries a key no other ticket carries. */
  predicate UniqueAt<K(==), T>(ts: seq<Ticket<K, T>>, p: nat)
    requires p < |ts|
  {
    forall i :: 0 <= i < |ts| && i != p ==> ts[i].key != ts[p].key
  }

  /** Removing a ticket whose key is unique removes exactly its key. */
  lemma KeysOfRemoveAt<K, T>(ts: seq<Ticket<K, T>>, p: nat)
    requires p < |ts| && UniqueAt(ts, p)
    ensures KeysOf(ts[..p] + ts[p + 1..]) == KeysOf(ts) - {ts[p].key}
  {
    var s := ts[..p] + ts[p + 1..];
    assert forall i :: 0 <= i < |s| ==> s[i] == ts[if i < p then i else i + 1];
    forall k | k in KeysOf(s) ensures k in KeysOf(ts) - {ts[p].key} {
      var i :| 0 <= i < |s| && s[i].key == k;
      var j := if i < p then i else i + 1;
      assert ts[j].key == k;
    }
    forall k | k in KeysOf(ts) - {ts[p].key} ensures k in KeysOf(s) {
      var j :| 0 <= j < |ts| && ts[j].key == k;
      assert j != p;
      var i := if j < p then j else j - 1;
      assert s[i].key == k;
    }
  }

  /** Taking off the head ticket of a queue with distinct keys takes out
      exactly its key. */
  lemma KeysOfTail<K, T>(ts: seq<Ticket<K, T>>)
    requires |ts| > 0 && DistinctKeys(ts)
    ensures KeysOf(ts[1..]) == KeysOf(ts) - {ts[0].key}
  {
    KeysOfRemoveAt(ts, 0);
    assert ts[..0] + ts[1..] == ts[1..];
  }

  /** Removing any ticket keeps the keys distinct. */
  lemma DistinctAfterRemoveAt<K, T>(ts: seq<Ticket<K, T>>, p: nat)
    requires p < |ts| && DistinctKeys(ts)
    ensures DistinctKeys(ts[..p] + ts[p + 1..])
  {
    var s := ts[..p] + ts[p + 1..];
    forall i, j | 0 <= i < j < |s| ensures s[i].key != s[j].key {
      assert s[i] == ts[if i < p then i else i + 1];
      assert s[j] == ts[if j < p then j else j + 1];
    }
  }

  /** In a queue with distinct keys, the ticket at index i reports position i. */
  lemma {:induction false} PositionOfIndex<K, T>(ts: seq<Ticket<K, T>>, i: nat)
    requires i < |ts| && DistinctKeys(ts)
    ensures PositionOf(ts, ts[i].key) == i
  {
    assert ts[i].key in KeysOf(ts);
  }

  /** Enqueuing a new key puts it at position |ts| (the count before insertion)
      and leaves every other key's position as it was. */
  lemma {:induction false} PositionAfterEnqueue<K, T>(ts: seq<Ticket<K, T>>, t: Ticket<K, T>, key: K)
    requires t.key !in KeysOf(ts)
    ensures PositionOf(ts + [t], t.key) == |ts|
    ensures key != t.key ==> PositionOf(ts + [t], key) == PositionOf(ts, key)
  {
    var s := ts + [t];
    KeysOfSnoc(ts, t);
    assert forall j :: 0 <= j < |ts| ==> s[j] == ts[j] && ts[j].key in KeysOf(ts);
    assert s[|ts|] == t;
  }

  /** Dequeuing the head moves every other ticket one place forward. */
  lemma {:induction false} PositionAfterDequeue<K, T>(ts: seq<Ticket<K, T>>, key: K)
    requires |ts| > 0 && DistinctKeys(ts)
    ensures key == ts[0].key || key !in KeysOf(ts) ==> PositionOf(ts[1..], key) == -1
    ensures key != ts[0].key && key in KeysOf(ts) ==> PositionOf(ts[1..], key) == PositionOf(ts, key) - 1
  {
    PositionAfterRemoveAt(ts, 0, key);
    assert ts[..0] + ts[1..] == ts[1..];
  }

  /** Evicting the ticket at position p: tickets ahead of it keep their
      positions, tickets behind it each move forward by exactly one. */
  lemma {:induction false} PositionAfterRemoveAt<K, T>(ts: seq<Ticket<K, T>>, p: nat, key: K)
    requires p < |ts| && DistinctKeys(ts)
    ensures var old_p := PositionOf(ts, key);
            PositionOf(ts[..p] + ts[p + 1..], key) ==
              if key == ts[p].key then -1
              else if old_p < p then old_p
              else old_p - 1
  {
    var s := ts[..p] + ts[p + 1..];
    KeysOfRemoveAt(ts, p);
    DistinctAfterRemoveAt(ts, p);
    assert forall i :: 0 <= i < |s| ==> s[i] == ts[if i < p then i else i + 1];
    if key != ts[p].key {
      var q := PositionOf(ts, key);
      if q == -1 {
        assert key !in KeysOf(s);
      } else {
        var i := if q < p then q else q - 1;
        assert s[i].key == key;
        PositionOfIndex(s, i);
      }
    }
  }

  /** Every ticket a sweep looks at is either kept or evicted. */
  lemma {:induction false} EvictionCount<K, T>(ts: seq<Ticket<K, T>>, timeout: int, now: int)
    ensures |Survivors(ts, timeout, now)| + |EvictedKeys(ts, timeout, now)| == |ts|
  {
    if ts != [] {
      EvictionCount(ts[..|ts| - 1], timeout, now);
    }
  }

  /** A key is evicted exactly when some ticket carrying it is stale. */
  lemma {:induction false} EvictedKeysAreStale<K, T>(ts: seq<Ticket<K, T>>, timeout: int, now: int, k: K)
    ensures k in EvictedKeys(ts, timeout, now) <==>
              exists i :: 0 <= i < |ts| && ts[i].key == k && Stale(ts[i], timeout, now)
  {
    if ts != [] {
      var init, t := ts[..|ts| - 1], ts[|ts| - 1];
      EvictedKeysAreStale(init, timeout, now, k);
      assert forall i :: 0 <= i < |init| ==> init[i] == ts[i];
      if exists i :: 0 <= i < |ts| && ts[i].key == k && Stale(ts[i], timeout, now) {
        var i :| 0 <= i < |ts| && ts[i].key == k && Stale(ts[i], timeout, now);
        if i == |init| {
          assert k in EvictedKeys(ts, timeout, now);
        }
      }
    }
  }

  /** With distinct queued keys, a sweep reports no key twice: the eviction
      callback runs once per evicted ticket. */
  lemma {:induction false} EvictedKeysDistinct<K, T>(ts: seq<Ticket<K, T>>, timeout: int, now: int)
    requires DistinctKeys(ts)
    ensures forall i, j :: 0 <= i < j < |EvictedKeys(ts, timeout, now)| ==>
              EvictedKeys(ts, timeout, now)[i] != EvictedKeys(ts, timeout, now)[j]
  {
    if ts != [] {
      var init, t := ts[..|ts| - 1], ts[|ts| - 1];
      assert forall i :: 0 <= i < |init| ==> init[i] == ts[i];
      EvictedKeysDistinct(init, timeout, now);
      EvictedKeysAreStale(init, timeout, now, t.key);
      forall i | 0 <= i < |init| ensures init[i].key != t.key {
        assert ts[i].key != ts[|ts| - 1].key;
      }
    }
  }

  /** The survivors of a sweep keep distinct keys, and they hold exactly the
      keys that were queued and not evicted. */
  lemma {:induction false} SurvivorKeys<K, T>(ts: seq<Ticket<K, T>>, timeout: int, now: int)
    requires DistinctKeys(ts)
    ensures DistinctKeys(Survivors(ts, timeout, now))
    ensures KeysOf(Survivors(ts, timeout, now)) == KeysOf(ts) - set k | k in EvictedKeys(ts, timeout, now)
  {
    if ts != [] {
      var init, t := ts[..|ts| - 1], ts[|ts| - 1];
      assert ts == init + [t];
      assert DistinctKeys(init);
      SurvivorKeys(init, timeout, now);
      KeysOfSnoc(init, t);
      var S, E := Survivors(init, timeout, now), EvictedKeys(init, timeout, now);
      assert t.key !in KeysOf(init) by {
        forall i | 0 <= i < |init| ensures init[i].key != t.key { assert init[i] == ts[i]; }
      }
      assert t.key !in E by {
        EvictedKeysAreStale(init, timeout, now, t.key);
        assert forall i :: 0 <= i < |init| ==> init[i].key in KeysOf(init);
      }
      if Stale(t, timeout, now) {
        assert Survivors(ts, timeout, now) == S;
        assert EvictedKeys(ts, timeout, now) == E + [t.key];
        assert (set k | k in E + [t.key]) == (set k | k in E) + {t.key};
      } else {
        assert Survivors(ts, timeout, now) == S + [t];
        assert EvictedKeys(ts, timeout, now) == E;
        KeysOfSnoc(S, t);
        assert DistinctKeys(S + [t]) by {
          forall i, j | 0 <= i < j < |S + [t]| ensures (S + [t])[i].key != (S + [t])[j].key {
            assert S[i].key in KeysOf(S);
            if j < |S| {
              assert (S + [t])[i] == S[i] && (S + [t])[j] == S[j];
            }
          }
        }
      }
    }
  }

  /** After an eviction sweep each survivor's position has dropped by exactly
      the number of tickets evicted ahead of it. */
  /** The last ticket, when it survives, sits behind every surviving ticket
      ahead of it. */
  lemma SurvivorPositionLast<K, T>(init: seq<Ticket<K, T>>, t: Ticket<K, T>, timeout: int, now: int)
    requires t.key !in KeysOf(init)
    requires t.key in KeysOf(Survivors(init + [t], timeout, now))
    ensures PositionOf(init + [t], t.key) == |init|
    ensures PositionOf(Survivors(init + [t], timeout, now), t.key) ==
              |init| - |EvictedKeys(init, timeout, now)|
  {
    var ts, S := init + [t], Survivors(init, timeout, now);
    assert ts[..|ts| - 1] == init;
    assert Survivors(ts, timeout, now) == S + (if Stale(t, timeout, now) then [] else [t]);
    assert t.key !in KeysOf(S);
    KeysOfSnoc(S, t);
    assert Survivors(ts, timeout, now) == S + [t];
    PositionAfterEnqueue(init, t, t.key);
    PositionAfterEnqueue(S, t, t.key);
    EvictionCount(init, timeout, now);
  }

  lemma {:induction false} SurvivorPosition<K, T>(ts: seq<Ticket<K, T>>, timeout: int, now: int, key: K)
    requires DistinctKeys(ts)
    requires key in KeysOf(Survivors(ts, timeout, now))
    ensures PositionOf(ts, key) >= 0
    ensures PositionOf(Survivors(ts, timeout, now), key) ==
              PositionOf(ts, key) - |EvictedKeys(ts[..PositionOf(ts, key)], timeout, now)|
  {
    var init, t := ts[..|ts| - 1], ts[|ts| - 1];
    assert ts == init + [t];
    assert DistinctKeys(init);
    var S := Survivors(init, timeout, now);
    KeysOfSnoc(init, t);
    assert t.key !in KeysOf(init) by {
      forall i | 0 <= i < |init| ensures init[i].key != t.key { assert init[i] == ts[i]; }
    }
    if key == t.key {
      SurvivorPositionLast(init, t, timeout, now);
    } else {
      assert Survivors(ts, timeout, now) == S + (if Stale(t, timeout, now) then [] else [t]);
      assert key in KeysOf(S) by { if !Stale(t, timeout, now) { KeysOfSnoc(S, t); } }
      SurvivorPosition(init, timeout, now, key);
      SurvivorPositionEarlier(init, t, timeout, now, key);
    }
  }

  /** A surviving ticket ahead of the last one keeps the position it had
      among the survivors of the tickets ahead of the last. */
  lemma SurvivorPositionEarlier<K, T>(init: seq<Ticket<K, T>>, t: Ticket<K, T>, timeout: int, now: int, key: K)
    requires t.key !in KeysOf(init) && key != t.key
    requires key in KeysOf(Survivors(init, timeout, now))
    requires 0 <= PositionOf(init, key)
    requires PositionOf(Survivors(init, timeout, now), key) ==
               PositionOf(init, key) - |EvictedKeys(init[..PositionOf(init, key)], timeout, now)|
    ensures PositionOf(init + [t], key) == PositionOf(init, key)
    ensures PositionOf(Survivors(init + [t], timeout, now), key) ==
              PositionOf(init, key) - |EvictedKeys((init + [t])[..PositionOf(init, key)], timeout, now)|
  {
    var ts, S := init + [t], Survivors(init, timeout, now);
    assert ts[..|ts| - 1] == init;
    PositionAfterEnqueue(init, t, key);
    var p := PositionOf(init, key);
    assert ts[..p] == init[..p];
    if Stale(t, timeout, now) {
      assert Survivors(ts, timeout, now) == S;
    } else {
      assert Survivors(ts, timeout, now) == S + [t];
      assert t.key !in KeysOf(S);
      PositionAfterEnqueue(S, t, key);
    }
  }
}
