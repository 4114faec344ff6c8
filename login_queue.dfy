/**
  The login admission queue: one ChainQueue of login requests keyed by
  request id, a membership set of the queued ids (the `_inQueue`
  dictionary, whose values are always true), and the account store the
  drainer writes to. The two background loops of the service become one
  method per iteration: `ReaperStep` (evict stale tickets) and `DrainerTick`
  (admit up to `prefetch` requests). The account store is a ghost map from
  public key to account.
*/
module LoginQueue {
  import opened Common
  import opened Tickets
  import opened Utilities

  /** A queued login attempt. */
  datatype LoginRequest = LoginRequest(id: string, publicKey: string, signature: string)

  /** What a polling client is told. `waiting` is never assigned by the
      service, so it keeps its default, false. */
  datatype LoginStatus = LoginStatus(state: string, position: int, total: int, waiting: bool)

  /** The stored account fields the drainer reads and writes. */
  datatype Account = Account(publicKey: string, signature: string, isLogged: bool)

  /** The reaper evicts tickets untouched for more than this many ms. */
  const EvictionTimeoutMs := 10000

  /** The account store after one admitted request: a new logged account
      for an unknown public key, otherwise the existing account marked as
      logged. */
  function Admit(accounts: map<string, Account>, r: LoginRequest): (a: map<string, Account>)
    ensures a.Keys == accounts.Keys + {r.publicKey}
    ensures a[r.publicKey].isLogged
    ensures r.publicKey !in accounts ==>
              a[r.publicKey].publicKey == r.publicKey && a[r.publicKey].signature == r.signature
    ensures r.publicKey in accounts ==>
              a[r.publicKey].signature == accounts[r.publicKey].signature
              && a[r.publicKey].publicKey == accounts[r.publicKey].publicKey
    ensures forall pk :: pk in accounts && pk != r.publicKey ==> a[pk] == accounts[pk]
  {
    if r.publicKey !in accounts then
      accounts[r.publicKey := Account(r.publicKey, r.signature, true)]
    else
      accounts[r.publicKey := accounts[r.publicKey].(isLogged := true)]
  }

  /** The account store after admitting `rs` in order. */
  function AdmitAll(accounts: map<string, Account>, rs: seq<LoginRequest>): map<string, Account>
  {
    if rs == [] then accounts else Admit(AdmitAll(accounts, rs[..|rs| - 1]), rs[|rs| - 1])
  }

  /** The public keys of a sequence of requests. */
  function PublicKeys(rs: seq<LoginRequest>): set<string>
  {
    set i | 0 <= i < |rs| :: rs[i].publicKey
  }

  /** The public keys of a sequence grown by one request. */
  lemma PublicKeysSnoc(rs: seq<LoginRequest>, r: LoginRequest)
    ensures PublicKeys(rs + [r]) == PublicKeys(rs) + {r.publicKey}
  {
    var s := rs + [r];
    forall pk | pk in PublicKeys(s) ensures pk in PublicKeys(rs) + {r.publicKey} {
      var i :| 0 <= i < |s| && s[i].publicKey == pk;
      if i < |rs| { assert rs[i].publicKey == pk; }
    }
    forall pk | pk in PublicKeys(rs) ensures pk in PublicKeys(s) {
      var i :| 0 <= i < |rs| && rs[i].publicKey == pk;
      assert s[i].publicKey == pk;
    }
    assert s[|rs|].publicKey == r.publicKey;
  }

  /** After admitting `rs`, every admitted public key maps to a logged
      account, and every other account is exactly as it was. */
  lemma {:induction false} AdmitAllLogsIn(accounts: map<string, Account>, rs: seq<LoginRequest>)
    ensures AdmitAll(accounts, rs).Keys == accounts.Keys + PublicKeys(rs)
    ensures forall i :: 0 <= i < |rs| ==> AdmitAll(accounts, rs)[rs[i].publicKey].isLogged
    ensures forall pk :: pk in accounts && pk !in PublicKeys(rs) ==> AdmitAll(accounts, rs)[pk] == accounts[pk]
  {
    if rs != [] {
      var init, r := rs[..|rs| - 1], rs[|rs| - 1];
      AdmitAllLogsIn(accounts, init);
      assert rs == init + [r];
      PublicKeysSnoc(init, r);
      forall i | 0 <= i < |rs| ensures AdmitAll(accounts, rs)[rs[i].publicKey].isLogged {
        if i < |init| && rs[i].publicKey != r.publicKey {
          assert rs[i] == init[i];
        }
      }
    }
  }

  /** The payloads of a sequence of tickets, in order. */
  function Payloads<K, T>(ts: seq<Ticket<K, T>>): (r: seq<T>)
    ensures |r| == |ts| && forall i :: 0 <= i < |ts| ==> r[i] == ts[i].value
  {
    seq(|ts|, i requires 0 <= i < |ts| => ts[i].value)
  }

  /** The ids of a sequence of requests. */
  function Ids(rs: seq<LoginRequest>): set<string>
  {
    set i | 0 <= i < |rs| :: rs[i].id
  }

  /** Admitting one more request: its id joins the admitted ids and its
      account is admitted last. */
  lemma AdmittedSnoc(rs: seq<LoginRequest>, r: LoginRequest, accounts: map<string, Account>)
    ensures Ids(rs + [r]) == Ids(rs) + {r.id}
    ensures AdmitAll(accounts, rs + [r]) == Admit(AdmitAll(accounts, rs), r)
  {
    var s := rs + [r];
    assert s[..|rs|] == rs;
    forall id | id in Ids(s) ensures id in Ids(rs) + {r.id} {
      var i :| 0 <= i < |s| && s[i].id == id;
      if i < |rs| { assert rs[i].id == id; }
    }
    forall id | id in Ids(rs) ensures id in Ids(s) {
      var i :| 0 <= i < |rs| && rs[i].id == id;
      assert s[i].id == id;
    }
    assert s[|rs|].id == r.id;
  }

  /** Taking the ticket at index k off the front of the rest `ts[k..]`. */
  lemma DrainStep<K, T>(ts: seq<Ticket<K, T>>, k: nat)
    requires k < |ts|
    ensures Payloads(ts[..k + 1]) == Payloads(ts[..k]) + [ts[k].value]
    ensures ts[k..][1..] == ts[k + 1..] && ts[k..][0] == ts[k]
  {
  }

  /** How many requests one drainer tick takes from a queue of `queued`
      requests: `prefetch` of them, or all when fewer are queued. */
  function DrainCount(prefetch: int, queued: nat): (n: nat)
    ensures n <= queued && (prefetch >= 0 ==> n <= prefetch)
    ensures n < queued ==> n == if prefetch < 0 then 0 else prefetch
    ensures prefetch <= 0 ==> n == 0
  {
    if prefetch <= 0 then 0 else if prefetch < queued then prefetch else queued
  }

  class LoginQueueService {
    const prefetch: int  // requests admitted per drainer tick
    var inQueue: set<string>
    const chainQueue: ChainQueue<string, LoginRequest>
    ghost var accounts: map<string, Account>  // the account store, by public key

    /** The queue is well formed, every ticket is filed under its request's
        id, and the membership set holds exactly the queued ids. */
    ghost predicate Valid()
      reads this, chainQueue, chainQueue.nodes`previous, chainQueue.nodes`next
      reads chainQueue.nodes`position, chainQueue.nodes`time
    {
      && chainQueue.Valid()
      && inQueue == KeysOf(chainQueue.Contents)
      && forall i :: 0 <= i < |chainQueue.Contents| ==> chainQueue.Contents[i].value.id == chainQueue.Contents[i].key
    }

    constructor (prefetch: int, ghost accounts: map<string, Account>)
      ensures Valid() && fresh(chainQueue)
      ensures chainQueue.Contents == [] && inQueue == {}
      ensures this.prefetch == prefetch && this.accounts == accounts
    {
      this.prefetch := prefetch;
      chainQueue := new ChainQueue();
      inQueue := {};
      this.accounts := accounts;
    }

    /** Files a login request at the tail of the queue under its id and
        marks the id as queued; returns the id. The caller only pushes ids
        that are not queued. */
    method PushLogin(loginRequest: LoginRequest, now: int) returns (id: string)
      requires Valid() && loginRequest.id !in inQueue
      modifies this`inQueue, chainQueue, chainQueue.nodes`previous
      ensures Valid() && id == loginRequest.id
      ensures chainQueue.Contents == old(chainQueue.Contents) + [Ticket(loginRequest.id, loginRequest, now)]
      ensures inQueue == old(inQueue) + {loginRequest.id}
      ensures |chainQueue.nodes| == |old(chainQueue.nodes)| + 1
      ensures chainQueue.nodes[..|old(chainQueue.nodes)|] == old(chainQueue.nodes)
      ensures fresh(chainQueue.nodes[|old(chainQueue.nodes)|])
    {
      chainQueue.KeysOfContents();
      ghost var cs := chainQueue.Contents;
      chainQueue.Enqueue(loginRequest.id, loginRequest, now);
      Mark(loginRequest.id);
      KeysOfSnoc(cs, Ticket(loginRequest.id, loginRequest, now));
      return loginRequest.id;
    }

    /** Whether `id` is queued. */
    method IsInQueue(id: string) returns (b: bool)
      requires Valid()
      ensures b <==> exists i :: 0 <= i < |chainQueue.Contents| && chainQueue.Contents[i].key == id
    {
      return id in inQueue;
    }

    /** The status of request `id`: "Waiting" with its position while it is
        queued, "Logged" with position -1 otherwise (admitted, evicted or
        never pushed). Polling touches the ticket, which keeps it from the
        reaper for another EvictionTimeoutMs. */
    method GetLoginStatus(id: string, now: int) returns (status: LoginStatus)
      requires Valid()
      modifies chainQueue`Contents, chainQueue.nodes`time
      ensures Valid()
      ensures status.state == "Logged" <==> id !in old(inQueue)
      ensures status.state == "Waiting" <==> id in old(inQueue)
      ensures status.position == PositionOf(old(chainQueue.Contents), id)
      ensures status.total == |chainQueue.Contents| == |old(chainQueue.Contents)| && !status.waiting
      ensures id in inQueue ==>
                && 0 <= status.position < |chainQueue.Contents|
                && chainQueue.Contents[status.position].key == id
                && !Stale(chainQueue.Contents[status.position], EvictionTimeoutMs, now)
      ensures KeysOf(chainQueue.Contents) == KeysOf(old(chainQueue.Contents))
      ensures id !in old(inQueue) ==> chainQueue.Contents == old(chainQueue.Contents)
      ensures id in old(inQueue) ==>
                chainQueue.Contents ==
                old(chainQueue.Contents)[status.position := old(chainQueue.Contents)[status.position].(time := now)]
    {
      ghost var cs := chainQueue.Contents;
      var position := chainQueue.GetPosition(id, now);
      status := LoginStatus(if position == -1 then "Logged" else "Waiting", position, chainQueue.Count, false);
      ghost var cs' := chainQueue.Contents;
      assert KeysOf(cs') == KeysOf(cs) by {
        assert forall i :: 0 <= i < |cs| ==> cs'[i].key == cs[i].key;
      }
      assert forall i :: 0 <= i < |cs| ==> cs'[i].key == cs[i].key && cs'[i].value == cs[i].value;
    }

    /** One pass of the queue garbage collector: evicts every ticket
        untouched for more than EvictionTimeoutMs and, through the eviction
        callback, drops each evicted id from the membership set. */
    method ReaperStep(now: int) returns (removed: seq<string>)
      requires Valid()
      modifies this`inQueue, chainQueue, chainQueue.nodes`previous, chainQueue.nodes`next, chainQueue.nodes`position
      ensures Valid()
      ensures chainQueue.Contents == Survivors(old(chainQueue.Contents), EvictionTimeoutMs, now)
      ensures removed == EvictedKeys(old(chainQueue.Contents), EvictionTimeoutMs, now)
      ensures inQueue == old(inQueue) - set k | k in removed
      ensures forall i :: 0 <= i < |chainQueue.nodes| ==> chainQueue.nodes[i] in old(chainQueue.nodes)
    {
      ghost var cs := chainQueue.Contents;
      chainQueue.KeysAreDistinct();
      SurvivorKeys(cs, EvictionTimeoutMs, now);
      removed := chainQueue.RemoveTimeOut(EvictionTimeoutMs, now);
      SurvivorsAreFiled(cs, now);
      Forget(removed);
    }

    /** The reaper's eviction callback, applied to each evicted key in
        turn: drops the key from the membership set. */
    method Forget(removed: seq<string>)
      modifies this`inQueue
      ensures inQueue == old(inQueue) - set k | k in removed
    {
      var i := 0;
      while i < |removed|
        invariant 0 <= i <= |removed|
        invariant inQueue == old(inQueue) - set k | k in removed[..i]
      {
        inQueue := inQueue - {removed[i]};
        i := i + 1;
        assert removed[..i] == removed[..i - 1] + [removed[i - 1]];
      }
      assert removed[..i] == removed;
    }

    /** One tick of the login drainer: up to `prefetch` dequeues in FIFO
        order, each request still marked as queued being unmarked and its
        account logged in. Returns the admitted requests in order. */
    method DrainerTick() returns (admitted: seq<LoginRequest>)
      requires Valid()
      modifies this, chainQueue, chainQueue.nodes`previous, chainQueue.nodes`next, chainQueue.nodes`position
      ensures Valid()
      ensures var n := DrainCount(prefetch, |old(chainQueue.Contents)|);
              && admitted == Payloads(old(chainQueue.Contents)[..n])
              && chainQueue.Contents == old(chainQueue.Contents)[n..]
              && chainQueue.nodes == old(chainQueue.nodes)[n..]
      ensures inQueue == old(inQueue) - Ids(admitted)
      ensures accounts == AdmitAll(old(accounts), admitted)
    {
      ghost var cs, ns := chainQueue.Contents, chainQueue.nodes;
      ghost var inQ0, acc0 := inQueue, accounts;
      admitted := [];
      var i := 0;
      while i < prefetch
        invariant Valid()
        invariant 0 <= i && |admitted| == DrainCount(i, |cs|) && |cs| == |ns|
        invariant if prefetch > 0 then i <= prefetch else i == 0
        invariant chainQueue.Contents == cs[|admitted|..] && chainQueue.nodes == ns[|admitted|..]
        invariant admitted == Payloads(cs[..|admitted|])
        invariant inQueue == inQ0 - Ids(admitted)
        invariant accounts == AdmitAll(acc0, admitted)
        decreases prefetch - i
      {
        admitted := DrainNext(admitted, cs, ns, inQ0, acc0);
        i := i + 1;
      }
    }

    /** The drainer loop's body with its bookkeeping: `admitted` grows by
        the head of what is left of `cs`, if anything is left. */
    method DrainNext(admitted: seq<LoginRequest>, ghost cs: seq<Ticket<string, LoginRequest>>,
                     ghost ns: seq<ChainElement<string, LoginRequest>>,
                     ghost inQ0: set<string>, ghost acc0: map<string, Account>)
      returns (admitted': seq<LoginRequest>)
      requires Valid() && |admitted| <= |cs| == |ns|
      requires chainQueue.Contents == cs[|admitted|..] && chainQueue.nodes == ns[|admitted|..]
      requires admitted == Payloads(cs[..|admitted|])
      requires inQueue == inQ0 - Ids(admitted)
      requires accounts == AdmitAll(acc0, admitted)
      modifies this, chainQueue, chainQueue.nodes`previous, chainQueue.nodes`next, chainQueue.nodes`position
      ensures Valid()
      ensures |admitted'| == if |admitted| < |cs| then |admitted| + 1 else |admitted|
      ensures chainQueue.Contents == cs[|admitted'|..] && chainQueue.nodes == ns[|admitted'|..]
      ensures admitted' == Payloads(cs[..|admitted'|])
      ensures inQueue == inQ0 - Ids(admitted')
      ensures accounts == AdmitAll(acc0, admitted')
    {
      ghost var k := |admitted|;
      var taken := DrainOne();
      admitted' := admitted;
      if taken.Some? {
        DrainStep(cs, k);
        DropStep(ns, k);
        AdmittedSnoc(admitted, cs[k].value, acc0);
        admitted' := admitted + [taken.value];
      }
    }

    /** One iteration of the drainer's inner loop: when the queue is not
        empty, dequeue the head; if its id is still marked as queued,
        unmark it and log its account in. Returns the admitted request. */
    method DrainOne() returns (taken: Option<LoginRequest>)
      requires Valid()
      modifies this, chainQueue, chainQueue.nodes`previous, chainQueue.nodes`next, chainQueue.nodes`position
      ensures Valid()
      ensures old(chainQueue.Contents) == [] ==>
                && taken == None
                && chainQueue.Contents == [] && chainQueue.nodes == old(chainQueue.nodes)
                && inQueue == old(inQueue) && accounts == old(accounts)
      ensures old(chainQueue.Contents) != [] ==>
                && taken == Some(old(chainQueue.Contents)[0].value)
                && chainQueue.Contents == old(chainQueue.Contents)[1..]
                && chainQueue.nodes == old(chainQueue.nodes)[1..]
                && inQueue == old(inQueue) - {taken.value.id}
                && accounts == Admit(old(accounts), taken.value)
    {
      taken := None;
      if !chainQueue.IsEmpty {
        chainQueue.KeysAreDistinct();
        KeysOfTail(chainQueue.Contents);
        var r := chainQueue.Dequeue();
        if r.Some? && r.value.id in inQueue {
          LogIn(r.value);
          taken := r;
        }
      }
    }

    /** Files `id` in the queued-id table. */
    method Mark(id: string)
      modifies this`inQueue
      ensures inQueue == old(inQueue) + {id}
      ensures old(chainQueue.Valid()) ==> chainQueue.Valid()
      ensures chainQueue.Contents == old(chainQueue.Contents)
    {
      inQueue := inQueue + {id};
    }

    /** Admits a dequeued request whose id was still marked as queued:
        unmarks the id and creates or updates its account as logged. */
    method LogIn(loginRequest: LoginRequest)
      modifies this`inQueue, this`accounts
      ensures inQueue == old(inQueue) - {loginRequest.id}
      ensures accounts == Admit(old(accounts), loginRequest)
      ensures old(chainQueue.Valid()) ==> chainQueue.Valid()
      ensures chainQueue.Contents == old(chainQueue.Contents) && chainQueue.nodes == old(chainQueue.nodes)
    {
      inQueue := inQueue - {loginRequest.id};
      accounts := Admit(accounts, loginRequest);
    }
  }

  /** Survivors of a sweep stay filed under their requests' ids. */
  lemma SurvivorsAreFiled(ts: seq<Ticket<string, LoginRequest>>, now: int)
    requires forall i :: 0 <= i < |ts| ==> ts[i].value.id == ts[i].key
    ensures var s := Survivors(ts, EvictionTimeoutMs, now);
            forall i :: 0 <= i < |s| ==> s[i].value.id == s[i].key
  {
    if ts != [] {
      SurvivorsAreFiled(ts[..|ts| - 1], now);
    }
  }
}
