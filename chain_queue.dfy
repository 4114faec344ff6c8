/**
  The keyed FIFO of login tickets: a hand-rolled doubly linked list plus a
  key-to-node index. Pointer naming is inverted with respect to the usual
  convention: `previous` points toward the newer (tail) side and `next`
  toward the older (head) side. Every node carries its position (how many
  tickets are ahead of it) and the time it was last touched.

  The ghost sequence `nodes` lists the chain from the head to the tail and
  `Contents` is the abstract queue of module Tickets; `Valid()` ties the
  pointers, the positions, the counters and the index to both.
*/
module Utilities {
  import opened Common
  import opened Tickets

  class ChainElement<K, T> {
    var previous: ChainElement?<K, T>  // the newer neighbour (toward the tail)
    var next: ChainElement?<K, T>      // the older neighbour (toward the head)
    const key: K
    const value: T
    var time: int
    var position: int

    constructor (key: K, value: T, time: int, position: int)
      ensures this.key == key && this.value == value
      ensures this.time == time && this.position == position
      ensures previous == null && next == null
    {
      this.key := key;
      this.value := value;
      this.time := time;
      this.position := position;
      previous := null;
      next := null;
    }

    /** Hangs this node behind the current tail `last`, if there is one. */
    method AttachToTheEndOfChain(last: ChainElement?<K, T>)
      requires last != this
      modifies this`next, {last}`previous
      ensures last != null ==> last.previous == this && next == last
      ensures last == null ==> next == old(next)
    {
      if last != null {
        last.previous := this;
        next := last;
      }
    }

    /** The first half of `Remove`: points this node's two neighbours at
        each other. */
    method Unlink(ghost chain: seq<ChainElement<K, T>>, ghost k: nat)
      requires Linked(chain) && Numbered(chain) && k < |chain| && chain[k] == this
      modifies chain`previous, chain`next
      ensures Linked(chain[..k] + chain[k + 1..])
      ensures previous == old(previous) && next == old(next)
      ensures Numbered(chain)
      ensures forall j {:trigger chain[j].previous} | k <= j < |chain| ::
                chain[j].previous == if j + 1 < |chain| then chain[j + 1] else null
    {
      ghost var rest := chain[..k] + chain[k + 1..];
      assert previous == if k + 1 < |chain| then chain[k + 1] else null;
      assert next == if k == 0 then null else chain[k - 1];
      if previous != null {
        previous.next := next;
      }
      if next != null {
        next.previous := previous;
      }
      forall j | 0 <= j < |chain| && j != k - 1 ensures chain[j].previous == old(chain[j].previous) {
        if k > 0 {
          assert old(chain[j].position) != old(chain[k - 1].position);
        }
      }
      forall j | 0 <= j < |chain| && j != k + 1 ensures chain[j].next == old(chain[j].next) {
        if k + 1 < |chain| {
          assert old(chain[j].position) != old(chain[k + 1].position);
        }
      }
      BypassKeepsLinked(chain, k);
    }

    /** The second half of `Remove`: walks from this node, index k of a
        chain numbered from 0, toward the tail, giving every newer node the
        position one less than its index. */
    method RenumberNewer(ghost chain: seq<ChainElement<K, T>>, ghost k: nat)
      requires Numbered(chain) && k < |chain| && chain[k] == this
      requires forall j {:trigger chain[j].previous} | k <= j < |chain| ::
                 chain[j].previous == if j + 1 < |chain| then chain[j + 1] else null
      modifies chain`position
      ensures forall j :: 0 <= j < |chain| ==> chain[j].position == if k < j then j - 1 else j
    {
      var el := this;
      var pos := position;
      var i := 0;
      while el.previous != null
        invariant k + i < |chain| && el == chain[k + i]
        invariant forall j {:trigger chain[j]} :: 0 <= j < |chain| ==> old(chain[j].position) == j
        invariant forall j :: 0 <= j < |chain| ==> chain[j].position == if k < j <= k + i then j - 1 else j
        invariant pos == k
        decreases |chain| - k - i
      {
        el := el.previous;
        el.position := pos + i;
        i := i + 1;
      }
    }

    /** Unlinks this node, the one at index k of a linked chain numbered
        from 0, and renumbers every newer node contiguously from this node's
        position, so that the rest of the chain is again linked and numbered.
        The node keeps its own `previous` and `next`, which the eviction walk
        relies on. */
    method Remove(ghost chain: seq<ChainElement<K, T>>, ghost k: nat, ghost rest: seq<ChainElement<K, T>>)
      requires Linked(chain) && Numbered(chain) && RemovedAt(rest, chain, k) && chain[k] == this
      modifies chain`previous, chain`next, chain`position
      ensures Linked(rest) && Numbered(rest)
      ensures previous == old(previous) && next == old(next)
    {
      RemovedAtIsCut(rest, chain, k);
      Unlink(chain, k);
      RenumberNewer(chain, k);
      RenumberedAfterRemoveAt(chain, k);
    }
  }

  /** Nodes numbered by index before k and by index minus one after it are
      numbered once node k is taken out. */
  lemma RenumberedAfterRemoveAt<K, T>(chain: seq<ChainElement<K, T>>, k: nat)
    requires k < |chain|
    requires forall j :: 0 <= j < k ==> chain[j].position == j
    requires forall j :: k < j < |chain| ==> chain[j].position == j - 1
    ensures Numbered(chain[..k] + chain[k + 1..])
  {
    var rest := chain[..k] + chain[k + 1..];
    forall j | 0 <= j < |rest| ensures rest[j].position == j {
      if j < k {
        assert rest[j] == chain[j];
      } else {
        assert rest[j] == chain[j + 1];
      }
    }
  }

  /** A chain whose node k has been bypassed (its two neighbours point at
      each other, every other link as before) is linked without node k. */
  lemma BypassKeepsLinked<K, T>(chain: seq<ChainElement<K, T>>, k: nat)
    requires k < |chain|
    requires forall j {:trigger chain[j].previous} | 0 <= j < |chain| && j != k - 1 && j != k ::
               chain[j].previous == if j + 1 < |chain| then chain[j + 1] else null
    requires forall j {:trigger chain[j].next} | 0 <= j < |chain| && j != k + 1 && j != k ::
               chain[j].next == if j == 0 then null else chain[j - 1]
    requires k > 0 ==> chain[k - 1].previous == if k + 1 < |chain| then chain[k + 1] else null
    requires k + 1 < |chain| ==> chain[k + 1].next == if k == 0 then null else chain[k - 1]
    ensures Linked(chain[..k] + chain[k + 1..])
  {
    var rest := chain[..k] + chain[k + 1..];
    forall j | 0 <= j < |rest|
      ensures rest[j].previous == if j + 1 < |rest| then rest[j + 1] else null
    {
      if j + 1 < k {
        assert rest[j] == chain[j] && rest[j + 1] == chain[j + 1];
        assert chain[j].previous == chain[j + 1];
      } else if j + 1 == k {
        assert rest[j] == chain[k - 1];
        if j + 1 < |rest| {
          assert rest[j + 1] == chain[k + 1];
        }
      } else {
        assert rest[j] == chain[j + 1];
        assert chain[j + 1].previous == if j + 2 < |chain| then chain[j + 2] else null;
        if j + 1 < |rest| {
          assert rest[j + 1] == chain[j + 2];
        }
      }
    }
    forall j | 0 <= j < |rest|
      ensures rest[j].next == if j == 0 then null else rest[j - 1]
    {
      if j < k {
        assert rest[j] == chain[j];
        assert chain[j].next == if j == 0 then null else chain[j - 1];
        if j > 0 {
          assert rest[j - 1] == chain[j - 1];
        }
      } else if j == k {
        assert rest[j] == chain[k + 1];
        if j > 0 {
          assert rest[j - 1] == chain[k - 1];
        }
      } else {
        assert rest[j] == chain[j + 1] && rest[j - 1] == chain[j];
        assert chain[j + 1].next == chain[j];
      }
    }
    assert Linked(rest);
  }

  /** `ns` is a well-formed chain from the head (index 0) to the tail: each
      node points at its neighbours. */
  ghost predicate Linked<K, T>(ns: seq<ChainElement<K, T>>)
    reads ns`previous, ns`next
  {
    && (forall i {:trigger ns[i].previous} :: 0 <= i < |ns| ==>
          ns[i].previous == if i + 1 < |ns| then ns[i + 1] else null)
    && (forall i {:trigger ns[i].next} :: 0 <= i < |ns| ==>
          ns[i].next == if i == 0 then null else ns[i - 1])
  }

  /** Every node of `ns` records its own index as its position; in
      particular no node occurs twice. */
  ghost predicate Numbered<K, T>(ns: seq<ChainElement<K, T>>)
    reads ns`position
  {
    forall i {:trigger ns[i].position} :: 0 <= i < |ns| ==> ns[i].position == i
  }

  /** Appending a node `n` behind the tail of a linked chain, with the two
      links between the old tail and `n` set, gives a linked chain. */
  lemma AppendKeepsLinked<K, T>(chain: seq<ChainElement<K, T>>, n: ChainElement<K, T>)
    requires forall j {:trigger chain[j].previous} | 0 <= j < |chain| - 1 :: chain[j].previous == chain[j + 1]
    requires forall j {:trigger chain[j].next} | 0 <= j < |chain| ::
               chain[j].next == if j == 0 then null else chain[j - 1]
    requires |chain| > 0 ==> chain[|chain| - 1].previous == n
    requires n.previous == null
    requires n.next == if |chain| == 0 then null else chain[|chain| - 1]
    ensures Linked(chain + [n])
  {
    var s := chain + [n];
    forall j | 0 <= j < |s|
      ensures s[j].previous == if j + 1 < |s| then s[j + 1] else null
      ensures s[j].next == if j == 0 then null else s[j - 1]
    {
      if j < |chain| {
        assert s[j] == chain[j];
        assert j > 0 ==> s[j - 1] == chain[j - 1];
        assert j + 1 < |chain| ==> s[j + 1] == chain[j + 1];
      }
    }
  }

  /** The nodes carry exactly the key, payload and time of the tickets. */
  ghost predicate Mirrors<K, T>(ns: seq<ChainElement<K, T>>, ts: seq<Ticket<K, T>>)
    reads ns`time
  {
    && |ns| == |ts|
    && forall i {:trigger ts[i]} :: 0 <= i < |ns| ==>
         ns[i].key == ts[i].key && ns[i].value == ts[i].value && ns[i].time == ts[i].time
  }

  /** A node appended with its ticket keeps the nodes and tickets in step. */
  lemma MirrorsSnoc<K, T>(ns: seq<ChainElement<K, T>>, ts: seq<Ticket<K, T>>,
                          n: ChainElement<K, T>, t: Ticket<K, T>)
    requires Mirrors(ns, ts)
    requires n.key == t.key && n.value == t.value && n.time == t.time
    ensures Mirrors(ns + [n], ts + [t])
  {
    forall j | 0 <= j < |ns| ensures (ns + [n])[j] == ns[j] && (ts + [t])[j] == ts[j] {
    }
  }

  /** Taking node c out with ticket c keeps the nodes and tickets in step. */
  lemma MirrorsRemoveAt<K, T>(ns: seq<ChainElement<K, T>>, ts: seq<Ticket<K, T>>, c: nat,
                              ns': seq<ChainElement<K, T>>, ts': seq<Ticket<K, T>>)
    requires Mirrors(ns, ts) && RemovedAt(ns', ns, c) && RemovedAt(ts', ts, c)
    ensures Mirrors(ns', ts')
  {
    forall j | 0 <= j < |ns'|
      ensures ns'[j].key == ts'[j].key && ns'[j].value == ts'[j].value && ns'[j].time == ts'[j].time
    {
      var o := if j < c then j else j + 1;
      assert ns'[j] == ns[o] && ts'[j] == ts[o];
    }
  }

  /** The keys on a chain; keys never change, so no heap is read. */
  ghost function NodeKeys<K, T>(ns: seq<ChainElement<K, T>>): set<K>
  {
    set i | 0 <= i < |ns| :: ns[i].key
  }

  /** Taking out node c, whose key no other node carries, takes out exactly
      its key. */
  lemma NodeKeysRemoveAt<K, T>(ns: seq<ChainElement<K, T>>, c: nat)
    requires c < |ns|
    requires forall i :: 0 <= i < |ns| && i != c ==> ns[i].key != ns[c].key
    ensures NodeKeys(ns[..c] + ns[c + 1..]) == NodeKeys(ns) - {ns[c].key}
  {
    var rest := ns[..c] + ns[c + 1..];
    assert forall i :: 0 <= i < |rest| ==> rest[i] == ns[if i < c then i else i + 1];
    forall k | k in NodeKeys(ns) - {ns[c].key} ensures k in NodeKeys(rest) {
      var j :| 0 <= j < |ns| && ns[j].key == k;
      assert rest[if j < c then j else j - 1] == ns[j];
    }
  }

  /** Taking node c and its key out keeps the key index in step. */
  lemma IndexedRemoveAt<K, T>(elements: map<K, ChainElement<K, T>>, ns: seq<ChainElement<K, T>>, c: nat,
                              rest: seq<ChainElement<K, T>>)
    requires Indexed(elements, ns) && RemovedAt(rest, ns, c)
    requires forall i {:trigger ns[i].key} :: 0 <= i < |ns| && i != c ==> ns[i].key != ns[c].key
    ensures Indexed(elements - {ns[c].key}, rest)
  {
    RemovedAtIsCut(rest, ns, c);
    NodeKeysRemoveAt(ns, c);
    forall i | 0 <= i < |rest|
      ensures rest[i].key in elements - {ns[c].key} && (elements - {ns[c].key})[rest[i].key] == rest[i]
    {
      var j := if i < c then i else i + 1;
      assert rest[i] == ns[j];
      assert ns[j].key != ns[c].key;
    }
  }

  /** Nodes in step with tickets carry the tickets' keys. */
  lemma MirroredKeys<K, T>(ns: seq<ChainElement<K, T>>, ts: seq<Ticket<K, T>>)
    requires Mirrors(ns, ts)
    ensures KeysOf(ts) == NodeKeys(ns)
  {
    forall k | k in KeysOf(ts) ensures k in NodeKeys(ns) {
      var i :| 0 <= i < |ts| && ts[i].key == k;
      assert ns[i].key == k;
    }
    forall k | k in NodeKeys(ns) ensures k in KeysOf(ts) {
      var i :| 0 <= i < |ns| && ns[i].key == k;
      assert ts[i].key == k;
    }
  }

  /** The key index holds exactly the keys on the chain and maps each of
      them to its node. */
  ghost predicate Indexed<K, T>(elements: map<K, ChainElement<K, T>>, ns: seq<ChainElement<K, T>>)
  {
    && elements.Keys == NodeKeys(ns)
    && (forall i {:trigger ns[i].key} :: 0 <= i < |ns| ==> ns[i].key in elements && elements[ns[i].key] == ns[i])
  }

  class ChainQueue<K(==), T> {
    var Count: int
    var IsEmpty: bool
    var last: ChainElement?<K, T>
    var head: ChainElement?<K, T>
    var elements: map<K, ChainElement<K, T>>

    ghost var nodes: seq<ChainElement<K, T>>  // the chain, head first
    ghost var Contents: seq<Ticket<K, T>>     // the abstract queue, head first

    /** The pointers, positions, counters and key index agree with `nodes`. */
    ghost predicate Shape()
      reads this`Count, this`IsEmpty, this`last, this`head, this`elements, this`nodes
      reads nodes`previous, nodes`next, nodes`position
    {
      && Linked(nodes)
      && Numbered(nodes)
      && Indexed(elements, nodes)
      && |nodes| == Count
      && (IsEmpty <==> Count == 0)
      && (if Count == 0 then head == null && last == null
          else head == nodes[0] && last == nodes[Count - 1])
    }

    /** Shape, and the nodes stand for the tickets of `Contents`. */
    ghost predicate Valid()
      reads this, nodes`previous, nodes`next, nodes`position, nodes`time
    {
      Shape() && Mirrors(nodes, Contents)
    }

    /** The key of node c is on no other node: two nodes with one key would
        be one node of the index, hence one position. */
    lemma UniqueKeyAt(c: nat)
      requires Shape() && c < |nodes|
      ensures forall i {:trigger nodes[i].key} :: 0 <= i < |nodes| && i != c ==> nodes[i].key != nodes[c].key
    {
      forall i | 0 <= i < |nodes| && i != c ensures nodes[i].key != nodes[c].key {
        assert elements[nodes[i].key] == nodes[i] && elements[nodes[c].key] == nodes[c];
        assert nodes[i].position == i && nodes[c].position == c;
      }
    }

    /** The queued keys are distinct. */
    lemma KeysAreDistinct()
      requires Valid()
      ensures DistinctKeys(Contents)
    {
      forall i, j | 0 <= i < j < |Contents| ensures Contents[i].key != Contents[j].key {
        UniqueKeyAt(i);
        assert nodes[i].key == Contents[i].key && nodes[j].key == Contents[j].key;
      }
    }

    /** The index holds exactly the queued keys. */
    lemma KeysOfContents()
      requires Valid()
      ensures KeysOf(Contents) == elements.Keys
    {
      MirroredKeys(nodes, Contents);
    }

    constructor ()
      ensures Valid() && Contents == [] && nodes == []
    {
      Count := 0;
      IsEmpty := true;
      last := null;
      head := null;
      elements := map[];
      nodes := [];
      Contents := [];
    }

    /** The pointer and index work of Enqueue for a new node `n`: hang it
        behind the tail, then make it the tail (Adopt). */
    method Push(n: ChainElement<K, T>)
      requires Shape() && n.key !in elements
      requires n.previous == null && n.next == null && n.position == Count
      modifies this`last, this`head, this`elements, this`Count, this`IsEmpty, this`nodes
      modifies n`next, nodes`previous
      ensures Shape() && nodes == old(nodes) + [n]
      ensures Count == old(Count) + 1 && !IsEmpty
    {
      ghost var ns := nodes + [n];
      assert forall i :: 0 <= i < |nodes| ==> ns[i] == nodes[i];
      assert ns[|nodes|] == n;
      assert Indexed(elements[n.key := n], ns) by {
        assert NodeKeys(ns) == NodeKeys(nodes) + {n.key};
      }
      assert Numbered(ns) by {
        forall j | 0 <= j < |ns| ensures ns[j].position == j {
          if j < |nodes| {
            assert ns[j] == nodes[j];
          }
        }
      }
      assert last != null ==> last.key in elements;
      n.AttachToTheEndOfChain(last);
      AppendKeepsLinked(nodes, n);
      Adopt(n, ns);
    }

    /** The rest of Enqueue once node `n` hangs behind the tail of the
        chain `ns`: make it the tail (and the head of an empty queue), index
        it and count it. The index insertion always succeeds, because the
        caller only enqueues keys that are not queued. */
    method Adopt(n: ChainElement<K, T>, ghost ns: seq<ChainElement<K, T>>)
      requires Linked(ns) && Numbered(ns) && Indexed(elements[n.key := n], ns)
      requires 0 <= Count && |ns| == Count + 1 && ns[Count] == n
      requires head == null ==> Count == 0
      requires head != null ==> head == ns[0]
      modifies this`last, this`head, this`elements, this`Count, this`IsEmpty, this`nodes
      ensures Shape() && nodes == ns && Count == old(Count) + 1 && !IsEmpty
    {
      last := n;
      if head == null {
        head := n;
      }
      elements := elements[n.key := n];
      Count := Count + 1;
      IsEmpty := false;
      nodes := ns;
    }

    /** Appends a ticket for `key` at the tail, stamped with `now`; its
        position is the count before insertion. */
    method Enqueue(key: K, element: T, now: int)
      requires Valid()
      requires key !in elements
      modifies this, nodes`previous
      ensures Valid()
      ensures Contents == old(Contents) + [Ticket(key, element, now)]
      ensures |nodes| == |old(nodes)| + 1 && nodes[..|old(nodes)|] == old(nodes)
      ensures fresh(nodes[|old(nodes)|])
      ensures Count == old(Count) + 1 && !IsEmpty
    {
      ghost var ns, cs := nodes, Contents;
      var chainElement := new ChainElement(key, element, now, Count);
      Push(chainElement);
      MirrorsSnoc(ns, cs, chainElement, Ticket(key, element, now));
      Contents := cs + [Ticket(key, element, now)];
      assert nodes[..|ns|] == ns;
    }

    /** The pointer and index work of Dequeue on a non-empty queue: unlink
        the head, move the head on, drop the tail when it was the head, and
        unindex and uncount it. */
    method Pop()
      requires Shape() && Count > 0
      modifies this`last, this`head, this`elements, this`Count, this`IsEmpty, this`nodes
      modifies nodes`previous, nodes`next, nodes`position
      ensures Shape() && nodes == old(nodes)[1..] && Count == old(Count) - 1
    {
      var element := head;
      ghost var ns := nodes[1..];
      assert RemovedAt(ns, nodes, 0);
      UniqueKeyAt(0);
      IndexedRemoveAt(elements, nodes, 0, ns);
      assert |nodes| > 1 ==> last.key != element.key && element.previous == ns[0];
      element.Remove(nodes, 0, ns);
      MoveHead(element, ns);
    }

    /** The second half of Pop, once the old head is unlinked from the rest
        `ns`: move the head on, drop the tail when it was the head, unindex
        and uncount it. */
    method MoveHead(element: ChainElement<K, T>, ghost ns: seq<ChainElement<K, T>>)
      requires Linked(ns) && Numbered(ns) && Indexed(elements - {element.key}, ns)
      requires |ns| == Count - 1 && !IsEmpty && last != null
      requires element.previous == if |ns| == 0 then null else ns[0]
      requires (element.key == last.key <==> |ns| == 0)
      requires |ns| > 0 ==> last == ns[|ns| - 1]
      modifies this`last, this`head, this`elements, this`Count, this`IsEmpty, this`nodes
      ensures Shape() && nodes == ns && Count == old(Count) - 1
    {
      head := element.previous;
      if element.key == last.key {
        last := null;
      }
      if head == null {
        IsEmpty := true;
      }
      elements := elements - {element.key};
      Count := Count - 1;
      nodes := ns;
    }

    /** Removes the head ticket and returns its payload; on an empty queue
        returns None and changes nothing. */
    method Dequeue() returns (r: Option<T>)
      requires Valid()
      modifies this, nodes`previous, nodes`next, nodes`position
      ensures Valid()
      ensures old(Contents) == [] ==> r == None && unchanged(this)
      ensures old(Contents) != [] ==>
                && r == Some(old(Contents)[0].value)
                && Contents == old(Contents)[1..]
                && nodes == old(nodes)[1..]
                && Count == old(Count) - 1
    {
      var element := head;
      if element == null {
        return None;
      }
      ghost var ns, cs := nodes, Contents;
      assert element.value == cs[0].value;
      assert RemovedAt(ns[1..], ns, 0) && RemovedAt(cs[1..], cs, 0);
      MirrorsRemoveAt(ns, cs, 0, ns[1..], cs[1..]);
      Pop();
      Contents := cs[1..];
      r := Some(element.value);
    }

    /** The queue position of `key`, touching its ticket with `now`; -1 and no
        change when the key is not queued. */
    method GetPosition(key: K, now: int) returns (pos: int)
      requires Valid()
      modifies this`Contents, nodes`time
      ensures Valid() && nodes == old(nodes)
      ensures pos == PositionOf(old(Contents), key)
      ensures pos == -1 ==> Contents == old(Contents)
      ensures pos != -1 ==> Contents == old(Contents)[pos := old(Contents)[pos].(time := now)]
    {
      KeysOfContents();
      if key in elements {
        var element := elements[key];
        ghost var i := PositionOf(Contents, key);
        assert element == nodes[i];
        element.time := now;
        ghost var cs := Contents[i := Contents[i].(time := now)];
        assert Mirrors(nodes, cs) by {
          forall j | 0 <= j < |nodes|
            ensures nodes[j].key == cs[j].key && nodes[j].value == cs[j].value && nodes[j].time == cs[j].time
          {
            if j != i {
              assert nodes[j].position != nodes[i].position;
            }
          }
        }
        Contents := cs;
        return element.position;
      }
      return -1;
    }

    /** The pointer and index work of evicting node c, leaving the chain
        `rest`: unlink it, then uncount, repair and unindex it (Detach). */
    method Unhook(element: ChainElement<K, T>, ghost c: nat, ghost rest: seq<ChainElement<K, T>>)
      requires Shape() && RemovedAt(rest, nodes, c) && nodes[c] == element
      modifies this`last, this`head, this`elements, this`Count, this`IsEmpty, this`nodes
      modifies nodes`previous, nodes`next, nodes`position
      ensures Shape() && nodes == rest
      ensures element.previous == old(element.previous)
    {
      UniqueKeyAt(c);
      IndexedRemoveAt(elements, nodes, c, rest);
      assert head.key == element.key ==> c == 0;
      assert last.key == element.key ==> c == |nodes| - 1;
      assert c > 0 ==> element.next == rest[c - 1];
      assert c + 1 < |nodes| ==> element.previous == rest[c];
      element.Remove(nodes, c, rest);
      Detach(element, rest);
    }

    /** The rest of an eviction once `element` is unlinked from the chain
        `rest`: the count decrement, the head and tail repair
        (cleanHeadAndLast) and the index removal. */
    method Detach(element: ChainElement<K, T>, ghost rest: seq<ChainElement<K, T>>)
      requires Linked(rest) && Numbered(rest) && Indexed(elements - {element.key}, rest)
      requires |rest| == Count - 1 && !IsEmpty && head != null && last != null
      requires head.key == element.key ==> element.previous == if |rest| == 0 then null else rest[0]
      requires head.key != element.key ==> |rest| > 0 && head == rest[0]
      requires last.key == element.key ==> element.next == if |rest| == 0 then null else rest[|rest| - 1]
      requires last.key != element.key ==> |rest| > 0 && last == rest[|rest| - 1]
      modifies this`last, this`head, this`elements, this`Count, this`IsEmpty, this`nodes
      ensures Shape() && nodes == rest && Count == old(Count) - 1
    {
      Count := Count - 1;
      if head.key == element.key {
        if element.previous == null {
          head := null;
          IsEmpty := true;
        } else {
          head := element.previous;
        }
      }
      if last.key == element.key {
        if element.next == null {
          last := null;
        } else {
          last := element.next;
        }
      }
      elements := elements - {element.key};
      nodes := rest;
    }

    /** One visit of the eviction walk to the node at index c. A ticket
        touched more than `timeOutMilliseconds` ms before `now` is evicted
        (actionRemoveTimeOutMilliseconds, then cleanHeadAndLast and the index
        removal); any other visit changes nothing. */
    method TryEvict(element: ChainElement<K, T>, ghost c: nat, timeOutMilliseconds: int, now: int)
      returns (evicted: bool)
      requires Valid() && c < |nodes| && nodes[c] == element
      modifies this, nodes`previous, nodes`next, nodes`position
      ensures Valid()
      ensures evicted <==> Stale(old(Contents)[c], timeOutMilliseconds, now)
      ensures evicted ==> RemovedAt(nodes, old(nodes), c) && RemovedAt(Contents, old(Contents), c)
      ensures !evicted ==> nodes == old(nodes) && Contents == old(Contents)
      ensures forall i :: 0 <= i < |nodes| ==> nodes[i] in old(nodes)
      ensures element.previous == old(element.previous)
    {
      evicted := element.time + timeOutMilliseconds < now;
      if evicted {
        ghost var rest := nodes[..c] + nodes[c + 1..];
        ghost var cs := Contents[..c] + Contents[c + 1..];
        assert RemovedAt(rest, nodes, c);
        assert RemovedAt(cs, Contents, c);
        MirrorsRemoveAt(nodes, Contents, c, rest, cs);
        Unhook(element, c, rest);
        Contents := cs;
      }
    }

    /** One step of the eviction walk over the original tickets `origC`:
        the visit to node c, which holds ticket idx, with the eviction
        callback's keys collected in `removed`. */
    method Visit(element: ChainElement<K, T>, ghost c: nat, ghost origC: seq<Ticket<K, T>>, ghost idx: nat,
                 timeOutMilliseconds: int, now: int, removed: seq<K>)
      returns (evicted: bool, removed': seq<K>)
      requires Valid() && c < |nodes| && nodes[c] == element && idx < |origC|
      requires Contents == Survivors(origC[..idx], timeOutMilliseconds, now) + origC[idx..]
      requires c == |Survivors(origC[..idx], timeOutMilliseconds, now)|
      requires removed == EvictedKeys(origC[..idx], timeOutMilliseconds, now)
      modifies this, nodes`previous, nodes`next, nodes`position
      ensures Valid()
      ensures Contents == Survivors(origC[..idx + 1], timeOutMilliseconds, now) + origC[idx + 1..]
      ensures |Survivors(origC[..idx + 1], timeOutMilliseconds, now)| == if evicted then c else c + 1
      ensures removed' == EvictedKeys(origC[..idx + 1], timeOutMilliseconds, now)
      ensures |nodes| == if evicted then |old(nodes)| - 1 else |old(nodes)|
      ensures evicted ==> c < |old(nodes)| - 1 ==> nodes[c] == element.previous
      ensures !evicted ==> nodes == old(nodes)
      ensures forall i :: 0 <= i < |nodes| ==> nodes[i] in old(nodes)
      ensures element.previous == old(element.previous)
    {
      SweepFront(origC, idx, timeOutMilliseconds, now, Contents);
      ghost var cs := Contents;
      evicted := TryEvict(element, c, timeOutMilliseconds, now);
      SweepStep(origC, idx, timeOutMilliseconds, now, cs, Contents);
      removed' := removed;
      if evicted {
        removed' := removed + [element.key];
      }
    }

    /** Evicts every ticket last touched more than `timeOutMilliseconds` ms
        before `now`, wherever it sits, renumbering the newer ones. Returns the
        evicted keys in head-to-tail order: the calls of `removedEvent`. */
    method RemoveTimeOut(timeOutMilliseconds: int, now: int) returns (removed: seq<K>)
      requires Valid()
      modifies this, nodes`previous, nodes`next, nodes`position
      ensures Valid()
      ensures Contents == Survivors(old(Contents), timeOutMilliseconds, now)
      ensures removed == EvictedKeys(old(Contents), timeOutMilliseconds, now)
      ensures forall i :: 0 <= i < |nodes| ==> nodes[i] in old(nodes)
    {
      ghost var orig, origC := nodes, Contents;
      var element := head;
      removed := [];
      ghost var c := 0;    // index in nodes of `element`
      ghost var idx := 0;  // index in origC of the ticket of `element`
      while element != null
        invariant Valid()
        invariant 0 <= c <= |nodes| && 0 <= idx <= |origC| && |nodes| - c == |origC| - idx
        invariant element == if c < |nodes| then nodes[c] else null
        invariant forall i :: 0 <= i < |nodes| ==> nodes[i] in orig
        invariant Contents == Survivors(origC[..idx], timeOutMilliseconds, now) + origC[idx..]
        invariant c == |Survivors(origC[..idx], timeOutMilliseconds, now)|
        invariant removed == EvictedKeys(origC[..idx], timeOutMilliseconds, now)
        decreases |nodes| - c
      {
        var evicted;
        evicted, removed := Visit(element, c, origC, idx, timeOutMilliseconds, now, removed);
        if !evicted {
          c := c + 1;
        }
        element := element.previous;
        idx := idx + 1;
      }
      assert origC[..idx] == origC;
    }

    /** The lines of the queue dump, head first: each ticket's index and key. */
    method ToString() returns (lines: seq<(int, K)>)
      requires Valid()
      ensures |lines| == |Contents|
      ensures forall i :: 0 <= i < |lines| ==> lines[i] == (i, Contents[i].key)
    {
      lines := [];
      var el := head;
      var i := 0;
      while el != null
        invariant 0 <= i <= |nodes|
        invariant el == if i < |nodes| then nodes[i] else null
        invariant |lines| == i
        invariant forall j :: 0 <= j < i ==> lines[j] == (j, Contents[j].key)
        decreases |nodes| - i
      {
        lines := lines + [(i, el.key)];
        el := el.previous;
        i := i + 1;
      }
    }
  }
}
