/**
 The response cache as the program runs it: one object whose fields are updated in place. Each
 method is proved to take its state where the value-level step of `RouteCache` takes it.
 */
module LruCache {
  import opened Prelude
  import opened RouteCache

  class Cache<V> {
    var index: map<u64, nat>
    var nodes: seq<LruNode<V>>
    var head: nat
    var tail: nat
    var maxEntries: u64
    var free: seq<nat>

    ghost function State(): State<V>
      reads this
    {
      RouteCache.State(index, nodes, head, tail, maxEntries, free)
    }

    constructor (maxEntries: u64)
      ensures State() == New(maxEntries)
    {
      this.index, this.nodes, this.head, this.tail := map[], [], NULL_NODE, NULL_NODE;
      this.maxEntries, this.free := maxEntries, [];
    }

    method SetLinks(i: nat, prev: nat, next: nat)
      requires i < |nodes|
      modifies `nodes
      ensures nodes == old(nodes)[i := old(nodes)[i].(prev := prev, next := next)]
    {
      nodes := nodes[i := nodes[i].(prev := prev, next := next)];
    }

    method PushHead(i: nat)
      requires InRange(State()) && i < |nodes|
      modifies this
      ensures State() == RouteCache.PushHead(old(State()), i)
    {
      SetLinks(i, NULL_NODE, head);
      if head != NULL_NODE { SetLinks(head, i, nodes[head].next); }
      head := i;
      if tail == NULL_NODE { tail := i; }
    }

    method RemoveLink(i: nat)
      requires InRange(State()) && i < |nodes|
      modifies this
      ensures State() == RouteCache.RemoveLink(old(State()), i)
    {
      var prev, next := nodes[i].prev, nodes[i].next;
      if prev != NULL_NODE { SetLinks(prev, nodes[prev].prev, next); } else { head := next; }
      if next != NULL_NODE { SetLinks(next, prev, nodes[next].next); } else { tail := prev; }
    }

    method RemoveNode(i: nat)
      requires InRange(State()) && i < |nodes|
      modifies this
      ensures State() == RouteCache.RemoveNode(old(State()), i)
    {
      RemoveLink(i);
      nodes := nodes[i := nodes[i].(value := None)];
      free := free + [i];
    }

    method MoveToHead(i: nat)
      requires InRange(State()) && i < |nodes|
      modifies this
      ensures State() == RouteCache.MoveToHead(old(State()), i)
    {
      if head == i { return; }
      RemoveLink(i);
      PushHead(i);
    }

    method Get(key: u64, now: nat) returns (r: Option<Entry<V>>)
      requires InRange(State())
      modifies this
      ensures (State(), r) == RouteCache.Get(old(State()), key, now)
    {
      if key in index {
        var i := index[key];
        if nodes[i].value.Some? && now < nodes[i].value.value.expiresAt {
          MoveToHead(i);
          return nodes[i].value;
        }
        RemoveNode(i);
        index := index - {key};
      }
      return None;
    }

    method Invalidate(key: u64)
      requires InRange(State())
      modifies this
      ensures State() == RouteCache.Invalidate(old(State()), key)
    {
      if key in index {
        RemoveNode(index[key]);
        index := index - {key};
      }
    }

    /** `asWritten` chooses between the program's eviction and the one that does not free the tail. */
    method Insert(key: u64, entry: Entry<V>, asWritten: bool)
      requires InRange(State())
      modifies this
      ensures State() == RouteCache.Insert(old(State()), key, entry, asWritten)
    {
      if key in index {
        var i := index[key];
        nodes := nodes[i := nodes[i].(value := Some(entry))];
        MoveToHead(i);
        return;
      }
      var slot;
      if free != [] {
        slot := free[|free| - 1];
        free := free[..|free| - 1];
      } else if |nodes| < maxEntries {
        slot := |nodes|;
        nodes := nodes + [LruNode(0, None, NULL_NODE, NULL_NODE)];
      } else if tail != NULL_NODE {
        slot := tail;
        EvictTail(asWritten);
      } else {
        return;
      }
      nodes := nodes[slot := nodes[slot].(key := key, value := Some(entry))];
      index := index[key := slot];
      PushHead(slot);
    }

    method EvictTail(asWritten: bool)
      requires InRange(State()) && tail != NULL_NODE
      modifies this
      ensures State() == Evict(old(State()), asWritten)
    {
      var key := nodes[tail].key;
      if asWritten { RemoveNode(tail); } else { RemoveLink(tail); }
      index := index - {key};
    }
  }
}
