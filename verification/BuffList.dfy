/** The circular doubly linked list of hal/atbm_skbuf.c, against the sequence it stands for. */
module BuffList {
  class Link {
    var next: Link?
    var prev: Link?

    constructor ()
      ensures next == null && prev == null
    {
      next, prev := null, null;
    }
  }

  /** The links in order, from the head around to the head again. */
  function Around(head: Link, nodes: seq<Link>): seq<Link> {
    [head] + nodes + [head]
  }

  ghost predicate Joined(around: seq<Link>, i: nat)
    requires i + 1 < |around|
    reads around
  {
    around[i].next == around[i + 1] && around[i + 1].prev == around[i]
  }

  /** Every link is joined to the next one. */
  ghost predicate Ring(head: Link, nodes: seq<Link>)
    reads head, nodes
  {
    forall i :: 0 <= i <= |nodes| ==> Joined(Around(head, nodes), i)
  }

  ghost predicate Distinct(head: Link, nodes: seq<Link>) {
    head !in nodes && forall i, j :: 0 <= i < j < |nodes| ==> nodes[i] != nodes[j]
  }

  function Inserted<T>(s: seq<T>, k: nat, x: T): seq<T>
    requires k <= |s|
  {
    s[..k] + [x] + s[k..]
  }

  function Removed<T>(s: seq<T>, k: nat): seq<T>
    requires k < |s|
  {
    s[..k] + s[k + 1..]
  }

  /** struct atbm_buff_head: its own links and the length. */
  class Head {
    const links: Link
    var qlen: int
    ghost var nodes: seq<Link>

    ghost predicate Valid()
      reads this, links, nodes
    {
      qlen == |nodes| && Distinct(links, nodes) && Ring(links, nodes)
    }

    constructor ()
      ensures Valid() && nodes == [] && fresh(links)
    {
      links := new Link();
      qlen, nodes := 0, [];
      new;
      links.next, links.prev := links, links;
    }

    /** __atbm_skb_insert, between two neighbours. */
    method Insert(newsk: Link, prev: Link, next: Link, ghost k: nat)
      requires Valid() && newsk != links && newsk !in nodes && k <= |nodes|
      requires var around := Around(links, nodes); prev == around[k] && next == around[k + 1]
      modifies this, newsk, prev, next
      ensures Valid() && nodes == Inserted(old(nodes), k, newsk)
    {
      ghost var was := Around(links, nodes);
      newsk.next := next;
      newsk.prev := prev;
      next.prev := newsk;
      prev.next := newsk;
      qlen := qlen + 1;
      nodes := Inserted(nodes, k, newsk);
      ghost var around := Around(links, nodes);
      forall i | 0 <= i <= |nodes| ensures Joined(around, i) {
        if i < k { assert old(Joined(was, i)); }
        if i > k + 1 { assert old(Joined(was, i - 1)); }
      }
    }

    /** __skb_unlink_. */
    method Unlink(skb: Link, ghost k: nat)
      requires Valid() && k < |nodes| && nodes[k] == skb
      modifies this, skb, Around(links, nodes)[k], Around(links, nodes)[k + 2]
      ensures Valid() && nodes == Removed(old(nodes), k) && skb.next == null && skb.prev == null
    {
      ghost var was := Around(links, nodes);
      assert Joined(was, k) && Joined(was, k + 1);
      qlen := qlen - 1;
      var next, prev := skb.next, skb.prev;
      skb.next, skb.prev := null, null;
      next.prev := prev;
      prev.next := next;
      nodes := Removed(nodes, k);
      ghost var around := Around(links, nodes);
      forall i | 0 <= i <= |nodes| ensures Joined(around, i) {
        if i < k { assert old(Joined(was, i)); }
        if i > k { assert old(Joined(was, i + 1)); }
      }
    }

    /** atbm_skb_queue_tail. */
    method QueueTail(newsk: Link)
      requires Valid() && newsk != links && newsk !in nodes
      modifies this, newsk, links, nodes
      ensures Valid() && nodes == old(nodes) + [newsk]
    {
      assert Joined(Around(links, nodes), |nodes|);
      Insert(newsk, links.prev, links, |nodes|);
    }

    /** atbm_skb_dequeue. */
    method Dequeue() returns (skb: Link?)
      requires Valid()
      modifies this, links, nodes
      ensures Valid()
      ensures if old(nodes) == [] then skb == null && nodes == []
              else skb == old(nodes)[0] && nodes == old(nodes)[1..] && skb.next == null && skb.prev == null
    {
      assert Joined(Around(links, nodes), 0);
      skb := links.next;
      if skb == links {
        return null;
      }
      Unlink(skb, 0);
    }

    /** atbm_skb_queue_purge; the buffers come off in order. */
    method Purge() returns (ghost freed: seq<Link>)
      requires Valid()
      modifies this, links, nodes
      ensures Valid() && nodes == [] && freed == old(nodes)
    {
      hide Ring, Distinct;
      freed := [];
      ghost var all := nodes;
      while true
        invariant Valid() && |freed| <= |all| && freed == all[..|freed|] && nodes == all[|freed|..]
        invariant forall i :: 0 <= i < |nodes| ==> nodes[i] in all
        decreases |nodes|
      {
        var skb := Dequeue();
        if skb == null {
          break;
        }
        freed := freed + [skb];
      }
    }
  }
}
