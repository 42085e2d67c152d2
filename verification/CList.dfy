/**
 The C registry: a hand-written singly linked list with `head` and `tail`.
 Removing the only node leaves `tail` at the detached node, and the next add writes through it.
 */
module CList {
  import opened Types
  import Registry
  import Lookup

  class ServiceInfoNode {
    const info: ServiceInfo
    var next: ServiceInfoNode?

    constructor (info: ServiceInfo)
      ensures this.info == info && next == null
    {
      this.info := info;
      next := null;
    }
  }

  /** The node at position `i` of a chain, or null past its end. */
  ghost function NodeAt(chain: seq<ServiceInfoNode>, i: nat): ServiceInfoNode? {
    if i < |chain| then chain[i] else null
  }

  ghost function Without<T>(l: seq<T>, i: nat): (r: seq<T>)
    requires i < |l|
    ensures |r| == |l| - 1
    ensures forall j :: 0 <= j < |r| ==> r[j] == if j < i then l[j] else l[j + 1]
  {
    l[..i] + l[i + 1..]
  }

  lemma LastWithout<T>(l: seq<T>, i: nat)
    requires i < |l|
    ensures var r := Without(l, i);
            r != [] ==> r[|r| - 1] == if i == |l| - 1 then l[i - 1] else l[|l| - 1]
  {
  }

  ghost predicate Linked(chain: seq<ServiceInfoNode>)
    reads chain
  {
    forall i {:trigger chain[i].next} :: 0 <= i < |chain| ==> chain[i].next == NodeAt(chain, i + 1)
  }

  /** A chain that ends in null has no cycle: its nodes are pairwise distinct. */
  lemma {:induction false} Acyclic(chain: seq<ServiceInfoNode>, i: nat, j: nat)
    requires Linked(chain) && i < j < |chain|
    ensures chain[i] != chain[j]
    decreases |chain| - j
  {
    if chain[i] == chain[j] {
      assert chain[i].next == chain[j].next;
      if j + 1 < |chain| {
        Acyclic(chain, i + 1, j + 1);
      }
    }
  }

  ghost predicate Holds(chain: seq<ServiceInfoNode>, contents: seq<ServiceInfo>) {
    && |chain| == |contents|
    && forall i :: 0 <= i < |chain| ==> chain[i].info == contents[i]
  }

  ghost predicate Inside(chain: seq<ServiceInfoNode>, Repr: set<object>) {
    forall i :: 0 <= i < |chain| ==> chain[i] in Repr
  }

  lemma WithoutKeeps(chain: seq<ServiceInfoNode>, contents: seq<ServiceInfo>, i: nat, Repr: set<object>)
    requires i < |chain| && Holds(chain, contents) && Inside(chain, Repr)
    ensures Inside(Without(chain, i), Repr)
    ensures Holds(Without(chain, i), Without(contents, i))
  {
  }

  /** Once the predecessor of node `i` points past it, the other nodes form a chain. */
  lemma Shortcut(chain: seq<ServiceInfoNode>, i: nat)
    requires i < |chain|
    requires forall j {:trigger chain[j].next} ::
               0 <= j < |chain| && j != i && j != i - 1 ==> chain[j].next == NodeAt(chain, j + 1)
    requires i > 0 ==> chain[i - 1].next == NodeAt(chain, i + 1)
    ensures Linked(Without(chain, i))
  {
  }

  lemma Extended(chain: seq<ServiceInfoNode>, contents: seq<ServiceInfo>, node: ServiceInfoNode, Repr: set<object>)
    requires Holds(chain, contents) && Inside(chain, Repr)
    requires node !in Repr && node.next == null
    requires forall j {:trigger chain[j].next} :: 0 <= j < |chain| ==> chain[j].next == NodeAt(chain + [node], j + 1)
    ensures Inside(chain + [node], Repr + {node})
    ensures Holds(chain + [node], contents + [node.info])
    ensures Linked(chain + [node])
  {
    var c := chain + [node];
    assert forall j :: 0 <= j < |chain| ==> c[j] == chain[j];
    assert c[|chain|] == node;
  }

  lemma {:induction false} IndexIs(l: seq<ServiceInfo>, k: ServiceKey, i: nat)
    requires i < |l| && l[i].Key() == k
    requires forall j :: 0 <= j < i ==> l[j].Key() != k
    ensures Registry.IndexOf(l, k) == i
  {
    if i == 0 {
    } else {
      IndexIs(l[1..], k, i - 1);
    }
  }

  class ServiceInfoList {
    var head: ServiceInfoNode?
    var tail: ServiceInfoNode?

    ghost var contents: seq<ServiceInfo>
    /** The chain that starts at `head`. */
    ghost var chain: seq<ServiceInfoNode>
    /** The list, its chain, and every node it has detached. */
    ghost var Repr: set<object>

    ghost predicate Valid()
      reads this, chain
    {
      && this in Repr
      && Inside(chain, Repr)
      && Holds(chain, contents)
      && Linked(chain)
      && head == NodeAt(chain, 0)
      && (chain != [] ==> tail == chain[|chain| - 1])
      && (tail != null ==> tail in Repr)
    }

    /** The list is empty, but `tail` still points to a node that once was its only one. */
    ghost predicate StaleTail()
      reads this
    {
      chain == [] && tail != null
    }

    constructor ()
      ensures Valid() && contents == [] && !StaleTail()
      ensures fresh(Repr)
    {
      head, tail := null, null;
      contents, chain, Repr := [], [], {this};
    }

    /** The three branches of `list_remove`: an inner node, the last node, the first node. */
    method Relink(prev: ServiceInfoNode?, next: ServiceInfoNode?, ghost i: nat)
      requires Valid() && i < |chain| && next == chain[i].next
      requires prev == if i == 0 then null else chain[i - 1]
      modifies `head, `tail, prev
      ensures head == if i == 0 then next else old(head)
      ensures tail == if i > 0 && i == |chain| - 1 then chain[i - 1] else old(tail)
      ensures i > 0 ==> chain[i - 1].next == NodeAt(chain, i + 1)
      ensures forall j {:trigger chain[j].next} ::
                0 <= j < |chain| && j != i - 1 ==> chain[j].next == NodeAt(chain, j + 1)
    {
      forall j | 0 <= j < |chain| && j != i - 1 ensures i > 0 ==> chain[j] != prev {
        if 0 < i {
          Acyclic(chain, if j < i - 1 then j else i - 1, if j < i - 1 then i - 1 else j);
        }
      }
      if prev != null {
        if next != null {
          prev.next := next;
        } else {
          prev.next := null;
          tail := prev;
        }
      } else {
        head := next;
      }
    }

    /** The ghost half of `Unlink`: the chain and the contents lose position `i`. */
    ghost method Forget(i: nat)
      requires i < |chain| && Inside(chain, Repr) && Holds(chain, contents) && Linked(Without(chain, i))
      requires this in Repr && (tail != null ==> tail in Repr)
      requires var rest := Without(chain, i);
               head == NodeAt(rest, 0) && (rest != [] ==> tail == rest[|rest| - 1])
      modifies `contents, `chain
      ensures Valid()
      ensures contents == Without(old(contents), i)
    {
      WithoutKeeps(chain, contents, i, Repr);
      contents := Without(contents, i);
      chain := Without(chain, i);
    }

    /** Takes the node at position `i` out of the chain. */
    method Unlink(prev: ServiceInfoNode?, node: ServiceInfoNode, next: ServiceInfoNode?, ghost i: nat)
      requires Valid() && i < |chain| && node == chain[i] && next == node.next
      requires prev == if i == 0 then null else chain[i - 1]
      modifies this, prev
      ensures Valid() && Repr == old(Repr)
      ensures contents == Without(old(contents), i)
      ensures contents == [] ==> tail == node
    {
      Relink(prev, next, i);
      Shortcut(chain, i);
      LastWithout(chain, i);
      Forget(i);
    }

    method Remove(device: Text, service: Text) returns (r: int)
      requires Valid()
      modifies Repr
      ensures Valid() && Repr == old(Repr)
      ensures contents == Registry.RemoveKey(old(contents), ServiceKey(device, service))
      ensures r == if Registry.HasKey(old(contents), ServiceKey(device, service)) then 0 else -1
      ensures old(contents) != [] && contents == [] ==> StaleTail()
      ensures contents == old(contents) ==> chain == old(chain) && tail == old(tail)
    {
      ghost var k := ServiceKey(device, service);
      ghost var i := 0;
      var prev: ServiceInfoNode? := null;
      var node := head;
      r := -1;
      while node != null
        invariant i <= |chain| && node == NodeAt(chain, i)
        invariant prev == if i == 0 then null else chain[i - 1]
        invariant forall j :: 0 <= j < i ==> contents[j].Key() != k
        decreases |chain| - i
      {
        var next := node.next;
        if node.info.device == device && node.info.service == service {
          IndexIs(contents, k, i);
          Unlink(prev, node, next, i);
          r := 0;
          break;
        }
        prev := node;
        node := next;
        i := i + 1;
      }
    }

    /** Links a new node behind `tail`; when the list is empty that write goes to a detached node or nowhere. */
    method Append(node: ServiceInfoNode)
      requires Valid() && node !in Repr && node.next == null
      modifies this, tail
      ensures Valid() && Repr == old(Repr) + {node}
      ensures contents == old(contents) + [node.info]
      ensures chain == old(chain) + [node]
    {
      forall j | 0 <= j < |chain| - 1 ensures chain[j] != tail {
        Acyclic(chain, j, |chain| - 1);
      }
      if head == null {
        head := node;
      }
      if tail == null {
        tail := node;
      } else {
        tail.next := node;
        tail := node;
      }
      Extended(chain, contents, node, Repr);
      contents := contents + [node.info];
      chain := chain + [node];
      Repr := Repr + {node};
    }

    method Add(info: ServiceInfo)
      requires Valid()
      modifies Repr
      ensures Valid() && fresh(Repr - old(Repr))
      ensures contents == Registry.Put(old(contents), info)
      ensures !StaleTail()
    {
      var node := new ServiceInfoNode(info);
      var _ := Remove(info.device, info.service);
      Append(node);
    }

    /** The positional lookup: the entry at `index`, if it has the given name. */
    method Get(service: Text, index: nat) returns (r: Option<ServiceInfo>)
      requires Valid()
      ensures r == Lookup.GetAt(contents, service, index)
    {
      var node := head;
      var i := 0;
      while node != null
        invariant i <= |chain| && node == NodeAt(chain, i)
        invariant index < i ==> Lookup.GetAt(contents, service, index).None?
        decreases |chain| - i
      {
        var next := node.next;
        if i == index && node.info.service == service {
          return Some(node.info);
        }
        node := next;
        i := i + 1;
      }
      r := None;
    }
  }
}
