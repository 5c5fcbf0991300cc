/** The singly linked heap list (src/linked_list.c). Node data are values here; `free` is recorded in a log. */
module LinkedLists {
  import opened ReturnCodes

  class Node<T> {
    var data: T
    var next: Node?<T>

    constructor (data: T, next: Node?<T>)
      ensures this.data == data && this.next == next
    {
      this.data, this.next := data, next;
    }
  }

  ghost predicate NoDuplicates<T>(s: seq<T>) {
    forall i, j :: 0 <= i < j < |s| ==> s[i] != s[j]
  }

  /** The pointer to the `i`-th of `nodes`, or null past the last one. */
  ghost function NodeAt<T>(nodes: seq<Node<T>>, i: nat): Node?<T> {
    if i < |nodes| then nodes[i] else null
  }

  class LinkedList<T> {
    var head: Node?<T>
    const sameKey: Option<(T, T) -> bool>  // `compare_function` yields 0
    ghost var contents: seq<T>  // the data in the list, in order
    ghost var nodes: seq<Node<T>>  // the nodes of the list, in order
    ghost var freed: seq<Node<T>>  // the nodes freed so far, each with its data
    ghost var Repr: set<object>

    /** Walking from `head` visits exactly `nodes`, which hold `contents`. No node is in the list
        twice, freed twice, or reachable after it was freed. */
    ghost predicate Valid()
      reads this, Repr
      ensures Valid() ==> this in Repr
    {
      && this in Repr
      && (forall n :: n in nodes ==> n in Repr)
      && head == NodeAt(nodes, 0)
      && (forall i {:trigger nodes[i].next} :: 0 <= i < |nodes| ==> nodes[i].next == NodeAt(nodes, i + 1))
      && |contents| == |nodes|
      && (forall i :: 0 <= i < |nodes| ==> nodes[i].data == contents[i])
      && NoDuplicates(nodes)
      && NoDuplicates(freed)
      && (forall n :: n in nodes ==> n !in freed)
    }

    constructor (sameKey: Option<(T, T) -> bool>)
      ensures Valid() && fresh(Repr) && contents == [] && freed == [] && this.sameKey == sameKey
    {
      head, this.sameKey, contents, nodes, freed, Repr := null, sameKey, [], [], [], {this};
    }

    method IsEmpty() returns (isEmpty: bool)
      requires Valid()
      ensures isEmpty <==> contents == []
    {
      isEmpty := head == null;
    }

    method Prepend(data: T)
      requires Valid()
      modifies this
      ensures Valid() && fresh(Repr - old(Repr))
      ensures contents == [data] + old(contents) && freed == old(freed)
    {
      var node := new Node(data, head);
      head := node;
      contents, nodes, Repr := [data] + contents, [node] + nodes, Repr + {node};
    }

    method GetFirst() returns (r: Result<Node<T>>)
      requires Valid()
      ensures r == if nodes == [] then Err(LinkedListEmpty) else Ok(nodes[0])
    {
      if head == null {
        return Err(LinkedListEmpty);
      }
      r := Ok(head);
    }

    method RemoveFirst() returns (code: ReturnCode)
      requires Valid()
      modifies this
      ensures Valid() && Repr == old(Repr)
      ensures old(nodes) == [] ==> code == LinkedListEmpty && nodes == [] && freed == old(freed)
      ensures old(nodes) != [] ==>
                && code == Success
                && nodes == old(nodes)[1..]
                && contents == old(contents)[1..]
                && freed == old(freed) + [old(nodes)[0]]
    {
      var first := GetFirst();
      if first.IsFailure() {
        return first.code;
      }
      head := first.value.next;
      assert first.value in nodes && first.value == nodes[0];
      contents, nodes, freed := contents[1..], nodes[1..], freed + [nodes[0]];
      assert forall i :: 0 <= i < |nodes| ==> nodes[i] == old(nodes)[i + 1];
      code := Success;
    }

    /** `linked_list_destroy`: frees every node exactly once. */
    method Destroy() returns (code: ReturnCode)
      requires Valid()
      modifies this
      ensures Valid() && code == Success && contents == [] && nodes == []
      ensures multiset(freed) == multiset(old(freed)) + multiset(old(nodes))
    {
      var isEmpty := IsEmpty();
      while !isEmpty
        invariant Valid()
        invariant isEmpty <==> nodes == []
        invariant Repr == old(Repr)
        invariant multiset(freed) + multiset(nodes) == multiset(old(freed)) + multiset(old(nodes))
        decreases |nodes|
      {
        ghost var was := nodes;
        code := RemoveFirst();
        assert was == [was[0]] + nodes;
        isEmpty := IsEmpty();
      }
      code := Success;
    }

    /** The first node whose data compares equal to `data`, or null. */
    method Find(data: T) returns (r: Result<Node?<T>>, ghost index: nat)
      requires Valid()
      ensures sameKey == None ==> r == Err(NoCompareFunction)
      ensures sameKey.Some? ==>
                && r.Ok?
                && index <= |contents|
                && r.value == NodeAt(nodes, index)
                && (index < |contents| ==> sameKey.value(data, contents[index]))
                && forall i :: 0 <= i < index ==> !sameKey.value(data, contents[i])
    {
      index := 0;
      if sameKey == None {
        return Err(NoCompareFunction), index;
      }
      var ptr := head;
      while ptr != null
        invariant index <= |nodes| && ptr == NodeAt(nodes, index)
        invariant forall i :: 0 <= i < index ==> !sameKey.value(data, contents[i])
        decreases |nodes| - index
      {
        if sameKey.value(data, ptr.data) {
          return Ok(ptr), index;
        }
        ptr, index := ptr.next, index + 1;
      }
      r := Ok(null);
    }

    method GetLast() returns (r: Result<Node<T>>)
      requires Valid()
      ensures r == if nodes == [] then Err(LinkedListEmpty) else Ok(nodes[|nodes| - 1])
      ensures r.Ok? ==> contents != [] && r.value.data == contents[|contents| - 1]
    {
      if head == null {
        return Err(LinkedListEmpty);
      }
      var ptr := head;
      ghost var index := 0;
      while ptr.next != null
        invariant index < |nodes| && ptr == nodes[index]
        decreases |nodes| - index
      {
        ptr, index := ptr.next, index + 1;
      }
      r := Ok(ptr);
    }

    method Append(data: T)
      requires Valid()
      modifies Repr
      ensures Valid() && fresh(Repr - old(Repr))
      ensures contents == old(contents) + [data] && freed == old(freed)
    {
      if head == null {
        Prepend(data);
        return;
      }
      var last := GetLast();
      var node := new Node(data, null);
      last.value.next := node;
      ghost var was := nodes;
      contents, nodes, Repr := contents + [data], nodes + [node], Repr + {node};
      assert forall i :: 0 <= i < |was| ==> nodes[i] == was[i];
    }

    method Length() returns (length: nat)
      requires Valid()
      ensures length == |contents|
    {
      length := 0;
      var node := head;
      while node != null
        invariant length <= |nodes| && node == NodeAt(nodes, length)
        decreases |nodes| - length
      {
        length := length + 1;
        node := node.next;
      }
    }

    /** Makes `prev`, or the list itself, skip `node`, and frees `node` with its data. */
    method Unlink(prev: Node?<T>, node: Node<T>, ghost k: nat)
      requires Valid()
      requires k < |nodes| && node == nodes[k] && prev == if k == 0 then null else nodes[k - 1]
      modifies Repr
      ensures Valid() && Repr == old(Repr)
      ensures nodes == old(nodes)[..k] + old(nodes)[k + 1..]
      ensures contents == old(contents)[..k] + old(contents)[k + 1..]
      ensures freed == old(freed) + [node]
      ensures prev != null ==> nodes[k - 1] == prev && prev.next == NodeAt(nodes, k)
    {
      assert node in nodes;
      if prev == null {
        head := node.next;
      } else {
        prev.next := node.next;
      }
      ghost var was := nodes;
      nodes := nodes[..k] + nodes[k + 1..];
      contents := contents[..k] + contents[k + 1..];
      freed := freed + [node];
      assert forall i :: 0 <= i < k ==> nodes[i] == was[i];
      assert forall i :: k <= i < |nodes| ==> nodes[i] == was[i + 1];
    }

    /** Overwrites the data that `node` points to. */
    method SetData(node: Node<T>, data: T, ghost k: nat)
      requires Valid()
      requires k < |nodes| && node == nodes[k]
      modifies Repr
      ensures Valid() && Repr == old(Repr)
      ensures contents == old(contents)[k := data] && nodes == old(nodes) && freed == old(freed)
    {
      assert node in nodes;
      node.data := data;
      contents := contents[k := data];
    }
  }
}
