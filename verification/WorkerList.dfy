/** The circular doubly linked list of list.h, behind the queue of messages. */
module WorkerList {
  import opened WorkerPipe

  class ListHead {
    var prev: ListHead?
    var next: ListHead?

    /** init_list_head */
    constructor ()
      ensures prev == this && next == this
    {
      prev := this;
      next := this;
    }
  }

  /** The nodes of a list, from its head on: each one points to its neighbours, around the ring. */
  ghost predicate Ring(nodes: seq<ListHead>)
    reads nodes
  {
    |nodes| >= 1 && Distinct(nodes) &&
    (forall k :: 0 <= k < |nodes| ==> nodes[k].next == nodes[After(nodes, k)]) &&
    (forall k :: 0 <= k < |nodes| ==> nodes[k].prev == nodes[Before(nodes, k)])
  }

  predicate Distinct(nodes: seq<ListHead>) {
    forall i, j :: 0 <= i < j < |nodes| ==> nodes[i] != nodes[j]
  }

  function After(nodes: seq<ListHead>, k: nat): nat
    requires k < |nodes|
    ensures After(nodes, k) < |nodes|
  {
    if k + 1 < |nodes| then k + 1 else 0
  }

  function Before(nodes: seq<ListHead>, k: nat): nat
    requires k < |nodes|
    ensures Before(nodes, k) < |nodes|
  {
    if k > 0 then k - 1 else |nodes| - 1
  }

  /** __list_add: links el between two neighbours. */
  method ListInsert(el: ListHead, prev: ListHead, next: ListHead, ghost nodes: seq<ListHead>, ghost k: nat)
    requires Ring(nodes) && k < |nodes| && prev == nodes[k] && next == nodes[After(nodes, k)] && el !in nodes
    modifies el, prev, next
    ensures Ring(nodes[..k + 1] + [el] + nodes[k + 1..])
  {
    RingDistinct(nodes);
    prev.next := el;
    el.prev := prev;
    el.next := next;
    next.prev := el;
    InsertLinks(nodes, el, k);
  }

  /** All links but two are as before. */
  lemma InsertLinks(nodes: seq<ListHead>, el: ListHead, k: nat)
    requires k < |nodes| && Distinct(nodes) && el !in nodes && el.prev == nodes[k] && el.next == nodes[After(nodes, k)]
    requires nodes[k].next == el && nodes[After(nodes, k)].prev == el
    requires forall x :: 0 <= x < |nodes| && x != k ==> nodes[x].next == nodes[After(nodes, x)]
    requires forall x :: 0 <= x < |nodes| && x != After(nodes, k) ==> nodes[x].prev == nodes[Before(nodes, x)]
    ensures Ring(nodes[..k + 1] + [el] + nodes[k + 1..])
  {
    var ring := nodes[..k + 1] + [el] + nodes[k + 1..];
    InsertDistinct(nodes, el, k);
    hide Distinct;
    forall i | 0 <= i < |ring|
      ensures ring[i].next == ring[After(ring, i)] && ring[i].prev == ring[Before(ring, i)]
    {
      InsertIndex(nodes, el, k, i);
    }
  }

  lemma RingDistinct(nodes: seq<ListHead>)
    requires Ring(nodes)
    ensures Distinct(nodes) && forall k :: 0 <= k < |nodes| ==> nodes[k].next == nodes[After(nodes, k)] && nodes[k].prev == nodes[Before(nodes, k)]
  {
  }

  lemma InsertDistinct(nodes: seq<ListHead>, el: ListHead, k: nat)
    requires Distinct(nodes) && el !in nodes && k < |nodes|
    ensures Distinct(nodes[..k + 1] + [el] + nodes[k + 1..])
  {
  }

  lemma InsertAt(nodes: seq<ListHead>, el: ListHead, k: nat, i: nat)
    requires k < |nodes| && i <= |nodes|
    ensures var ring := nodes[..k + 1] + [el] + nodes[k + 1..];
      |ring| == |nodes| + 1 && ring[i] == if i <= k then nodes[i] else if i == k + 1 then el else nodes[i - 1]
  {
  }

  /** Where the nodes stand after an insertion behind node k. */
  lemma InsertIndex(nodes: seq<ListHead>, el: ListHead, k: nat, i: nat)
    requires k < |nodes| && i <= |nodes|
    ensures var ring := nodes[..k + 1] + [el] + nodes[k + 1..];
      |ring| == |nodes| + 1 && ring[i] == (if i <= k then nodes[i] else if i == k + 1 then el else nodes[i - 1]) &&
      ring[After(ring, i)] == (if i < k then nodes[i + 1] else if i == k then el else if i == k + 1 then nodes[After(nodes, k)] else nodes[After(nodes, i - 1)]) &&
      ring[Before(ring, i)] == (if i == After(ring, k + 1) then el else if i == k + 1 then nodes[k] else if i <= k then nodes[Before(nodes, i)] else nodes[i - 2])
  {
    InsertAt(nodes, el, k, i);
    InsertAt(nodes, el, k, if i + 1 <= |nodes| then i + 1 else 0);
    InsertAt(nodes, el, k, if i > 0 then i - 1 else |nodes|);
  }

  /** list_add_tail: before the head, that is at the end. */
  method ListAddTail(el: ListHead, head: ListHead, ghost nodes: seq<ListHead>)
    requires Ring(nodes) && head == nodes[0] && el !in nodes
    modifies el, nodes
    ensures Ring(nodes + [el])
  {
    assert head.prev == nodes[|nodes| - 1];
    assert nodes[..|nodes|] + [el] + nodes[|nodes|..] == nodes + [el];
    ListInsert(el, head.prev, head, nodes, |nodes| - 1);
  }

  /** list_del: the neighbours of el are linked to each other. */
  method ListDel(el: ListHead, ghost nodes: seq<ListHead>, ghost k: nat)
    requires Ring(nodes) && 1 <= k < |nodes| && el == nodes[k]
    modifies nodes
    ensures Ring(nodes[..k] + nodes[k + 1..]) && el.prev == null && el.next == null
  {
    RingDistinct(nodes);
    var prev, next := el.prev, el.next;
    assert prev == nodes[k - 1] && next == nodes[After(nodes, k)];
    prev.next := next;
    next.prev := prev;
    el.prev := null;
    el.next := null;
    RemoveLinks(nodes, k);
  }

  /** All links of the other nodes but two are as before. */
  lemma RemoveLinks(nodes: seq<ListHead>, k: nat)
    requires 1 <= k < |nodes| && Distinct(nodes)
    requires |nodes| > 1 && nodes[k - 1].next == nodes[After(nodes, k)] && nodes[After(nodes, k)].prev == nodes[k - 1]
    requires forall x :: 0 <= x < |nodes| && x != k && x != k - 1 ==> nodes[x].next == nodes[After(nodes, x)]
    requires forall x :: 0 <= x < |nodes| && x != k && x != After(nodes, k) ==> nodes[x].prev == nodes[Before(nodes, x)]
    ensures Ring(nodes[..k] + nodes[k + 1..])
  {
    var ring := nodes[..k] + nodes[k + 1..];
    RemoveDistinct(nodes, k);
    hide Distinct;
    forall i | 0 <= i < |ring|
      ensures ring[i].next == ring[After(ring, i)] && ring[i].prev == ring[Before(ring, i)]
    {
      RemoveIndex(nodes, k, i);
    }
  }

  lemma RemoveDistinct(nodes: seq<ListHead>, k: nat)
    requires Distinct(nodes) && k < |nodes|
    ensures Distinct(nodes[..k] + nodes[k + 1..])
  {
  }

  /** Where the nodes stand after the removal of node k. */
  lemma RemoveIndex(nodes: seq<ListHead>, k: nat, i: nat)
    requires 1 <= k < |nodes| && i < |nodes| - 1
    ensures var ring := nodes[..k] + nodes[k + 1..];
      |ring| == |nodes| - 1 && ring[i] == (if i < k then nodes[i] else nodes[i + 1]) &&
      ring[After(ring, i)] == (if i == k - 1 then nodes[After(nodes, k)] else if i < k then nodes[i + 1] else nodes[After(nodes, i + 1)]) &&
      ring[Before(ring, i)] == (if i == After(ring, k - 1) then nodes[k - 1] else if i < k then nodes[Before(nodes, i)] else nodes[i])
  {
  }

  /** list_empty */
  method ListEmpty(head: ListHead, ghost nodes: seq<ListHead>) returns (empty: bool)
    requires Ring(nodes) && head == nodes[0]
    ensures empty <==> |nodes| == 1
  {
    empty := head.next == head;
  }

  /** list_entry, for each of the nodes. */
  ghost function MessagesOf(els: seq<ListHead>, messages: map<ListHead, Message>): seq<Message>
    requires forall el :: el in els ==> el in messages
  {
    seq(|els|, k requires 0 <= k < |els| => assert els[k] in els; messages[els[k]])
  }

  lemma FirstMessage(els: seq<ListHead>, messages: map<ListHead, Message>)
    requires els != [] && forall el :: el in els ==> el in messages
    ensures MessagesOf(els, messages) == [messages[els[0]]] + MessagesOf(els[1..], messages)
  {
  }

  /** The queue of a message pipe: messages linked behind a head. Append and TakeFirst do to its
      contents what the steps Append and Test of WorkerPipe do to the queue of a World, and IsEmpty
      is the test that the steps Signal, Test and Clear make. */
  class MessageQueue {
    const head: ListHead
    var messages: map<ListHead, Message>   // list_entry: the message that a node is part of
    ghost var elements: seq<ListHead>

    ghost predicate Valid()
      reads this, head, elements
    {
      Ring([head] + elements) && forall el :: el in elements ==> el in messages
    }

    /** The messages in the queue, the first one first. */
    ghost function Contents(): seq<Message>
      requires Valid()
      reads this, head, elements
    {
      MessagesOf(elements, messages)
    }

    constructor ()
      ensures Valid() && elements == [] && Contents() == [] && fresh(head)
    {
      head := new ListHead();
      messages := map[];
      elements := [];
      new;
      assert [head] + elements == [head];
    }

    method IsEmpty() returns (empty: bool)
      requires Valid()
      ensures empty <==> Contents() == []
    {
      empty := ListEmpty(head, [head] + elements);
    }

    method Append(el: ListHead, m: Message)
      requires Valid() && el != head && el !in elements
      modifies this`elements, this`messages, head, elements, el
      ensures Valid() && elements == old(elements) + [el] && Contents() == old(Contents()) + [m]
    {
      ListAddTail(el, head, [head] + elements);
      assert [head] + elements + [el] == [head] + (elements + [el]);
      elements := elements + [el];
      messages := messages[el := m];
    }

    /** The first message is unlinked. */
    method TakeFirst() returns (el: ListHead, m: Message)
      requires Valid() && Contents() != []
      modifies this`elements, head, elements
      ensures Valid() && old(elements) == [el] + elements && el.prev == null && el.next == null
      ensures old(Contents()) == [m] + Contents()
    {
      assert elements != [];
      FirstMessage(elements, messages);
      hide MessagesOf;
      ghost var nodes := [head] + elements;
      assert head == nodes[0] && nodes[After(nodes, 0)] == elements[0];
      el := head.next;
      m := messages[el];
      ListDel(el, nodes, 1);
      assert nodes[..1] + nodes[2..] == [head] + elements[1..];
      elements := elements[1..];
    }
  }
}
