/**
 The compressor list of external/mtd-utils/compr.c: a circular, doubly linked, intrusive list
 kept in order of priority by registering, unregistering and changing priorities.
 */
module ComprList {
  import opened Jffs2Format

  // The result of a compressor: the code and how much of the data it is for.
  datatype Attempt = Failed | Made(code: seq<byte>, taken: nat)

  // `struct jffs2_compressor` with its embedded list_head; the head of the list is one as well.
  class Entry {
    const name: Option<string>
    const id: byte                                 // the number stored with the data
    const compress: Option<(seq<byte>, nat) -> Attempt>
    var priority: int
    var disabled: bool
    var usecount: nat
    var next: Entry?
    var prev: Entry?

    constructor (name: Option<string>, id: byte, compress: Option<(seq<byte>, nat) -> Attempt>, priority: int,
                 disabled: bool)
      ensures this.name == name && this.id == id && this.compress == compress && this.priority == priority
      ensures this.disabled == disabled && usecount == 0 && next == null && prev == null
    {
      this.name, this.id, this.compress, this.priority, this.disabled := name, id, compress, priority, disabled;
      usecount, next, prev := 0, null, null;
    }
  }

  ghost predicate Distinct(nodes: seq<Entry>) {
    forall i, j :: 0 <= i < j < |nodes| ==> nodes[i] != nodes[j]
  }

  // The neighbours in a ring.
  ghost function Succ(nodes: seq<Entry>, i: nat): Entry
    requires i < |nodes|
  {
    if i + 1 == |nodes| then nodes[0] else nodes[i + 1]
  }

  ghost function Pred(nodes: seq<Entry>, i: nat): Entry
    requires i < |nodes|
  {
    if i == 0 then nodes[|nodes| - 1] else nodes[i - 1]
  }

  ghost predicate Ring(nodes: seq<Entry>)
    reads nodes`next, nodes`prev
  {
    && Distinct(nodes)
    && (forall i :: 0 <= i < |nodes| ==> nodes[i].next == Succ(nodes, i))
    && (forall i :: 0 <= i < |nodes| ==> nodes[i].prev == Pred(nodes, i))
  }

  ghost function Inserted(nodes: seq<Entry>, k: nat, x: Entry): seq<Entry>
    requires k < |nodes|
  {
    nodes[..k + 1] + [x] + nodes[k + 1..]
  }

  lemma InsertedAt(nodes: seq<Entry>, k: nat, x: Entry, i: nat)
    requires k < |nodes| && i < |nodes|
    ensures var nodes' := Inserted(nodes, k, x); var i' := if i <= k then i else i + 1;
      && |nodes'| == |nodes| + 1 && nodes'[i'] == nodes[i] && nodes'[k + 1] == x
      && Succ(nodes', i') == (if i == k then x else Succ(nodes, i))
      && Pred(nodes', i') == (if i == (if k + 1 == |nodes| then 0 else k + 1) then x else Pred(nodes, i))
      && Succ(nodes', k + 1) == Succ(nodes, k) && Pred(nodes', k + 1) == nodes[k]
  {
  }

  lemma InsertedDistinct(nodes: seq<Entry>, k: nat, x: Entry)
    requires Distinct(nodes) && x !in nodes && k < |nodes|
    ensures Distinct(Inserted(nodes, k, x))
  {
  }

  ghost function After(nodes: seq<Entry>, k: nat): nat
    requires k < |nodes|
  {
    if k + 1 == |nodes| then 0 else k + 1
  }

  ghost function Before(nodes: seq<Entry>, k: nat): nat
    requires k < |nodes|
  {
    if k == 0 then |nodes| - 1 else k - 1
  }

  lemma Neighbours(nodes: seq<Entry>, k: nat)
    requires k < |nodes|
    ensures Succ(nodes, k) == nodes[After(nodes, k)] && Pred(nodes, k) == nodes[Before(nodes, k)]
  {
  }

  lemma PlaceOf(nodes: seq<Entry>, k: nat)
    requires Distinct(nodes) && k < |nodes|
    ensures forall i :: 0 <= i < |nodes| && nodes[i] == nodes[k] ==> i == k
  {
  }

  // The links of a ring into which `x` has been put after place `k`.
  ghost predicate Spliced(nodes: seq<Entry>, k: nat, x: Entry)
    requires k < |nodes|
    reads nodes`next, nodes`prev, x`next, x`prev
  {
    && (forall i :: 0 <= i < |nodes| ==> nodes[i].next == if i == k then x else Succ(nodes, i))
    && (forall i :: 0 <= i < |nodes| ==> nodes[i].prev == if i == After(nodes, k) then x else Pred(nodes, i))
    && x.next == Succ(nodes, k) && x.prev == nodes[k]
  }

  lemma SplicedRing(nodes: seq<Entry>, k: nat, x: Entry)
    requires k < |nodes| && Spliced(nodes, k, x) && Distinct(nodes) && x !in nodes
    ensures Ring(Inserted(nodes, k, x))
  {
    var nodes' := Inserted(nodes, k, x);
    InsertedDistinct(nodes, k, x);
    hide Distinct;
    forall i' | 0 <= i' < |nodes'| ensures nodes'[i'].next == Succ(nodes', i') && nodes'[i'].prev == Pred(nodes', i') {
      InsertedAt(nodes, k, x, if i' == k + 1 then 0 else if i' <= k then i' else i' - 1);
    }
  }

  lemma RingFacts(nodes: seq<Entry>, k: nat)
    requires Ring(nodes) && k < |nodes|
    ensures Distinct(nodes) && forall i :: 0 <= i < |nodes| ==>
            nodes[i].next == Succ(nodes, i) && nodes[i].prev == Pred(nodes, i)
    ensures After(nodes, k) < |nodes| && Succ(nodes, k) == nodes[After(nodes, k)]
    ensures forall i :: 0 <= i < |nodes| ==> (nodes[i] == nodes[k] <==> i == k)
    ensures forall i :: 0 <= i < |nodes| ==> (nodes[i] == nodes[After(nodes, k)] <==> i == After(nodes, k))
  {
  }

  // `__list_add`
  method ListInsert(x: Entry, prev: Entry, next: Entry, ghost nodes: seq<Entry>, ghost k: nat)
    requires Ring(nodes) && x !in nodes && k < |nodes| && prev == nodes[k] && next == Succ(nodes, k)
    modifies x`next, x`prev, prev`next, next`prev
    ensures Ring(Inserted(nodes, k, x))
  {
    hide Inserted, Distinct, Succ, Pred, After, Ring;
    RingFacts(nodes, k);
    next.prev := x;
    x.next := next;
    x.prev := prev;
    prev.next := x;
    SplicedRing(nodes, k, x);
  }

  ghost function Removed(nodes: seq<Entry>, k: nat): seq<Entry>
    requires k < |nodes|
  {
    nodes[..k] + nodes[k + 1..]
  }

  lemma RemovedAt(nodes: seq<Entry>, k: nat, i: nat)
    requires k < |nodes| && i < |nodes| && i != k && 1 < |nodes|
    ensures var nodes' := Removed(nodes, k); var i' := if i < k then i else i - 1;
      && |nodes'| == |nodes| - 1 && nodes'[i'] == nodes[i]
      && Succ(nodes', i') == (if i == (if k == 0 then |nodes| - 1 else k - 1) then Succ(nodes, k) else Succ(nodes, i))
      && Pred(nodes', i') == (if i == (if k + 1 == |nodes| then 0 else k + 1) then Pred(nodes, k) else Pred(nodes, i))
  {
  }

  lemma RemovedDistinct(nodes: seq<Entry>, k: nat)
    requires Distinct(nodes) && k < |nodes|
    ensures Distinct(Removed(nodes, k)) && nodes[k] !in Removed(nodes, k)
    ensures forall i, j :: 0 <= i < |nodes| && 0 <= j < |nodes| && nodes[i] == nodes[j] ==> i == j
  {
  }

  // The links of a ring out of which place `k` has been taken.
  ghost predicate Bridged(nodes: seq<Entry>, k: nat)
    requires k < |nodes|
    reads nodes`next, nodes`prev
  {
    && (forall i :: 0 <= i < |nodes| && i != k ==>
        nodes[i].next == if i == Before(nodes, k) then Succ(nodes, k) else Succ(nodes, i))
    && (forall i :: 0 <= i < |nodes| && i != k ==>
        nodes[i].prev == if i == After(nodes, k) then Pred(nodes, k) else Pred(nodes, i))
  }

  lemma BridgedRing(nodes: seq<Entry>, k: nat)
    requires 1 < |nodes| && k < |nodes| && Bridged(nodes, k) && Distinct(nodes)
    ensures Ring(Removed(nodes, k))
  {
    var nodes' := Removed(nodes, k);
    RemovedDistinct(nodes, k);
    hide Distinct;
    forall i' | 0 <= i' < |nodes'| ensures nodes'[i'].next == Succ(nodes', i') && nodes'[i'].prev == Pred(nodes', i') {
      RemovedAt(nodes, k, if i' < k then i' else i' + 1);
    }
  }

  // `__list_del`
  method ListBridge(prev: Entry, next: Entry, ghost nodes: seq<Entry>, ghost k: nat)
    requires Ring(nodes) && k < |nodes| && prev == Pred(nodes, k) && next == Succ(nodes, k)
    modifies prev`next, next`prev
    ensures Bridged(nodes, k)
  {
    next.prev := prev;
    prev.next := next;
  }

  // `list_del`
  method ListDelete(x: Entry, ghost nodes: seq<Entry>, ghost k: nat)
    requires Ring(nodes) && k < |nodes| && x == nodes[k] && 1 < |nodes|
    modifies nodes`next, nodes`prev
    ensures Ring(Removed(nodes, k)) && x.next == null && x.prev == null
  {
    PlaceOf(nodes, k);
    Neighbours(nodes, k);
    ListBridge(x.prev, x.next, nodes, k);
    hide Succ, Pred, Distinct;
    x.next := null;
    x.prev := null;
    BridgedRing(nodes, k);
  }

  // Where an entry of priority `p` goes: before the first one of lower priority.
  ghost function Slot(entries: seq<Entry>, p: int): (k: nat)
    reads entries`priority
    ensures k <= |entries| && (forall i :: 0 <= i < k ==> entries[i].priority >= p)
    ensures k < |entries| ==> entries[k].priority < p
  {
    if entries == [] || entries[0].priority < p then 0 else 1 + Slot(entries[1..], p)
  }

  ghost predicate Sorted(entries: seq<Entry>)
    reads entries`priority
  {
    forall i, j :: 0 <= i < j < |entries| ==> entries[i].priority >= entries[j].priority
  }

  lemma BelowSlot(entries: seq<Entry>, p: int, i: nat)
    requires Sorted(entries) && Slot(entries, p) <= i < |entries|
    ensures entries[i].priority < p
  {
    var k := Slot(entries, p);
    hide Slot;
    assert i > k ==> entries[k].priority >= entries[i].priority;
  }

  // The list stays in order, and the newcomer is behind its equals.
  lemma SlotKeepsOrder(entries: seq<Entry>, x: Entry)
    requires Sorted(entries)
    ensures var k := Slot(entries, x.priority);
      Sorted(entries[..k] + [x] + entries[k..]) && forall i :: k <= i < |entries| ==> entries[i].priority < x.priority
  {
    var k := Slot(entries, x.priority);
    forall i | k <= i < |entries| ensures entries[i].priority < x.priority {
      BelowSlot(entries, x.priority, i);
    }
    assert forall i :: 0 <= i < k ==> entries[i].priority >= x.priority;
    hide Slot;
    PutInOrder(entries, x, k);
  }

  lemma PutInOrder(entries: seq<Entry>, x: Entry, k: nat)
    requires Sorted(entries) && k <= |entries|
    requires forall i :: k <= i < |entries| ==> entries[i].priority < x.priority
    requires forall i :: 0 <= i < k ==> entries[i].priority >= x.priority
    ensures Sorted(entries[..k] + [x] + entries[k..])
  {
    var entries' := entries[..k] + [x] + entries[k..];
    assert entries'[k] == x;
    forall i, j | 0 <= i < j < |entries'| ensures entries'[i].priority >= entries'[j].priority {
      PutAt(entries, x, k, i);
      PutAt(entries, x, k, j);
    }
  }

  lemma PutAt(entries: seq<Entry>, x: Entry, k: nat, i: nat)
    requires k <= |entries| && i <= |entries|
    ensures (entries[..k] + [x] + entries[k..])[i] == if i < k then entries[i] else if i == k then x else entries[i - 1]
  {
  }

  lemma RemovalKeepsOrder(entries: seq<Entry>, k: nat)
    requires Sorted(entries) && k < |entries|
    ensures Sorted(entries[..k] + entries[k + 1..])
  {
    var rest := entries[..k] + entries[k + 1..];
    forall i, j | 0 <= i < j < |rest| ensures rest[i].priority >= rest[j].priority {
      assert rest[i] == entries[if i < k then i else i + 1] && rest[j] == entries[if j < k then j else j + 1];
    }
  }

  lemma RingAt(nodes: seq<Entry>, i: nat)
    requires Ring(nodes) && i < |nodes|
    ensures nodes[i].next == Succ(nodes, i) && nodes[i].prev == Pred(nodes, i)
  {
  }

  lemma RingStep(head: Entry, entries: seq<Entry>, k: nat)
    requires Ring([head] + entries)
    ensures head.next == if entries == [] then head else entries[0]
    ensures k < |entries| ==> entries[k].next == if k + 1 < |entries| then entries[k + 1] else head
  {
    RingAt([head] + entries, 0);
    if k < |entries| {
      RingAt([head] + entries, k + 1);
    }
  }

  lemma RingHead(head: Entry, entries: seq<Entry>)
    requires Ring([head] + entries)
    ensures head !in entries
  {
    HeadApart(head, entries);
  }

  // The ring of the list with an entry put in at place `k`.
  lemma InsertedEntries(head: Entry, entries: seq<Entry>, k: nat, x: Entry)
    requires k <= |entries|
    ensures Inserted([head] + entries, k, x) == [head] + (entries[..k] + [x] + entries[k..])
  {
  }

  lemma RemovedEntries(head: Entry, entries: seq<Entry>, k: nat)
    requires k < |entries|
    ensures Removed([head] + entries, k + 1) == [head] + (entries[..k] + entries[k + 1..])
  {
  }

  lemma HeadApart(head: Entry, entries: seq<Entry>)
    requires Distinct([head] + entries)
    ensures head !in entries && Distinct(entries)
  {
    var nodes := [head] + entries;
    forall i | 0 <= i < |entries| ensures entries[i] != head && nodes[i + 1] == entries[i] {
      assert nodes[0] != nodes[i + 1];
    }
  }

  lemma SlotIs(entries: seq<Entry>, p: int, k: nat)
    requires k <= |entries| && (forall i :: 0 <= i < k ==> entries[i].priority >= p)
    requires k < |entries| ==> entries[k].priority < p
    ensures Slot(entries, p) == k
  {
    hide Slot;
  }

  ghost predicate Named(entries: seq<Entry>) {
    forall i :: 0 <= i < |entries| ==> entries[i].name.Some?
  }

  lemma NamedStill(entries: seq<Entry>, k: nat, x: Entry)
    requires Named(entries) && k <= |entries|
    ensures x.name.Some? ==> Named(entries[..k] + [x] + entries[k..])
    ensures k < |entries| ==> Named(entries[..k] + entries[k + 1..])
  {
  }

  class Compressors {
    const head: Entry
    ghost var entries: seq<Entry>

    ghost predicate Linked()
      reads this, head, entries
    {
      Ring([head] + entries) && Named(entries)
    }

    // The list is well formed and in order of priority.
    ghost predicate Valid()
      reads this, head, entries
    {
      Linked() && Sorted(entries)
    }

    constructor ()
      ensures Valid() && entries == [] && fresh(head)
    {
      head := new Entry(None, 0, None, 0, false);
      entries := [];
      new;
      head.next := head;
      head.prev := head;
      assert [head] + [] == [head];
    }

    // The first entry of lower priority, or the head of the list.
    method FindLower(p: int) returns (at: Entry, ghost k: nat)
      requires Linked()
      ensures Linked() && k == Slot(entries, p)
      ensures at == if Slot(entries, p) < |entries| then entries[Slot(entries, p)] else head
    {
      hide Ring, Succ, Pred, Distinct, Sorted, Slot;
      ghost var nodes := [head] + entries;
      RingStep(head, entries, 0);
      RingHead(head, entries);
      at, k := head.next, 0;
      while at != head && at.priority >= p
        invariant k <= |entries| && at == (if k < |entries| then entries[k] else head) && Ring(nodes)
        invariant forall i :: 0 <= i < k ==> entries[i].priority >= p
        decreases |entries| - k
      {
        RingStep(head, entries, k);
        at, k := at.next, k + 1;
      }
      SlotIs(entries, p, k);
    }

    // `list_add` before an entry, or `list_add_tail`.
    method LinkBefore(comp: Entry, at: Entry, ghost k: nat, ghost entries': seq<Entry>)
      requires Linked() && comp != head && comp !in entries && k <= |entries|
      requires at == if k < |entries| then entries[k] else head
      requires entries' == entries[..k] + [comp] + entries[k..] && Sorted(entries')
      modifies head`next, head`prev, entries`next, entries`prev, comp`next, comp`prev
      ensures Ring([head] + entries') && Sorted(entries')
    {
      ghost var nodes := [head] + entries;
      RingAt(nodes, 0);
      RingAt(nodes, k);
      if k < |entries| {
        RingAt(nodes, k + 1);
      }
      HeadApart(head, entries);
      InsertedEntries(head, entries, k, comp);
      hide Ring, Sorted;
      if at != head {
        ListInsert(comp, at.prev, at.prev.next, nodes, k);
      } else {
        ListInsert(comp, head.prev, head, nodes, k);
      }
    }

    // Both insertions of the file: before the first entry of lower priority, else at the end.
    method Insert(comp: Entry)
      requires Valid() && comp != head && comp !in entries && comp.name.Some?
      modifies `entries, head`next, head`prev, entries`next, entries`prev, comp`next, comp`prev
      ensures Valid()
      ensures entries == old(var k := Slot(entries, comp.priority); entries[..k] + [comp] + entries[k..])
    {
      ghost var before := entries;
      var at;
      ghost var k;
      at, k := FindLower(comp.priority);
      SlotKeepsOrder(entries, comp);
      NamedStill(entries, k, comp);
      hide Ring, Slot, Sorted, Named;
      ghost var entries' := before[..k] + [comp] + before[k..];
      LinkBefore(comp, at, k, entries');
      entries := entries';
    }

    method Register(comp: Entry) returns (r: int)
      requires Valid() && comp != head && comp !in entries
      modifies `entries, head`next, head`prev, entries`next, entries`prev, comp`next, comp`prev, comp`usecount
      ensures Valid() && r == if comp.name.Some? then 0 else -1
      ensures entries == if comp.name.None? then old(entries)
                         else old(var k := Slot(entries, comp.priority); entries[..k] + [comp] + entries[k..])
    {
      if comp.name.None? {
        return -1;
      }
      comp.usecount := 0;
      Insert(comp);
      r := 0;
    }

    method Detach(comp: Entry, ghost k: nat, ghost entries': seq<Entry>)
      requires Ring([head] + entries) && k < |entries| && comp == entries[k]
      requires entries' == entries[..k] + entries[k + 1..] && Sorted(entries')
      modifies head`next, head`prev, entries`next, entries`prev
      ensures Ring([head] + entries') && Sorted(entries')
    {
      RemovedEntries(head, entries, k);
      hide Ring, Sorted;
      ListDelete(comp, [head] + entries, k + 1);
    }

    // Unlink the entry at place `k`.
    method Unlink(comp: Entry, ghost k: nat)
      requires Valid() && k < |entries| && comp == entries[k]
      modifies `entries, head`next, head`prev, entries`next, entries`prev
      ensures Valid() && entries == old(entries[..k] + entries[k + 1..]) && comp !in entries && comp != head
    {
      ghost var before := entries;
      HeadApart(head, entries);
      RemovedDistinct(entries, k);
      RemovalKeepsOrder(entries, k);
      NamedStill(entries, k, comp);
      hide Ring, Sorted, Named, Distinct;
      ghost var entries' := before[..k] + before[k + 1..];
      Detach(comp, k, entries');
      entries := entries';
    }

    method Unregister(comp: Entry) returns (r: int)
      requires Valid() && comp in entries
      modifies `entries, head`next, head`prev, entries`next, entries`prev
      ensures Valid() && r == if comp.usecount > 0 then -1 else 0
      ensures r == 0 ==> comp !in entries && forall x :: x in entries <==> x in old(entries) && x != comp
      ensures r == 0 ==> exists k :: 0 <= k < |old(entries)| && old(entries)[k] == comp
                                     && entries == old(entries)[..k] + old(entries)[k + 1..]
      ensures r != 0 ==> entries == old(entries)
    {
      if comp.usecount > 0 {
        return -1;
      }
      ghost var k: nat :| k < |entries| && entries[k] == comp;
      Unlink(comp, k);
      r := 0;
    }

    // The first entry with the name, if there is one.
    method FindName(name: string) returns (at: Entry?, ghost k: nat)
      requires Linked()
      ensures Linked() && k <= |entries| && (forall i :: 0 <= i < k ==> entries[i].name != Some(name))
      ensures if k < |entries| then at == entries[k] && entries[k].name == Some(name) else at == null
      ensures at == null <==> forall x :: x in entries ==> x.name != Some(name)
      ensures at != null ==> at in entries && at.name == Some(name)
    {
      RingStep(head, entries, 0);
      HeadApart(head, entries);
      var pos := head.next;
      k := 0;
      hide Ring, Distinct;
      while pos != head
        invariant k <= |entries| && pos == (if k < |entries| then entries[k] else head) && Ring([head] + entries)
        invariant forall i :: 0 <= i < k ==> entries[i].name != Some(name)
        decreases |entries| - k
      {
        if pos.name == Some(name) {
          return pos, k;
        }
        RingStep(head, entries, k);
        pos, k := pos.next, k + 1;
      }
      at := null;
    }

    // `jffs2_set_compressor_priority`
    method SetPriority(name: string, priority: int) returns (r: int, ghost k: nat)
      requires Valid()
      modifies `entries, head`next, head`prev, entries`next, entries`prev, entries`priority
      ensures Valid() && k <= |old(entries)| && (forall i :: 0 <= i < k ==> old(entries)[i].name != Some(name))
      ensures r == if k == |old(entries)| then 1 else 0
      ensures r != 0 ==> entries == old(entries)
      ensures r == 0 ==> old(entries)[k].name == Some(name) && old(entries)[k].priority == priority
      ensures r == 0 ==> forall x :: x in old(entries) && x != old(entries)[k] ==> x.priority == old(x.priority)
      ensures r == 0 ==> var rest := old(entries)[..k] + old(entries)[k + 1..];
                         entries == rest[..Slot(rest, priority)] + [old(entries)[k]] + rest[Slot(rest, priority)..]
    {
      var comp;
      comp, k := FindName(name);
      if comp == null {
        return 1, k;
      }
      ghost var rest := entries[..k] + entries[k + 1..];
      Reprioritise(comp, priority, k, rest);
      Insert(comp);
      r := 0;
    }

    // Change the priority and take the entry off the list.
    method Reprioritise(comp: Entry, priority: int, ghost k: nat, ghost rest: seq<Entry>)
      requires Valid() && k < |entries| && comp == entries[k] && rest == entries[..k] + entries[k + 1..]
      modifies `entries, head`next, head`prev, entries`next, entries`prev, comp`priority
      ensures Valid() && entries == rest && comp.priority == priority && comp !in rest && comp != head
    {
      HeadApart(head, entries);
      RemovedDistinct(entries, k);
      RemovalKeepsOrder(entries, k);
      NamedStill(entries, k, comp);
      hide Ring, Named, Distinct;
      comp.priority := priority;
      Detach(comp, k, rest);
      entries := rest;
    }
  }
}
