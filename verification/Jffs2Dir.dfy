/**
 The directory list of jffs2reader (`struct dir` and `putdir`, external/mtd-utils/jffs2reader.c):
 a linked list edited in place, and what replaying a log of dirents into it leaves.
 */
module Jffs2Dir {
  import opened Jffs2Format

  // What a dirent says: the name stands for inode `ino` (0: for nothing) of type `kind`.
  datatype Entry = Entry(name: seq<byte>, ino: nat, kind: byte)

  class DirNode {
    var kind: byte
    var name: seq<byte>
    var ino: nat
    var next: DirNode?

    constructor (e: Entry)
      ensures kind == e.kind && name == e.name && ino == e.ino && next == null
    {
      kind, name, ino, next := e.kind, e.name, e.ino, null;
    }
  }

  ghost function NextOf(nodes: seq<DirNode>, i: nat): DirNode?
    requires i < |nodes|
  {
    if i + 1 == |nodes| then null else nodes[i + 1]
  }

  ghost predicate Distinct(nodes: seq<DirNode>) {
    forall i, j :: 0 <= i < j < |nodes| ==> nodes[i] != nodes[j]
  }

  // `d` heads a list made of exactly `nodes`.
  ghost predicate Chain(d: DirNode?, nodes: seq<DirNode>)
    reads nodes
  {
    && (if nodes == [] then d == null else d == nodes[0])
    && Distinct(nodes) && (forall i :: 0 <= i < |nodes| ==> nodes[i].next == NextOf(nodes, i))
  }

  ghost function Listing(nodes: seq<DirNode>): (dir: seq<Entry>)
    reads nodes
    ensures |dir| == |nodes|
    ensures forall i :: 0 <= i < |dir| ==> dir[i] == Entry(nodes[i].name, nodes[i].ino, nodes[i].kind)
  {
    seq(|nodes|, i requires 0 <= i < |nodes| reads nodes => Entry(nodes[i].name, nodes[i].ino, nodes[i].kind))
  }

  // A later dirent replaces or, without an inode, removes the entry of its name.
  function Put(dir: seq<Entry>, e: Entry): seq<Entry> {
    if dir == [] then if e.ino != 0 then [e] else []
    else if dir[0].name == e.name then (if e.ino != 0 then [e] else []) + dir[1..]
    else [dir[0]] + Put(dir[1..], e)
  }

  predicate Absent(dir: seq<Entry>, name: seq<byte>) {
    forall i :: 0 <= i < |dir| ==> dir[i].name != name
  }

  lemma {:induction false} PutAt(dir: seq<Entry>, e: Entry, i: nat)
    requires i <= |dir| && Absent(dir[..i], e.name) && (i < |dir| ==> dir[i].name == e.name)
    ensures Put(dir, e) == dir[..i] + (if e.ino != 0 then [e] else []) + dir[(if i < |dir| then i + 1 else i)..]
    decreases |dir|
  {
    if i > 0 {
      assert dir[..i][0] == dir[0] && dir[1..][..i - 1] == dir[..i][1..];
      PutAt(dir[1..], e, i - 1);
    }
  }

  lemma {:induction false} PutFound(dir: seq<Entry>, e: Entry, i: nat)
    requires i < |dir| && Absent(dir[..i], e.name) && dir[i].name == e.name
    ensures Put(dir, e) == if e.ino != 0 then dir[i := e] else dir[..i] + dir[i + 1..]
  {
    hide *;
    PutAt(dir, e, i);
    assert dir[..i] + [] == dir[..i] && dir[i := e] == dir[..i] + [e] + dir[i + 1..];
  }

  lemma {:induction false} PutAbsent(dir: seq<Entry>, e: Entry, i: nat)
    requires i + 1 == |dir| && Absent(dir[..i], e.name) && dir[i].name != e.name
    ensures Put(dir, e) == if e.ino != 0 then dir + [e] else dir
  {
    assert dir[..i + 1] == dir && dir[..|dir|] == dir;
    PutAt(dir, e, |dir|);
  }

  lemma AbsentNext(dir: seq<Entry>, name: seq<byte>, i: nat)
    requires i < |dir| && Absent(dir[..i], name) && dir[i].name != name
    ensures Absent(dir[..i + 1], name)
  {
    assert dir[..i + 1] == dir[..i] + [dir[i]];
  }

  method PutDir(dd: DirNode?, e: Entry, ghost nodes: seq<DirNode>) returns (r: DirNode?, ghost nodes': seq<DirNode>)
    requires Chain(dd, nodes)
    modifies nodes
    ensures Chain(r, nodes') && Listing(nodes') == Put(old(Listing(nodes)), e)
    ensures forall x :: x in nodes' ==> x in nodes || fresh(x)
  {
    hide Chain;
    if e.ino != 0 {
      r, nodes' := Update(dd, e, nodes);
    } else {
      r, nodes' := Remove(dd, e, nodes);
    }
  }

  method Overwrite(d: DirNode, e: Entry, ghost dd: DirNode?, ghost nodes: seq<DirNode>, ghost i: nat)
    requires Chain(dd, nodes) && i < |nodes| && d == nodes[i] && d.name == e.name
    modifies d
    ensures Chain(dd, nodes) && Listing(nodes) == old(Listing(nodes))[i := e]
  {
    d.kind := e.kind;
    d.ino := e.ino;
  }

  lemma AppendNodes(nodes: seq<DirNode>, last: DirNode)
    requires Distinct(nodes) && last !in nodes && nodes != []
    ensures Distinct(nodes + [last]) && NextOf(nodes + [last], |nodes|) == null
    ensures NextOf(nodes + [last], |nodes| - 1) == last
    ensures forall i :: 0 <= i < |nodes| - 1 ==> NextOf(nodes + [last], i) == NextOf(nodes, i)
    ensures forall i :: 0 <= i < |nodes| - 1 ==> nodes[i] != nodes[|nodes| - 1]
  {
  }

  method Append(d: DirNode, e: Entry, ghost dd: DirNode?, ghost nodes: seq<DirNode>)
    returns (ghost nodes': seq<DirNode>)
    requires Chain(dd, nodes) && nodes != [] && d == nodes[|nodes| - 1]
    modifies d
    ensures Chain(dd, nodes') && Listing(nodes') == old(Listing(nodes)) + [e]
    ensures forall x :: x in nodes' ==> x in nodes || fresh(x)
  {
    var last := new DirNode(e);
    AppendNodes(nodes, last);
    hide Distinct, NextOf;
    d.next := last;
    nodes' := nodes + [last];
  }

  function From(i: nat, k: nat): nat {
    if k < i then k else k + 1
  }

  lemma WithoutAt(nodes: seq<DirNode>, i: nat, k: nat)
    requires 0 < i < |nodes| && k + 1 < |nodes|
    ensures var nodes' := nodes[..i] + nodes[i + 1..];
      && |nodes'| == |nodes| - 1 && nodes'[k] == nodes[From(i, k)]
      && NextOf(nodes', k) == if k == i - 1 then NextOf(nodes, i) else NextOf(nodes, From(i, k))
  {
  }

  lemma WithoutNodes(nodes: seq<DirNode>, i: nat)
    requires Distinct(nodes) && 0 < i < |nodes|
    ensures Distinct(nodes[..i] + nodes[i + 1..])
    ensures forall k :: 0 <= k < |nodes| && nodes[k] == nodes[i - 1] ==> k == i - 1
  {
  }

  method Unlink(p: DirNode, d: DirNode, ghost dd: DirNode?, ghost nodes: seq<DirNode>, ghost i: nat)
    returns (ghost nodes': seq<DirNode>)
    requires Chain(dd, nodes) && 0 < i < |nodes| && p == nodes[i - 1] && d == nodes[i]
    modifies p
    ensures Chain(dd, nodes') && Listing(nodes') == old(Listing(nodes)[..i] + Listing(nodes)[i + 1..])
    ensures forall x :: x in nodes' ==> x in nodes
  {
    ghost var dir := Listing(nodes);
    WithoutNodes(nodes, i);
    hide Distinct, NextOf;
    p.next := d.next;
    nodes' := nodes[..i] + nodes[i + 1..];
    forall k | 0 <= k < |nodes'|
      ensures nodes'[k] == nodes[From(i, k)] && nodes'[k].next == NextOf(nodes', k)
    {
      WithoutAt(nodes, i, k);
    }
    SameListing(nodes, nodes', i, dir);
  }

  lemma SameListing(nodes: seq<DirNode>, nodes': seq<DirNode>, i: nat, dir: seq<Entry>)
    requires Listing(nodes) == dir && i < |nodes| && nodes' == nodes[..i] + nodes[i + 1..]
    ensures Listing(nodes') == dir[..i] + dir[i + 1..]
  {
  }

  lemma ChainAt(dd: DirNode?, nodes: seq<DirNode>, i: nat)
    requires Chain(dd, nodes) && i < |nodes|
    ensures nodes[i].next == NextOf(nodes, i)
  {
  }

  method Update(dd: DirNode?, e: Entry, ghost nodes: seq<DirNode>) returns (r: DirNode?, ghost nodes': seq<DirNode>)
    requires Chain(dd, nodes) && e.ino != 0
    modifies nodes
    ensures Chain(r, nodes') && Listing(nodes') == Put(old(Listing(nodes)), e)
    ensures forall x :: x in nodes' ==> x in nodes || fresh(x)
  {
    if dd == null {
      r := new DirNode(e);
      nodes' := [r];
      return;
    }
    ghost var dir := Listing(nodes);
    r, nodes' := dd, nodes;
    var d: DirNode := dd;
    ghost var i := 0;
    hide Chain, Put, Absent;
    while true
      invariant i < |nodes| && d == nodes[i] && Absent(dir[..i], e.name) && Chain(dd, nodes) && Listing(nodes) == dir
      decreases |nodes| - i
    {
      ChainAt(dd, nodes, i);
      if e.name == d.name {
        PutFound(dir, e, i);
        Overwrite(d, e, dd, nodes, i);
        return;
      }
      if d.next == null {
        PutAbsent(dir, e, i);
        nodes' := Append(d, e, dd, nodes);
        return;
      }
      AbsentNext(dir, e.name, i);
      d := d.next;
      i := i + 1;
    }
  }

  method Remove(dd: DirNode?, e: Entry, ghost nodes: seq<DirNode>) returns (r: DirNode?, ghost nodes': seq<DirNode>)
    requires Chain(dd, nodes) && e.ino == 0
    modifies nodes
    ensures Chain(r, nodes') && Listing(nodes') == Put(old(Listing(nodes)), e)
    ensures forall x :: x in nodes' ==> x in nodes
  {
    ghost var dir := Listing(nodes);
    r, nodes' := dd, nodes;
    if dd == null {
      return;
    }
    if e.name == dd.name {
      PutFound(dir, e, 0);
      r, nodes' := dd.next, nodes[1..];
      return;
    }
    var d: DirNode := dd;
    ghost var i := 0;
    hide Chain, Put, Absent;
    while true
      invariant i < |nodes| && d == nodes[i] && Absent(dir[..i], e.name) && d.name != e.name
      invariant Chain(dd, nodes) && Listing(nodes) == dir
      decreases |nodes| - i
    {
      var p := d;
      ChainAt(dd, nodes, i);
      if d.next == null {
        PutAbsent(dir, e, i);
        return;
      }
      AbsentNext(dir, e.name, i);
      d := d.next;
      i := i + 1;
      if e.name == d.name {
        PutFound(dir, e, i);
        nodes' := Unlink(p, d, dd, nodes, i);
        return;
      }
    }
  }

  // The dirents `es`, given to `putdir` one after the other.
  function Replay(dir: seq<Entry>, es: seq<Entry>): seq<Entry> {
    if es == [] then dir else Put(Replay(dir, es[..|es| - 1]), es[|es| - 1])
  }

  function Find(dir: seq<Entry>, name: seq<byte>): Option<Entry> {
    if dir == [] then None else if dir[0].name == name then Some(dir[0]) else Find(dir[1..], name)
  }

  function Latest(es: seq<Entry>, name: seq<byte>): Option<Entry> {
    if es == [] then None
    else if es[|es| - 1].name == name then Some(es[|es| - 1])
    else Latest(es[..|es| - 1], name)
  }

  predicate NoDuplicates(dir: seq<Entry>) {
    forall i, j :: 0 <= i < j < |dir| ==> dir[i].name != dir[j].name
  }

  lemma FindAbsent(dir: seq<Entry>, name: seq<byte>)
    requires Absent(dir, name)
    ensures Find(dir, name) == None
  {
  }

  lemma {:induction false} PutAbsentOthers(dir: seq<Entry>, e: Entry, name: seq<byte>)
    requires Absent(dir, name) && name != e.name
    ensures Absent(Put(dir, e), name)
  {
    if dir != [] && dir[0].name != e.name {
      PutAbsentOthers(dir[1..], e, name);
    }
  }

  lemma {:induction false} PutFind(dir: seq<Entry>, e: Entry, name: seq<byte>)
    requires NoDuplicates(dir)
    ensures NoDuplicates(Put(dir, e))
    ensures Find(Put(dir, e), name) == if name != e.name then Find(dir, name) else if e.ino != 0 then Some(e) else None
  {
    hide *;
    if dir == [] {
      PutNone(e, name);
    } else {
      var x, rest := dir[0], dir[1..];
      DistinctFirst(x, rest);
      assert dir == [x] + rest;
      if x.name == e.name {
        PutHere(x, rest, e, name);
        DistinctFirst(e, rest);
      } else {
        PutFind(rest, e, name);
        PutAbsentOthers(rest, e, x.name);
        DistinctFirst(x, Put(rest, e));
        PutBehind(x, rest, e, name);
      }
    }
  }

  lemma PutNone(e: Entry, name: seq<byte>)
    ensures Put([], e) == (if e.ino != 0 then [e] else []) && NoDuplicates(Put([], e)) && Find([], name) == None
    ensures Find(Put([], e), name) == if name == e.name && e.ino != 0 then Some(e) else None
  {
  }

  lemma DistinctFirst(x: Entry, rest: seq<Entry>)
    ensures NoDuplicates([x] + rest) <==> NoDuplicates(rest) && Absent(rest, x.name)
  {
    if NoDuplicates([x] + rest) {
      forall i | 0 <= i < |rest| ensures rest[i].name != x.name {
        assert ([x] + rest)[0] == x && ([x] + rest)[i + 1] == rest[i];
      }
      forall i, j | 0 <= i < j < |rest| ensures rest[i].name != rest[j].name {
        assert ([x] + rest)[i + 1] == rest[i] && ([x] + rest)[j + 1] == rest[j];
      }
    }
  }

  lemma PutHere(x: Entry, rest: seq<Entry>, e: Entry, name: seq<byte>)
    requires x.name == e.name && Absent(rest, x.name)
    ensures Put([x] + rest, e) == if e.ino != 0 then [e] + rest else rest
    ensures Find(Put([x] + rest, e), name) ==
            if name != e.name then Find([x] + rest, name) else if e.ino != 0 then Some(e) else None
  {
    FindAbsent(rest, e.name);
    assert ([x] + rest)[1..] == rest && ([e] + rest)[1..] == rest;
  }

  lemma PutBehind(x: Entry, rest: seq<Entry>, e: Entry, name: seq<byte>)
    requires x.name != e.name
    ensures Put([x] + rest, e) == [x] + Put(rest, e)
    ensures Find([x] + rest, name) == if x.name == name then Some(x) else Find(rest, name)
    ensures Find([x] + Put(rest, e), name) == if x.name == name then Some(x) else Find(Put(rest, e), name)
  {
    assert ([x] + rest)[1..] == rest && ([x] + Put(rest, e))[1..] == Put(rest, e);
  }

  // Replaying a log lists a name exactly when its latest dirent links it, once, as that dirent says.
  lemma {:induction false} ReplayFind(es: seq<Entry>, name: seq<byte>)
    ensures NoDuplicates(Replay([], es))
    ensures Find(Replay([], es), name) ==
            var l := Latest(es, name); if l.Some? && l.value.ino != 0 then l else None
  {
    if es != [] {
      var front, last := es[..|es| - 1], es[|es| - 1];
      ReplayFind(front, name);
      PutFind(Replay([], front), last, name);
    }
  }
}
