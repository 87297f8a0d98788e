/** The same lists without threads: linked nodes, appended to in place. */
module LinkedList {

  class Node {
    var next: Node?
    const value: nat

    constructor (value: nat)
      ensures next == null && this.value == value
    {
      this.value := value;
      next := null;
    }
  }

  class List {
    var head: Node?
    /** The nodes from the head, in order. */
    ghost var nodes: seq<Node>

    ghost predicate Valid()
      reads this, nodes
    {
      && (forall i: nat, j: nat :: i < j < |nodes| ==> nodes[i] != nodes[j])
      && head == NodeAt(0)
      && forall i: nat :: i < |nodes| ==> nodes[i].next == NodeAt(i + 1)
    }

    ghost function NodeAt(i: nat): Node?
      reads this
    {
      if i < |nodes| then nodes[i] else null
    }

    constructor ()
      ensures Valid() && nodes == []
    {
      head := null;
      nodes := [];
    }

    /** The unthreaded part of elf_add_syminfo_data and backtrace_dwarf_add. */
    method Append(edata: Node)
      requires Valid() && edata !in nodes && edata.next == null
      modifies this, nodes
      ensures Valid() && nodes == old(nodes) + [edata]
    {
      var p := head;
      if p == null {
        head := edata;
      } else {
        ghost var i: nat := 0;
        while p.next != null
          invariant i < |nodes| && p == nodes[i]
          decreases |nodes| - i
        {
          assert nodes[i].next == NodeAt(i + 1);
          p := p.next;
          i := i + 1;
        }
        assert nodes[i].next == NodeAt(i + 1);
        p.next := edata;
      }
      nodes := nodes + [edata];
    }

    /** The unthreaded walk of elf_syminfo and dwarf_fileline: the first node that is accepted. */
    method Find(accept: nat -> bool) returns (r: Node?)
      requires Valid()
      ensures r == null ==> forall i: nat :: i < |nodes| ==> !accept(nodes[i].value)
      ensures r != null ==> exists i: nat :: i < |nodes| && nodes[i] == r && accept(r.value) && forall j: nat :: j < i ==> !accept(nodes[j].value)
    {
      r := head;
      ghost var i: nat := 0;
      while r != null
        invariant i <= |nodes| && r == NodeAt(i)
        invariant forall j: nat :: j < i ==> !accept(nodes[j].value)
        decreases |nodes| - i
      {
        if accept(r.value) {
          return;
        }
        assert nodes[i].next == NodeAt(i + 1);
        r := r.next;
        i := i + 1;
      }
    }
  }
}
