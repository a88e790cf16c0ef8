/** The node tree the parser writes into (an anytree `Node` hierarchy in the
    source). Nodes live in an arena: each entry holds the name, the payload
    (`data`), the indices of its children in insertion order and the index of
    its parent. `View` reads a subtree of the arena back as a value. */
module Tree {
  import opened Wrappers

  /** A node as a value: its name, its payload and its children in document order. */
  datatype Node = Node(name: string, data: string, children: seq<Node>)

  /** One arena slot: a node with its children's and its parent's indices. */
  datatype Entry = Entry(name: string, data: string, kids: seq<nat>, parent: Option<nat>)

  /** Children sit after their parent in the arena: what makes `View` well founded. */
  predicate KidsAfter(nodes: seq<Entry>) {
    forall i, j :: 0 <= i < |nodes| && 0 <= j < |nodes[i].kids| ==> i < nodes[i].kids[j] < |nodes|
  }

  /** The arena is a forest: every child points back at the one node that lists
      it, every node with a parent is listed by it, and each child list is
      strictly increasing, so no child is listed twice and insertion order is
      index order. */
  ghost predicate WellFormed(nodes: seq<Entry>) {
    KidsAfter(nodes)
    && (forall i, j :: 0 <= i < |nodes| && 0 <= j < |nodes[i].kids| ==> nodes[nodes[i].kids[j]].parent == Some(i))
    && (forall i, j, k :: 0 <= i < |nodes| && 0 <= j < k < |nodes[i].kids| ==> nodes[i].kids[j] < nodes[i].kids[k])
    && (forall i :: 0 <= i < |nodes| && nodes[i].parent.Some? ==>
          nodes[i].parent.value < i && i in nodes[nodes[i].parent.value].kids)
  }

  /** The subtree rooted at arena index i, as a value. */
  function View(nodes: seq<Entry>, i: nat): Node
    requires KidsAfter(nodes) && i < |nodes|
    decreases |nodes| - i
  {
    Node(nodes[i].name, nodes[i].data,
         seq(|nodes[i].kids|, j requires 0 <= j < |nodes[i].kids| => View(nodes, nodes[i].kids[j])))
  }

  /** A subtree reads only its own entries, all at or after its root: two arenas
      that agree from i up to the end of the first give the same view of i. */
  lemma {:induction false} ViewFrame(a: seq<Entry>, b: seq<Entry>, i: nat)
    requires KidsAfter(a) && KidsAfter(b) && i < |a| <= |b|
    requires forall j :: i <= j < |a| ==> b[j] == a[j]
    ensures View(b, i) == View(a, i)
    decreases |a| - i
  {
    forall j | 0 <= j < |a[i].kids|
      ensures View(b, a[i].kids[j]) == View(a, a[i].kids[j])
    {
      ViewFrame(a, b, a[i].kids[j]);
    }
  }

  /** The arena after `Node(name, parent=p)`: p lists the new node last, and
      the new node, with an empty payload and no children, comes last. */
  function WithChild(nodes: seq<Entry>, parent: nat, name: string): seq<Entry>
    requires parent < |nodes|
  {
    nodes[parent := nodes[parent].(kids := nodes[parent].kids + [|nodes|])] + [Entry(name, "", [], Some(parent))]
  }

  /** Every entry from index lo on hangs under some node: none of them is a
      second root. */
  predicate Attached(nodes: seq<Entry>, lo: nat) {
    forall j :: lo <= j < |nodes| ==> nodes[j].parent.Some?
  }

  /** Entries added after `mid` by a step that hangs them all under some node,
      and leaves the entries from lo up to `mid` alone except one before lo,
      keep everything from lo on attached. */
  lemma {:induction false} AttachedStep(mid: seq<Entry>, nodes: seq<Entry>, lo: nat, keep: nat)
    requires Attached(mid, lo) && Attached(nodes, |mid|)
    requires keep < lo <= |mid| <= |nodes|
    requires forall j :: 0 <= j < |mid| && j != keep ==> nodes[j] == mid[j]
    ensures Attached(nodes, lo)
  {
    forall j | lo <= j < |nodes|
      ensures nodes[j].parent.Some?
    {
      if j < |mid| {
        assert nodes[j] == mid[j];
      }
    }
  }

  /** Attaching a new last child keeps the arena a forest. */
  lemma {:induction false} WithChildWellFormed(nodes: seq<Entry>, parent: nat, name: string)
    requires WellFormed(nodes) && parent < |nodes|
    ensures WellFormed(WithChild(nodes, parent, name))
  {
    WithChildKidsAfter(nodes, parent, name);
    WithChildParents(nodes, parent, name);
    WithChildOrdered(nodes, parent, name);
    WithChildListed(nodes, parent, name);
  }

  /** The new index is the largest, so children still follow their parents. */
  lemma {:induction false} WithChildKidsAfter(nodes: seq<Entry>, parent: nat, name: string)
    requires WellFormed(nodes) && parent < |nodes|
    ensures KidsAfter(WithChild(nodes, parent, name))
  {
    var r := WithChild(nodes, parent, name);
    forall i, j | 0 <= i < |r| && 0 <= j < |r[i].kids|
      ensures i < r[i].kids[j] < |r|
    {
      if i == parent && j == |nodes[parent].kids| {
        assert r[i].kids[j] == |nodes|;
      } else {
        assert i < |nodes| && r[i].kids[j] == nodes[i].kids[j];
      }
    }
  }

  /** Every listed child still points back at the node listing it. */
  lemma {:induction false} WithChildParents(nodes: seq<Entry>, parent: nat, name: string)
    requires WellFormed(nodes) && parent < |nodes|
    ensures var r := WithChild(nodes, parent, name);
            forall i, j :: 0 <= i < |r| && 0 <= j < |r[i].kids| && r[i].kids[j] < |r| ==> r[r[i].kids[j]].parent == Some(i)
  {
    var r := WithChild(nodes, parent, name);
    forall i, j | 0 <= i < |r| && 0 <= j < |r[i].kids| && r[i].kids[j] < |r|
      ensures r[r[i].kids[j]].parent == Some(i)
    {
      if i == parent && j == |nodes[parent].kids| {
        assert r[i].kids[j] == |nodes|;
      } else {
        var k := nodes[i].kids[j];
        assert r[i].kids[j] == k && k < |nodes|;
        assert r[k].parent == nodes[k].parent;
      }
    }
  }

  /** The new index goes last in its parent's list, which stays increasing. */
  lemma {:induction false} WithChildOrdered(nodes: seq<Entry>, parent: nat, name: string)
    requires WellFormed(nodes) && parent < |nodes|
    ensures var r := WithChild(nodes, parent, name);
            forall i, j, k :: 0 <= i < |r| && 0 <= j < k < |r[i].kids| ==> r[i].kids[j] < r[i].kids[k]
  {
    var r := WithChild(nodes, parent, name);
    forall i, j, k | 0 <= i < |r| && 0 <= j < k < |r[i].kids|
      ensures r[i].kids[j] < r[i].kids[k]
    {
      if i == parent && k == |nodes[parent].kids| {
        assert r[i].kids[j] == nodes[i].kids[j] < |nodes| == r[i].kids[k];
      } else {
        assert r[i].kids[j] == nodes[i].kids[j] && r[i].kids[k] == nodes[i].kids[k];
      }
    }
  }

  /** Every node with a parent is still listed by it, the new node by p. */
  lemma {:induction false} WithChildListed(nodes: seq<Entry>, parent: nat, name: string)
    requires WellFormed(nodes) && parent < |nodes|
    ensures var r := WithChild(nodes, parent, name);
            forall i :: 0 <= i < |r| && r[i].parent.Some? ==> r[i].parent.value < i && i in r[r[i].parent.value].kids
  {
    var r := WithChild(nodes, parent, name);
    forall i | 0 <= i < |r| && r[i].parent.Some?
      ensures r[i].parent.value < i && i in r[r[i].parent.value].kids
    {
      if i == |nodes| {
        assert r[parent].kids == nodes[parent].kids + [i];
      } else {
        var p := nodes[i].parent.value;
        assert r[i].parent == nodes[i].parent && p < i && i in nodes[p].kids;
        assert r[p].kids == nodes[p].kids || r[p].kids == nodes[p].kids + [|nodes|];
      }
    }
  }

  /** The arena of a parse: `Node('root')` and everything written under it. */
  class Tree {
    var nodes: seq<Entry>

    ghost predicate Valid()
      reads this
    {
      WellFormed(nodes)
    }

    /** A tree holding only a root with the given name and an empty payload. */
    constructor (rootName: string)
      ensures Valid()
      ensures nodes == [Entry(rootName, "", [], None)]
    {
      nodes := [Entry(rootName, "", [], None)];
    }

    /** `Node(name, parent=p, data="")`: a new node with an empty payload,
        attached as the last child of p. */
    method AddChild(parent: nat, name: string) returns (id: nat)
      requires Valid() && parent < |nodes|
      modifies this
      ensures Valid()
      ensures id == old(|nodes|)
      ensures nodes == WithChild(old(nodes), parent, name)
    {
      id := |nodes|;
      WithChildWellFormed(nodes, parent, name);
      var p := nodes[parent];
      nodes := nodes[parent := p.(kids := p.kids + [id])] + [Entry(name, "", [], Some(parent))];
    }

    /** `node.data = d`: replaces one payload and nothing else. */
    method SetData(i: nat, d: string)
      requires Valid() && i < |nodes|
      modifies this
      ensures Valid()
      ensures nodes == old(nodes)[i := old(nodes[i]).(data := d)]
    {
      nodes := nodes[i := nodes[i].(data := d)];
    }
  }
}
