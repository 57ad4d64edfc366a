/** The k-bucket tree (packages/kademlia/src/bucket.ts). */
module KBuckets {
  import opened Bytes
  import opened NodeIds
  import opened Buckets

  datatype NodeState = NodeState(contacts: Option<seq<Contact>>, noSplit: bool, left: KBucketNode?, right: KBucketNode?)

  /** A leaf holds contacts; an inner node has none, and two children. */
  class KBucketNode {
    var contacts: Option<seq<Contact>>
    var noSplit: bool
    var left: KBucketNode?
    var right: KBucketNode?

    function State(): NodeState
      reads this
    {
      NodeState(contacts, noSplit, left, right)
    }

    constructor ()
      ensures State() == NodeState(Some([]), false, null, null)
    {
      contacts, noSplit, left, right := Some([]), false, null, null;
    }
  }

  // ----- the tree and the table it stands for -----------------------------------------------------

  /** The inner nodes are numbered by depth, and each leaf by its bucket. */
  datatype Place = Inner(i: int) | Leaf(i: int)

  datatype Held = Held(place: Place, state: NodeState)

  /** The nodes of the tree with their places, those on the local id's path, the leaves and their buckets. */
  datatype View = View(held: map<KBucketNode, Held>, inner: seq<KBucketNode>, leaves: seq<KBucketNode>, t: Table)

  /** The node on the local id's path at depth `i`. */
  ghost function OnPath(v: View, i: int): KBucketNode
    requires |v.leaves| == |v.inner| + 1 && 0 <= i < |v.leaves|
  {
    if i < |v.inner| then v.inner[i] else v.leaves[i]
  }

  /** The child of the inner node at depth `i` that an id goes to. */
  ghost function ChildFor(local: Id, v: View, id: Id, i: nat): KBucketNode
    requires |v.leaves| == |v.inner| + 1 && i < |v.inner|
  {
    if Bit(id, i) == Bit(local, i) then OnPath(v, i + 1) else v.leaves[i]
  }

  ghost predicate InnerOk(local: Id, v: View, i: nat)
    requires |v.leaves| == |v.inner| + 1 && i < |v.inner|
  {
    var near, far := OnPath(v, i + 1), v.leaves[i];
    && v.inner[i] in v.held
    && v.held[v.inner[i]] == Held(Inner(i), NodeState(None, false, if Bit(local, i) then far else near,
                                                      if Bit(local, i) then near else far))
  }

  ghost predicate LeafOk(v: View, i: nat)
    requires |v.leaves| == |v.t| && i < |v.t|
  {
    v.leaves[i] in v.held && v.held[v.leaves[i]] == Held(Leaf(i), NodeState(Some(v.t[i]), i < |v.t| - 1, null, null))
  }

  ghost predicate Shape(local: Id, v: View) {
    && |v.leaves| == |v.t| == |v.inner| + 1
    && (forall i: nat {:trigger v.inner[i]} | i < |v.inner| :: InnerOk(local, v, i))
    && (forall i: nat {:trigger v.leaves[i]} | i < |v.t| :: LeafOk(v, i))
  }

  ghost function WithBucket(v: View, i: nat, b: seq<Contact>): View
    requires |v.leaves| == |v.t| && i < |v.t|
  {
    v.(held := v.held[v.leaves[i] := Held(Leaf(i), NodeState(Some(b), i < |v.t| - 1, null, null))], t := v.t[i := b])
  }

  /** A leaf's contacts changed. */
  lemma {:induction false} WithBucketOk(local: Id, v: View, i: nat, b: seq<Contact>)
    requires Shape(local, v) && i < |v.t|
    ensures Shape(local, WithBucket(v, i, b))
  {
    var v' := WithBucket(v, i, b);
    forall j: nat | j < |v.inner|
      ensures InnerOk(local, v', j)
    {
      assert InnerOk(local, v, j) && LeafOk(v, i);
    }
    forall j: nat | j < |v.t|
      ensures LeafOk(v', j)
    {
      assert LeafOk(v, j) && LeafOk(v, i);
    }
  }

  /** The last leaf become an inner node above two new ones. */
  ghost function Split(local: Id, v: View, near: KBucketNode, far: KBucketNode): View
    requires Shape(local, v)
  {
    var d := |v.inner|;
    var node := v.leaves[d];
    var t := SplitTable(local, v.t);
    View(v.held[node :=
                Held(Inner(d),
                     NodeState(None, false, if Bit(local, d) then far else near, if Bit(local, d) then near else far))]
               [far := Held(Leaf(d), NodeState(Some(t[d]), true, null, null))]
               [near := Held(Leaf(d + 1), NodeState(Some(t[d + 1]), false, null, null))],
         v.inner + [node], v.leaves[..d] + [far, near], t)
  }

  lemma {:induction false} SplitShape(local: Id, v: View, near: KBucketNode, far: KBucketNode)
    requires Shape(local, v) && near !in v.held && far !in v.held && near != far
    ensures Shape(local, Split(local, v, near, far)) && OnPath(Split(local, v, near, far), 0) == OnPath(v, 0)
    ensures Split(local, v, near, far).held.Keys == v.held.Keys + {near, far}
  {
    var v' := Split(local, v, near, far);
    var d := |v.inner|;
    assert LeafOk(v, d);
    forall j: nat | j < |v'.inner|
      ensures InnerOk(local, v', j)
    {
      if j < d {
        assert InnerOk(local, v, j) && LeafOk(v, j);
      }
    }
    forall j: nat | j < |v'.t|
      ensures LeafOk(v', j)
    {
      if j < d {
        assert LeafOk(v, j);
      }
    }
  }

  class KBucket {
    const g: Config
    var root: KBucketNode
    ghost var view: View

    ghost predicate Valid()
      reads this, view.held.Keys
    {
      && KeepsId(g.arbiter)
      && Shape(g.local, view) && TableOk(g.local, g.k, view.t) && root == OnPath(view, 0)
      && forall o | o in view.held :: view.held[o].state == o.State()
    }

    ghost function Nodes(): set<KBucketNode>
      reads this
    {
      view.held.Keys
    }

    constructor (g: Config)
      requires KeepsId(g.arbiter)
      ensures Valid() && this.g == g && view.t == [[]] && fresh(Nodes())
    {
      this.g := g;
      var node := new KBucketNode();
      root := node;
      view := View(map[node := Held(Leaf(0), NodeState(Some([]), false, null, null))], [], [node], [[]]);
      new;
      ghost var empty: seq<Contact> := view.t[0];
      assert BucketOk(g.local, g.k, 0, 0, empty);
      assert view.leaves[0] == node && view.t[0] == [] && LeafOk(view, 0);
    }

    lemma {:induction false} InnerState(i: nat)
      requires Valid() && i < |view.inner|
      ensures var near, far := OnPath(view, i + 1), view.leaves[i];
              view.inner[i].State()
                == NodeState(None, false, if Bit(g.local, i) then far else near, if Bit(g.local, i) then near else far)
    {
      assert InnerOk(g.local, view, i);
      var node := view.inner[i];
      assert view.held[node].state == node.State();
    }

    lemma {:induction false} LeafState(i: nat)
      requires Valid() && i < |view.t|
      ensures view.leaves[i] in view.held
      ensures view.leaves[i].State() == NodeState(Some(view.t[i]), i < |view.t| - 1, null, null)
    {
      assert LeafOk(view, i);
      var node := view.leaves[i];
      assert view.held[node].state == node.State();
    }

    // ----- walking down ------------------------------------------------------------------------

    static method DetermineNode(node: KBucketNode, id: Id, bitIndex: nat) returns (child: KBucketNode)
      requires node.left != null && node.right != null
      ensures child == if Bit(id, bitIndex) then node.right else node.left
    {
      if Bit(id, bitIndex) {
        return node.right;
      }
      child := node.left;
    }

    /** The child of an inner node on the path. */
    method DetermineChild(node: KBucketNode, id: Id, bitIndex: nat) returns (child: KBucketNode)
      requires Valid() && bitIndex < |view.inner| && node == view.inner[bitIndex]
      ensures node.left != null && node.right != null && child == ChildFor(g.local, view, id, bitIndex)
      ensures node.left == if Bit(g.local, bitIndex) then view.leaves[bitIndex] else OnPath(view, bitIndex + 1)
      ensures node.right == if Bit(g.local, bitIndex) then OnPath(view, bitIndex + 1) else view.leaves[bitIndex]
    {
      InnerState(bitIndex);
      child := DetermineNode(node, id, bitIndex);
    }

    /** The leaf for an id, and its depth. */
    method FindLeaf(id: Id) returns (node: KBucketNode, bitIndex: nat)
      requires Valid()
      ensures var i := BucketFor(g.local, view.t, id);
              node == view.leaves[i] && bitIndex == if i < |view.t| - 1 then i + 1 else i
      ensures node.contacts == Some(view.t[BucketFor(g.local, view.t, id)])
    {
      node, bitIndex := root, 0;
      while node.contacts.None?
        invariant At(id, node, bitIndex)
        decreases |view.inner| - bitIndex
      {
        OnlyInner(id, node, bitIndex);
        node := DetermineChild(node, id, bitIndex);
        Down(id, bitIndex);
        bitIndex := bitIndex + 1;
      }
      LeafReached(id, node, bitIndex);
    }

    /** Where the walk to an id's leaf can be: on the path, while the bits are the local id's, or one step off it. */
    ghost predicate At(id: Id, node: KBucketNode, bitIndex: nat)
      requires Shape(g.local, view)
      reads this
    {
      && bitIndex <= |view.inner|
      && ((node == OnPath(view, bitIndex) && Agree(id, g.local, bitIndex))
          || (bitIndex > 0 && node == view.leaves[bitIndex - 1] && BucketFor(g.local, view.t, id) == bitIndex - 1))
    }

    /** A node without contacts is one on the path. */
    lemma {:induction false} OnlyInner(id: Id, node: KBucketNode, bitIndex: nat)
      requires Valid() && At(id, node, bitIndex) && node.contacts.None?
      ensures bitIndex < |view.inner| && node == view.inner[bitIndex] && Agree(id, g.local, bitIndex)
    {
      if bitIndex > 0 {
        LeafState(bitIndex - 1);
      }
      LeafState(|view.inner|);
    }

    lemma {:induction false} Down(id: Id, bitIndex: nat)
      requires Shape(g.local, view) && bitIndex < |view.inner| && Agree(id, g.local, bitIndex)
      ensures At(id, ChildFor(g.local, view, id, bitIndex), bitIndex + 1)
    {
      if Bit(id, bitIndex) != Bit(g.local, bitIndex) {
        FirstDifferent(g.local, |view.inner|, id, bitIndex, 0);
      }
    }

    /** A node with contacts is the leaf. */
    lemma {:induction false} LeafReached(id: Id, node: KBucketNode, bitIndex: nat)
      requires Valid() && At(id, node, bitIndex) && node.contacts.Some?
      ensures var i := BucketFor(g.local, view.t, id);
              node == view.leaves[i] && bitIndex == (if i < |view.t| - 1 then i + 1 else i)
                && node.contacts == Some(view.t[i])
    {
      if bitIndex < |view.inner| {
        InnerState(bitIndex);
      } else if Agree(id, g.local, bitIndex) {
        AllAgree(g.local, |view.inner|, id, 0);
      }
      LeafIsBucket(id, node, bitIndex);
      LeafState(BucketFor(g.local, view.t, id));
    }

    lemma {:induction false} LeafIsBucket(id: Id, node: KBucketNode, bitIndex: nat)
      requires Shape(g.local, view) && At(id, node, bitIndex)
      requires bitIndex < |view.inner| ==> node != view.inner[bitIndex]
      requires Agree(id, g.local, |view.inner|) ==> BucketFor(g.local, view.t, id) == |view.inner|
      ensures var i := BucketFor(g.local, view.t, id);
              node == view.leaves[i] && bitIndex == if i < |view.t| - 1 then i + 1 else i
    {
    }

    // ----- reading -----------------------------------------------------------------------------

    static method FindIndex(contacts: seq<Contact>, id: Id) returns (index: int)
      ensures index == IndexOf(contacts, id)
    {
      var i := 0;
      while i < |contacts|
        invariant 0 <= i <= |contacts|
        invariant IndexOf(contacts, id) == (var r := IndexOf(contacts[i..], id); if r < 0 then -1 else i + r)
      {
        if contacts[i].id == id {
          return i;
        }
        assert contacts[i..][1..] == contacts[i + 1..];
        i := i + 1;
      }
      index := -1;
    }

    /** The contact with the id, if anyone has it. */
    method Get(id: Id) returns (r: Option<Contact>)
      requires Valid()
      ensures r.Some? ==> Has(view.t, r.value) && r.value.id == id
      ensures r.None? ==> forall c | Has(view.t, c) :: c.id != id
    {
      var node, bitIndex := FindLeaf(id);
      var index := FindIndex(node.contacts.value, id);
      OnlyThere(g.local, g.k, view.t, id);
      r := if index >= 0 then Some(node.contacts.value[index]) else None;
    }

    // ----- the closest contacts ------------------------------------------------------------------

    ghost predicate IsNode(node: KBucketNode, s: Sub)
      requires |view.leaves| == |view.inner| + 1
      reads this
    {
      s.i < |view.leaves| && node == if s.Far? then view.leaves[s.i] else OnPath(view, s.i)
    }

    ghost predicate AreNodes(nodes: seq<KBucketNode>, stack: seq<Sub>)
      requires |view.leaves| == |view.inner| + 1
      reads this
    {
      |nodes| == |stack|
        && forall p {:trigger IsNode(nodes[p], stack[p])} | 0 <= p < |nodes| :: IsNode(nodes[p], stack[p])
    }

    /**
     * The contacts closest to an id, with a counter for the depth of the next inner node; fails for a limit
     * that is not positive.
     */
    method FindClosest(id: Id, limit: Limit) returns (r: Option<seq<Contact>>)
      requires Valid() && |id| == |g.local|
      ensures r.None? <==> limit.AtMost? && limit.n <= 0
      ensures r.Some? ==> Closest(view.t, id, limit, r.value)
    {
      if limit.AtMost? && limit.n <= 0 {
        return None;
      }
      var nodes, bitIndex := [root], 0;
      var contacts: seq<Contact> := [];
      ghost var stack := [Path(0)];
      WalkStart(view.t, id);
      assert IsNode(nodes[0], stack[0]);
      while nodes != [] && (limit.Everyone? || |contacts| < limit.n)
        invariant AreNodes(nodes, stack) && bitIndex <= |view.inner|
        invariant Walk(view.t, id, stack, bitIndex, contacts)
        decreases |view.inner| - bitIndex, |nodes|
      {
        nodes, stack, bitIndex, contacts := Visit(id, nodes, stack, bitIndex, contacts);
      }
      Lengths(contacts);
      WalkEnds(g.local, g.k, view.t, id, stack, bitIndex, contacts, limit);
      var sorted := SortBy(id, contacts);
      r := Some(sorted[..Cut(limit, |sorted|)]);
    }

    lemma {:induction false} Lengths(contacts: seq<Contact>)
      requires Valid() && forall c | c in contacts :: Has(view.t, c)
      ensures forall c | c in contacts :: |c.id| == |g.local|
    {
      forall c | c in contacts
        ensures |c.id| == |g.local|
      {
        LengthOk(g.local, g.k, view.t, c);
      }
    }

    /** Takes the node on top: a leaf's contacts, or an inner node's children with the closer one on top. */
    method Visit(id: Id, nodes: seq<KBucketNode>, ghost stack: seq<Sub>, bitIndex: nat, contacts: seq<Contact>)
      returns (nodes': seq<KBucketNode>, ghost stack': seq<Sub>, bitIndex': nat, contacts': seq<Contact>)
      requires Valid() && |id| == |g.local| && AreNodes(nodes, stack) && nodes != [] && bitIndex <= |view.inner|
      requires Walk(view.t, id, stack, bitIndex, contacts)
      ensures AreNodes(nodes', stack') && bitIndex' <= |view.inner|
      ensures Walk(view.t, id, stack', bitIndex', contacts')
      ensures bitIndex' > bitIndex || (bitIndex' == bitIndex && |nodes'| < |nodes|)
    {
      var n := |nodes| - 1;
      var node := nodes[n];
      TopNode(nodes, stack, bitIndex);
      if node.contacts.None? {
        WalkInner(g.local, g.k, view.t, id, stack, bitIndex, contacts);
        bitIndex', contacts' := bitIndex + 1, contacts;
        nodes' := VisitInner(id, nodes, stack, bitIndex);
        stack' := stack[..n] + Children(g.local, id, bitIndex);
      } else {
        WalkBucket(g.local, g.k, view.t, id, stack, bitIndex, contacts);
        nodes', bitIndex', contacts' := nodes[..n], bitIndex, contacts + node.contacts.value;
        stack' := stack[..n];
        Below(nodes, stack);
      }
    }

    method VisitInner(id: Id, nodes: seq<KBucketNode>, ghost stack: seq<Sub>, bitIndex: nat)
        returns (nodes': seq<KBucketNode>)
      requires Valid() && AreNodes(nodes, stack) && nodes != [] && bitIndex < |view.inner|
      requires nodes[|nodes| - 1] == view.inner[bitIndex]
      ensures AreNodes(nodes', stack[..|stack| - 1] + Children(g.local, id, bitIndex))
    {
      var n := |nodes| - 1;
      var node := nodes[n];
      var detNode := DetermineChild(node, id, bitIndex);
      var other := if node.left == detNode then node.right else node.left;
      nodes' := nodes[..n] + [other] + [detNode];
      ChildrenAre(nodes, stack, other, detNode, id, bitIndex);
    }

    /** What the node on top is, by whether it has contacts. */
    lemma {:induction false} TopNode(nodes: seq<KBucketNode>, stack: seq<Sub>, bitIndex: nat)
      requires Valid() && AreNodes(nodes, stack) && nodes != [] && Stacked(view.t, stack, bitIndex)
      requires bitIndex <= |view.inner|
      ensures var node, s := nodes[|nodes| - 1], stack[|stack| - 1];
              if node.contacts.None? then bitIndex < |view.inner| && s == Path(bitIndex) && node == view.inner[bitIndex]
              else (s.Far? || s.i == |view.t| - 1) && node.contacts == Some(view.t[s.i])
    {
      var n := |nodes| - 1;
      assert IsNode(nodes[n], stack[n]);
      LeafState(stack[n].i);
      if stack[n].i < |view.inner| {
        InnerState(stack[n].i);
      }
    }

    lemma {:induction false} Below(nodes: seq<KBucketNode>, stack: seq<Sub>)
      requires |view.leaves| == |view.inner| + 1 && AreNodes(nodes, stack) && nodes != []
      ensures AreNodes(nodes[..|nodes| - 1], stack[..|stack| - 1])
    {
      var nodes', stack' := nodes[..|nodes| - 1], stack[..|stack| - 1];
      forall p | 0 <= p < |nodes'|
        ensures IsNode(nodes'[p], stack'[p])
      {
        assert IsNode(nodes[p], stack[p]);
      }
    }

    lemma {:induction false} ChildrenAre(nodes: seq<KBucketNode>, stack: seq<Sub>, other: KBucketNode,
                                         detNode: KBucketNode, id: Id, i: nat)
      requires Valid() && AreNodes(nodes, stack) && nodes != [] && i < |view.inner|
      requires detNode == ChildFor(g.local, view, id, i)
      requires other == if detNode == view.leaves[i] then OnPath(view, i + 1) else view.leaves[i]
      ensures AreNodes(nodes[..|nodes| - 1] + [other] + [detNode], stack[..|stack| - 1] + Children(g.local, id, i))
    {
      Below(nodes, stack);
      PathLeaves(i);
      TwoMore(nodes[..|nodes| - 1], stack[..|stack| - 1], other, detNode, Children(g.local, id, i));
    }

    lemma {:induction false} PathLeaves(i: nat)
      requires Valid() && i < |view.inner|
      ensures OnPath(view, i + 1) != view.leaves[i]
    {
      InnerState(i);
      LeafState(i);
      if i + 1 < |view.inner| {
        InnerState(i + 1);
      } else {
        LeafState(i + 1);
        assert LeafOk(view, i) && LeafOk(view, i + 1);
      }
    }

    lemma {:induction false} TwoMore(nodes: seq<KBucketNode>, stack: seq<Sub>, a: KBucketNode, b: KBucketNode,
                                     children: seq<Sub>)
      requires |view.leaves| == |view.inner| + 1 && AreNodes(nodes, stack)
      requires |children| == 2 && IsNode(a, children[0]) && IsNode(b, children[1])
      ensures AreNodes(nodes + [a] + [b], stack + children)
    {
      var nodes', stack' := nodes + [a] + [b], stack + children;
      forall p | 0 <= p < |nodes'|
        ensures IsNode(nodes'[p], stack'[p])
      {
        if p < |nodes| {
          assert IsNode(nodes[p], stack[p]);
        }
      }
    }

    /** The number of contacts. */
    method CountContacts() returns (count: nat)
      requires Valid()
      ensures count == Count(view.t)
    {
      count := 0;
      var nodes := [root];
      ghost var stack, depth := [Path(0)], 0;
      assert IsNode(nodes[0], stack[0]);
      assert StackSize(view.t, stack[..0]) == 0;
      while nodes != []
        invariant AreNodes(nodes, stack) && Stacked(view.t, stack, depth) && depth <= |view.inner|
        invariant count + StackSize(view.t, stack) == Count(view.t)
        decreases |view.inner| - depth, |nodes|
      {
        var n := |nodes| - 1;
        var node := nodes[n];
        TopNode(nodes, stack, depth);
        if node.contacts.None? {
          nodes, stack, depth := Unfold(nodes, stack, depth);
        } else {
          TopBucket(view.t, stack[n]);
          Below(nodes, stack);
          count := count + |node.contacts.value|;
          nodes, stack := nodes[..n], stack[..n];
        }
      }
    }

    /** An inner node gives way to its children. */
    method Unfold(nodes: seq<KBucketNode>, ghost stack: seq<Sub>, ghost depth: nat)
      returns (nodes': seq<KBucketNode>, ghost stack': seq<Sub>, ghost depth': nat)
      requires Valid() && AreNodes(nodes, stack) && nodes != [] && Stacked(view.t, stack, depth) && depth < |view.inner|
      requires nodes[|nodes| - 1] == view.inner[depth] && stack[|stack| - 1] == Path(depth)
      ensures AreNodes(nodes', stack') && Stacked(view.t, stack', depth') && depth' == depth + 1
      ensures StackSize(view.t, stack') == StackSize(view.t, stack)
    {
      var n := |nodes| - 1;
      var node := nodes[n];
      InnerState(depth);
      nodes' := nodes[..n] + [node.right] + [node.left];
      ghost var children := if Bit(g.local, depth) then [Path(depth + 1), Far(depth)]
                              else [Far(depth), Path(depth + 1)];
      stack', depth' := stack[..n] + children, depth + 1;
      StackedInner(view.t, stack, children, depth);
      StackGrows(view.t, stack[..n], children);
      PathSplits(view.t, depth);
    }

    // ----- writing -----------------------------------------------------------------------------

    /** Gives a leaf other contacts. */
    method SetContacts(node: KBucketNode, b: seq<Contact>, ghost i: nat)
      requires Valid() && i < |view.t| && node == view.leaves[i] && TableOk(g.local, g.k, view.t[i := b])
      modifies this`view, node
      ensures Valid() && Nodes() == old(Nodes()) && view.t == old(view).t[i := b]
    {
      LeafState(i);
      node.contacts := Some(b);
      WithBucketOk(g.local, view, i, b);
      view := WithBucket(view, i, b);
    }

    /** Removes the contact with the id. The result is that of `Delete`, and so what `DeleteOk` says of it. */
    method Remove(id: Id) returns (event: Option<Event>)
      requires Valid()
      modifies this`view, Nodes()
      ensures (view.t, event) == Delete(g.local, old(view).t, id)
      ensures Valid() && Nodes() == old(Nodes())
    {
      var node, bitIndex := FindLeaf(id);
      var contacts := node.contacts.value;
      var index := FindIndex(contacts, id);
      ghost var i := BucketFor(g.local, view.t, id);
      LeafState(i);
      if index >= 0 {
        RemoveOk(g.local, g.k, view.t, i, index);
        SetContacts(node, contacts[..index] + contacts[index + 1..], i);
        return Some(Removed(contacts[index]));
      }
      event := None;
    }

    // ----- adding ------------------------------------------------------------------------------

    /**
     * Adds a contact, splitting the last bucket as often as it must. The result is that of `Insert`, and
     * so what `InsertOk` says of it.
     */
    method Add(contact: Contact) returns (event: Option<Event>)
      requires Valid() && Addable(g, contact.id)
      modifies this`view, Nodes()
      ensures Valid() && fresh(Nodes() - old(Nodes()))
      ensures (view.t, event) == Insert(g, old(view).t, contact)
      decreases 8 * |g.local| + 1 - |view.t|, 1
    {
      var node, bitIndex := FindLeaf(contact.id);
      var contacts := node.contacts.value;
      var index := FindIndex(contacts, contact.id);
      ghost var i := BucketFor(g.local, view.t, contact.id);
      LeafState(i);
      if index >= 0 {
        event := UpdateAt(node, index, contact, i);
        return;
      }
      if |contacts| < g.k {
        PushOk(g.local, g.k, view.t, i, contact);
        SetContacts(node, contacts + [contact], i);
        return Some(Added(contact));
      }
      event := AddToFull(node, bitIndex, contact);
    }

    /** A full bucket that may not be split asks for its oldest contacts to be pinged. */
    method AddToFull(node: KBucketNode, bitIndex: nat, contact: Contact) returns (event: Option<Event>)
      requires Valid() && Addable(g, contact.id)
      requires var i := BucketFor(g.local, view.t, contact.id);
               && node == view.leaves[i] && bitIndex == (if i < |view.t| - 1 then i + 1 else i)
               && IndexOf(view.t[i], contact.id) < 0 && |view.t[i]| >= g.k
      modifies this`view, Nodes()
      ensures Valid() && fresh(Nodes() - old(Nodes()))
      ensures (view.t, event) == Insert(g, old(view).t, contact)
      decreases 8 * |g.local| + 1 - |view.t|, 0
    {
      LeafState(BucketFor(g.local, view.t, contact.id));
      InsertFull(g, view.t, contact);
      if node.noSplit {
        return Some(Ping(Oldest(g, node.contacts.value), contact));
      }
      SplitLeaf(node, bitIndex);
      event := Add(contact);
    }

    method UpdateAt(node: KBucketNode, index: nat, contact: Contact, ghost i: nat) returns (event: Option<Event>)
      requires Valid() && i < |view.t| && node == view.leaves[i] && node.contacts == Some(view.t[i])
      requires index < |view.t[i]| && view.t[i][index].id == contact.id
      modifies this`view, node
      ensures Valid() && Nodes() == old(Nodes())
      ensures view.t == old(view).t[i := Update(g.arbiter, old(view).t[i], index, contact).0]
      ensures event == Update(g.arbiter, old(view).t[i], index, contact).1
    {
      UpdateOk(g, view.t, i, index, contact);
      var contacts := node.contacts.value;
      var incumbent := contacts[index];
      var selection := g.arbiter(incumbent, contact);
      if selection == incumbent && incumbent != contact {
        assert view.t[i := view.t[i]] == view.t;
        return None;
      }
      SetContacts(node, contacts[..index] + contacts[index + 1..] + [selection], i);
      event := Some(Updated(incumbent, selection));
    }

    /** Makes a leaf an inner node above two new ones, and keeps the far one from being split. */
    method SplitLeaf(node: KBucketNode, bitIndex: nat)
      requires Valid() && bitIndex == |view.inner| && node == view.leaves[bitIndex] && |view.t| <= 8 * |g.local|
      modifies this`view, node
      ensures view.t == SplitTable(g.local, old(view).t)
      ensures Valid() && fresh(Nodes() - old(Nodes())) && Nodes() >= old(Nodes())
    {
      var near, far := SplitInTwo(node, bitIndex);
    }

    method SplitInTwo(node: KBucketNode, bitIndex: nat) returns (near: KBucketNode, far: KBucketNode)
      requires Valid() && bitIndex == |view.inner| && node == view.leaves[bitIndex] && |view.t| <= 8 * |g.local|
      modifies this`view, node
      ensures view.t == SplitTable(g.local, old(view).t)
      ensures Valid() && fresh(near) && fresh(far) && Nodes() == old(Nodes()) + {near, far}
    {
      LeafState(bitIndex);
      SplitOk(g.local, g.k, view.t);
      near, far := Divide(node, g.local, bitIndex);
      SplitShape(g.local, view, near, far);
      SplitStates(view, near, far);
      Install(Split(g.local, view, near, far));
    }

    /** Each node is as the view after the split says, when the other nodes are as they were. */
    lemma {:induction false} SplitStates(v: View, near: KBucketNode, far: KBucketNode)
      requires Shape(g.local, v) && near !in v.held && far !in v.held && near != far
      requires var d := |v.inner|; var t := SplitTable(g.local, v.t); var node := v.leaves[d];
               && (forall o | o in v.held && o != node :: v.held[o].state == o.State())
               && node.State() == NodeState(None, false, if Bit(g.local, d) then far else near,
                                            if Bit(g.local, d) then near else far)
               && far.State() == NodeState(Some(t[d]), true, null, null)
               && near.State() == NodeState(Some(t[d + 1]), false, null, null)
      ensures forall o | o in Split(g.local, v, near, far).held ::
                Split(g.local, v, near, far).held[o].state == o.State()
    {
    }

    /** The tree is now that of the view. */
    ghost method Install(v: View)
      requires KeepsId(g.arbiter) && Shape(g.local, v) && TableOk(g.local, g.k, v.t) && root == OnPath(v, 0)
      requires forall o | o in v.held :: v.held[o].state == o.State()
      modifies this`view
      ensures view == v && Valid()
    {
      view := v;
    }

    static method Divide(node: KBucketNode, local: Id, bitIndex: nat) returns (near: KBucketNode, far: KBucketNode)
      requires node.contacts.Some? && !node.noSplit
      modifies node
      ensures fresh(near) && fresh(far) && near != far
      ensures node.State()
                == NodeState(None, false, if Bit(local, bitIndex) then far else near,
                             if Bit(local, bitIndex) then near else far)
      ensures near.State() == NodeState(Some(Side(local, old(node.contacts.value), bitIndex, true)), false, null, null)
      ensures far.State() == NodeState(Some(Side(local, old(node.contacts.value), bitIndex, false)), true, null, null)
    {
      var left := new KBucketNode();
      var right := new KBucketNode();
      node.left, node.right := left, right;
      Distribute(node, left, right, local, bitIndex);
      node.contacts := None;
      near := DetermineNode(node, local, bitIndex);
      far := if node.left == near then right else left;
      far.noSplit := true;
    }

    static method PutInChild(node: KBucketNode, left: KBucketNode, right: KBucketNode, c: Contact, bitIndex: nat)
      requires node.left == left && node.right == right && left != right && left.contacts.Some? && right.contacts.Some?
      modifies left`contacts, right`contacts
      ensures left.contacts == if Bit(c.id, bitIndex) then old(left.contacts) else Some(old(left.contacts).value + [c])
      ensures right.contacts == if Bit(c.id, bitIndex) then Some(old(right.contacts).value + [c])
                else old(right.contacts)
    {
      var child := DetermineNode(node, c.id, bitIndex);
      child.contacts := Some(child.contacts.value + [c]);
    }

    /** Each contact goes to the child that its id's bit says. */
    static method Distribute(node: KBucketNode, left: KBucketNode, right: KBucketNode, local: Id, bitIndex: nat)
      requires node.contacts.Some? && node.left == left && node.right == right && left != right && node != left
      requires node != right
      requires left.contacts == Some([]) && right.contacts == Some([])
      modifies left`contacts, right`contacts
      ensures left.contacts == Some(Side(local, node.contacts.value, bitIndex, !Bit(local, bitIndex)))
      ensures right.contacts == Some(Side(local, node.contacts.value, bitIndex, Bit(local, bitIndex)))
    {
      var contacts := node.contacts.value;
      var i := 0;
      while i < |contacts|
        invariant 0 <= i <= |contacts|
        invariant left.contacts == Some(Side(local, contacts[..i], bitIndex, !Bit(local, bitIndex)))
        invariant right.contacts == Some(Side(local, contacts[..i], bitIndex, Bit(local, bitIndex)))
      {
        PutInChild(node, left, right, contacts[i], bitIndex);
        SideNext(local, contacts, i, bitIndex, true);
        SideNext(local, contacts, i, bitIndex, false);
        i := i + 1;
      }
      assert contacts[..|contacts|] == contacts;
    }
  }

  lemma {:induction false} SideNext(local: Id, b: seq<Contact>, n: nat, i: nat, near: bool)
    requires n < |b|
    ensures if (Bit(b[n].id, i) == Bit(local, i)) == near then
              Side(local, b[..n + 1], i, near) == Side(local, b[..n], i, near) + [b[n]]
            else Side(local, b[..n + 1], i, near) == Side(local, b[..n], i, near)
  {
    assert b[..n + 1][..n] == b[..n];
    var r := Side(local, b[..n], i, near);
    assert r + [] == r;
  }

  lemma {:induction false} AllAgree(local: Id, d: nat, id: Id, from: nat)
    requires from <= d && Agree(id, local, from)
    ensures Agree(id, local, d) ==> Where(local, d, id, from) == d
    decreases d - from
  {
    if from < d && Bit(id, from) == Bit(local, from) {
      AllAgree(local, d, id, from + 1);
    }
  }

  lemma {:induction false} FirstDifferent(local: Id, d: nat, id: Id, i: nat, from: nat)
    requires from <= i < d && Agree(id, local, i) && Bit(id, i) != Bit(local, i)
    ensures Where(local, d, id, from) == i
    decreases i - from
  {
    if from < i {
      FirstDifferent(local, d, id, i, from + 1);
    }
  }
}
