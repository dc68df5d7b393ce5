/** The arena that AST nodes live in (src/ast/allocator.cpp:67-149): a bump allocator over a doubly linked list. */
module Arena {
  import opened Alignment

  const MIN_ALIGNMENT: nat := 16
  const DEFAULT_NODE_CAPACITY: nat := 1024 * 1024

  /** `round_up_to_alignment` */
  function RoundUpToAlignment(size: nat): (r: nat)
    ensures r % MIN_ALIGNMENT == 0 && size <= r < size + MIN_ALIGNMENT
  {
    if size % MIN_ALIGNMENT == 0 then size else size + MIN_ALIGNMENT - size % MIN_ALIGNMENT
  }

  /** A piece of memory from the system; its data begins at an aligned address and has `capacity` bytes. */
  class Node {
    var size: nat
    const capacity: nat
    var prevNode: Node?
    var nextNode: Node?

    constructor (size: nat, capacity: nat, prevNode: Node?, nextNode: Node?)
      ensures this.size == size && this.capacity == capacity
      ensures this.prevNode == prevNode && this.nextNode == nextNode
    {
      this.size, this.capacity, this.prevNode, this.nextNode := size, capacity, prevNode, nextNode;
    }
  }

  /** The bytes an allocation returned: `size` bytes of the data of `node` from `offset` on. */
  datatype Block = Block(node: Node, offset: nat, size: nat)

  ghost predicate Distinct(nodes: seq<Node>) {
    forall i, j :: 0 <= i < j < |nodes| ==> nodes[i] != nodes[j]
  }

  /** The lists of nodes and of blocks that the allocator stands for, with how much of each node is used. */
  ghost predicate WellFormed(nodes: seq<Node>, used: map<Node, nat>, blocks: seq<Block>) {
    NodesGood(nodes, used) && BlocksGood(blocks, used) && Sum(Sizes(nodes, used)) == Sum(BlockSizes(blocks))
  }

  ghost predicate NodesGood(nodes: seq<Node>, used: map<Node, nat>) {
    && Distinct(nodes)
    && (forall n :: n in nodes ==> n in used)
    && (forall n :: n in used ==> n in nodes && used[n] <= n.capacity && used[n] % MIN_ALIGNMENT == 0)
  }

  ghost predicate BlocksGood(blocks: seq<Block>, used: map<Node, nat>) {
    (forall i :: 0 <= i < |blocks| ==> InBounds(blocks[i], used)) && Apart(blocks)
  }

  /** A block begins at an aligned place and ends inside the used part of its node. */
  ghost predicate InBounds(b: Block, used: map<Node, nat>) {
    b.offset % MIN_ALIGNMENT == 0 && b.node in used && b.offset + b.size <= used[b.node]
  }

  /** Blocks of one node follow each other, so no two blocks share a byte. */
  ghost predicate Apart(blocks: seq<Block>) {
    forall i, j :: 0 <= i < j < |blocks| && blocks[i].node == blocks[j].node ==>
      blocks[i].offset + blocks[i].size <= blocks[j].offset
  }

  ghost function Sizes(nodes: seq<Node>, used: map<Node, nat>): (r: seq<nat>)
    requires forall n :: n in nodes ==> n in used
    ensures |r| == |nodes| && forall i :: 0 <= i < |nodes| ==> r[i] == used[nodes[i]]
  {
    seq(|nodes|, i requires 0 <= i < |nodes| => used[nodes[i]])
  }

  ghost function BlockSizes(blocks: seq<Block>): (r: seq<nat>)
    ensures |r| == |blocks| && forall i :: 0 <= i < |blocks| ==> r[i] == blocks[i].size
  {
    seq(|blocks|, i requires 0 <= i < |blocks| => blocks[i].size)
  }

  function Sum(s: seq<nat>): nat {
    if s == [] then 0 else Sum(s[..|s| - 1]) + s[|s| - 1]
  }

  lemma SumAppend(s: seq<nat>, n: nat)
    ensures Sum(s + [n]) == Sum(s) + n
  {
    assert (s + [n])[..|s|] == s;
  }

  lemma {:induction false} SumPrepend(s: seq<nat>, n: nat)
    ensures Sum([n] + s) == n + Sum(s)
  {
    if s == [] {
      SumAppend([], n);
      assert [n] + s == [] + [n];
    } else {
      SumPrepend(s[..|s| - 1], n);
      assert [n] + s == ([n] + s[..|s| - 1]) + [s[|s| - 1]];
      SumAppend([n] + s[..|s| - 1], s[|s| - 1]);
    }
  }

  lemma BlockAppend(blocks: seq<Block>, b: Block)
    ensures Sum(BlockSizes(blocks + [b])) == Sum(BlockSizes(blocks)) + b.size
  {
    assert BlockSizes(blocks + [b]) == BlockSizes(blocks) + [b.size];
    SumAppend(BlockSizes(blocks), b.size);
  }

  lemma SumFront(nodes: seq<Node>, used: map<Node, nat>, n: Node, size: nat)
    requires NodesGood(nodes, used) && n !in nodes
    ensures Sum(Sizes([n] + nodes, used[n := size])) == Sum(Sizes(nodes, used)) + size
  {
    assert Sizes([n] + nodes, used[n := size]) == [size] + Sizes(nodes, used);
    SumPrepend(Sizes(nodes, used), size);
  }

  lemma SumBack(nodes: seq<Node>, used: map<Node, nat>, n: Node, size: nat)
    requires NodesGood(nodes, used) && n !in nodes
    ensures Sum(Sizes(nodes + [n], used[n := size])) == Sum(Sizes(nodes, used)) + size
  {
    assert Sizes(nodes + [n], used[n := size]) == Sizes(nodes, used) + [size];
    SumAppend(Sizes(nodes, used), size);
  }

  lemma SumBump(nodes: seq<Node>, used: map<Node, nat>, size: nat)
    requires NodesGood(nodes, used) && nodes != []
    ensures var last := nodes[|nodes| - 1];
            Sum(Sizes(nodes, used[last := used[last] + size])) == Sum(Sizes(nodes, used)) + size
  {
    var last := nodes[|nodes| - 1];
    assert Sizes(nodes, used[last := used[last] + size])[..|nodes| - 1] == Sizes(nodes, used)[..|nodes| - 1];
  }

  /** A block at the old end of the used part of a node, or at the beginning of a new one. */
  lemma NewBlockGood(blocks: seq<Block>, used: map<Node, nat>, n: Node, size: nat)
    requires BlocksGood(blocks, used) && (n in used ==> used[n] % MIN_ALIGNMENT == 0)
    ensures var offset := if n in used then used[n] else 0;
            BlocksGood(blocks + [Block(n, offset, size)], used[n := offset + size])
  {
    forall i | 0 <= i < |blocks| ensures InBounds(blocks[i], used) && blocks[i].node in used {
    }
  }

  lemma NodesGoodWith(nodes: seq<Node>, used: map<Node, nat>, n: Node, size: nat, more: seq<Node>)
    requires NodesGood(nodes, used) && size % MIN_ALIGNMENT == 0 && size <= n.capacity
    requires (more == nodes && n in nodes) || (n !in nodes && (more == [n] + nodes || more == nodes + [n]))
    ensures NodesGood(more, used[n := size])
  {
  }

  /** A block at the beginning of a new node keeps all in order. */
  lemma NewNodeKeeps(nodes: seq<Node>, used: map<Node, nat>, blocks: seq<Block>, n: Node, size: nat, more: seq<Node>)
    requires WellFormed(nodes, used, blocks) && n !in nodes && size % MIN_ALIGNMENT == 0 && size <= n.capacity
    requires more == [n] + nodes || more == nodes + [n]
    ensures WellFormed(more, used[n := size], blocks + [Block(n, 0, size)])
  {
    NodesGoodWith(nodes, used, n, size, more);
    NewBlockGood(blocks, used, n, size);
    BlockAppend(blocks, Block(n, 0, size));
    SumFront(nodes, used, n, size);
    SumBack(nodes, used, n, size);
  }

  lemma SumsAgree(nodes: seq<Node>, used: map<Node, nat>, blocks: seq<Block>, size: nat)
    requires NodesGood(nodes, used) && nodes != [] && Sum(Sizes(nodes, used)) == Sum(BlockSizes(blocks))
    ensures var last := nodes[|nodes| - 1];
            Sum(Sizes(nodes, used[last := used[last] + size]))
            == Sum(BlockSizes(blocks + [Block(last, used[last], size)]))
  {
    SumBump(nodes, used, size);
    BlockAppend(blocks, Block(nodes[|nodes| - 1], used[nodes[|nodes| - 1]], size));
  }

  /** So does a block behind the used part of the last node. */
  lemma BumpKeeps(nodes: seq<Node>, used: map<Node, nat>, blocks: seq<Block>, size: nat)
    requires WellFormed(nodes, used, blocks) && nodes != [] && size % MIN_ALIGNMENT == 0
    requires used[nodes[|nodes| - 1]] + size <= nodes[|nodes| - 1].capacity
    ensures var last := nodes[|nodes| - 1];
            WellFormed(nodes, used[last := used[last] + size], blocks + [Block(last, used[last], size)])
  {
    var last := nodes[|nodes| - 1];
    assert last in nodes && last in used;
    var offset := used[last];
    NodesGoodWith(nodes, used, last, offset + size, nodes);
    NewBlockGood(blocks, used, last, size);
    SumsAgree(nodes, used, blocks, size);
  }

  // ----- the list in memory -----

  /** From first to last the links lead along the list `nodes` and back. */
  ghost predicate Linked(nodes: seq<Node>)
    reads nodes
  {
    && (nodes != [] ==> nodes[0].prevNode == null && nodes[|nodes| - 1].nextNode == null)
    && Chained(nodes)
  }

  ghost predicate Chained(nodes: seq<Node>)
    reads nodes
  {
    forall i, j :: 0 <= i < j < |nodes| && j == i + 1 ==>
      nodes[i].nextNode == nodes[j] && nodes[j].prevNode == nodes[i]
  }

  lemma LinkedInFront(node: Node, nodes: seq<Node>)
    requires Chained(nodes) && node.prevNode == null
    requires if nodes == [] then node.nextNode == null
             else node.nextNode == nodes[0] && nodes[0].prevNode == node && nodes[|nodes| - 1].nextNode == null
    ensures Linked([node] + nodes)
  {
  }

  ghost predicate Used(nodes: seq<Node>, used: map<Node, nat>)
    reads nodes
  {
    forall n :: n in nodes ==> n in used && n.size == used[n]
  }

  /** The arena's two pointers are the ends of the list. */
  ghost predicate Ends(first: Node?, last: Node?, nodes: seq<Node>) {
    if nodes == [] then first == null && last == null else first == nodes[0] && last == nodes[|nodes| - 1]
  }

  class ArenaAllocator {
    var firstNode: Node?
    var lastNode: Node?
    ghost var nodes: seq<Node>
    ghost var used: map<Node, nat>
    ghost var blocks: seq<Block>

    ghost predicate Valid()
      reads this, nodes
    {
      && Linked(nodes) && Used(nodes, used) && Ends(firstNode, lastNode, nodes)
      && WellFormed(nodes, used, blocks)
    }

    constructor ()
      ensures Valid() && nodes == [] && blocks == []
    {
      firstNode, lastNode, nodes, used, blocks := null, null, [], map[], [];
    }

    /** A node for one large block in front of the others. */
    method PushFront(size: nat) returns (node: Node)
      requires Valid()
      modifies this`firstNode, this`lastNode, nodes
      ensures fresh(node) && node.capacity == size
      ensures Linked([node] + nodes) && Used([node] + nodes, used[node := size])
      ensures Ends(firstNode, lastNode, [node] + nodes)
    {
      node := new Node(size, size, null, firstNode);
      firstNode := node;
      if node.nextNode != null {
        node.nextNode.prevNode := node;
      } else {
        lastNode := node;
      }
      assert Chained(nodes);
      LinkedInFront(node, nodes);
    }

    /** A node of the default capacity behind the others. */
    method PushBack(size: nat) returns (node: Node)
      requires Valid()
      modifies this`firstNode, this`lastNode, nodes
      ensures fresh(node) && node.capacity == DEFAULT_NODE_CAPACITY
      ensures Linked(nodes + [node]) && Used(nodes + [node], used[node := size])
      ensures Ends(firstNode, lastNode, nodes + [node])
    {
      node := new Node(size, DEFAULT_NODE_CAPACITY, lastNode, null);
      if lastNode == null {
        firstNode := node;
      } else {
        lastNode.nextNode := node;
      }
      lastNode := node;
    }

    ghost method Record(nodes': seq<Node>, used': map<Node, nat>, b: Block)
      requires Linked(nodes') && Used(nodes', used') && Ends(firstNode, lastNode, nodes')
      requires WellFormed(nodes', used', blocks + [b])
      modifies `nodes, `used, `blocks
      ensures Valid() && blocks == old(blocks) + [b] && nodes == nodes'
    {
      nodes, used, blocks := nodes', used', blocks + [b];
    }

    method AllocateInFront(size: nat) returns (b: Block)
      requires Valid() && size % MIN_ALIGNMENT == 0
      modifies this, nodes
      ensures Valid() && blocks == old(blocks) + [b] && b.size == size
      ensures fresh(b.node) && nodes == [b.node] + old(nodes) && b.offset == 0 && b.node.capacity == size
    {
      var node := PushFront(size);
      b := Block(node, 0, size);
      NewNodeKeeps(nodes, used, blocks, node, size, [node] + nodes);
      Record([node] + nodes, used[node := size], b);
    }

    method AllocateBehind(size: nat) returns (b: Block)
      requires Valid() && size % MIN_ALIGNMENT == 0 && size <= DEFAULT_NODE_CAPACITY
      modifies this, nodes
      ensures Valid() && blocks == old(blocks) + [b] && b.size == size
      ensures fresh(b.node) && nodes == old(nodes) + [b.node] && b.offset == 0
      ensures b.node.capacity == DEFAULT_NODE_CAPACITY
    {
      var node := PushBack(size);
      b := Block(node, 0, size);
      NewNodeKeeps(nodes, used, blocks, node, size, nodes + [node]);
      Record(nodes + [node], used[node := size], b);
    }

    method Bump(size: nat)
      requires Linked(nodes) && Used(nodes, used) && Distinct(nodes) && lastNode != null && lastNode in nodes
      modifies lastNode`size
      ensures Linked(nodes) && Used(nodes, used[lastNode := used[lastNode] + size])
    {
      lastNode.size := lastNode.size + size;
    }

    /** The next bytes of the last node. */
    method AllocateInLast(size: nat) returns (b: Block)
      requires Valid() && size % MIN_ALIGNMENT == 0
      requires lastNode != null && lastNode.size + size <= lastNode.capacity
      modifies this, nodes
      ensures Valid() && blocks == old(blocks) + [b] && b.size == size
      ensures nodes == old(nodes) && b.node == old(lastNode) && b.offset == old(lastNode.size)
    {
      b := Block(lastNode, lastNode.size, size);
      BumpKeeps(nodes, used, blocks, size);
      Bump(size);
      Record(nodes, used[lastNode := used[lastNode] + size], b);
    }

    function UsedOfLast(): nat
      reads this, lastNode
    {
      if lastNode == null then 0 else lastNode.size
    }

    /** The last node has room for so many bytes. */
    predicate HasRoom(size: nat)
      reads this, lastNode
    {
      lastNode != null && lastNode.size + size <= lastNode.capacity
    }

    /**
     * `sized_allocate`: a block of more than a megabyte gets a node of its own in front of the others; any other is put
     * behind the used part of the last node, or into a new last node of a megabyte if it does not fit.
     */
    method SizedAllocate(size: nat) returns (b: Block)
      requires Valid()
      modifies this, nodes
      ensures Valid() && blocks == old(blocks) + [b]
      ensures b.size % 16 == 0 && size <= b.size < size + 16
      ensures b.size > 0x10_0000 ==>
                fresh(b.node) && nodes == [b.node] + old(nodes) && b.offset == 0 && b.node.capacity == b.size
      ensures b.size <= 0x10_0000 && old(HasRoom(RoundUpToAlignment(size))) ==>
                nodes == old(nodes) && b.node == old(lastNode) && b.offset == old(UsedOfLast())
      ensures b.size <= 0x10_0000 && !old(HasRoom(RoundUpToAlignment(size))) ==>
                fresh(b.node) && nodes == old(nodes) + [b.node] && b.offset == 0 && b.node.capacity == 0x10_0000
    {
      var rounded := RoundUpToAlignment(size);
      if rounded > DEFAULT_NODE_CAPACITY {
        b := AllocateInFront(rounded);
      } else if lastNode == null {
        b := AllocateBehind(rounded);
      } else if lastNode.size + rounded <= lastNode.capacity {
        b := AllocateInLast(rounded);
      } else {
        // the source looks for a successor of the last node here and would start it afresh; there never is one
        assert lastNode.nextNode == null;
        b := AllocateBehind(rounded);
      }
    }
  }

  /** What the allocator's state promises about every block, and about any two of them. */
  lemma BlocksAreUsable(a: ArenaAllocator, i: nat, j: nat, p: nat)
    requires a.Valid() && i < |a.blocks| && j < |a.blocks|
    ensures var x, y := a.blocks[i], a.blocks[j];
            && x.offset % MIN_ALIGNMENT == 0 && x.offset + x.size <= x.node.capacity
            && (i != j && x.node == y.node ==>
                  !(x.offset <= p < x.offset + x.size && y.offset <= p < y.offset + y.size))
  {
    assert InBounds(a.blocks[i], a.used);
  }
}
