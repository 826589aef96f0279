/** Lists of value blocks, whose nodes may share blocks, and the setters that walk them. */
module ValueBlockList {

  class ValueBlock {
    var allocBlockCnt: int
    var usedBlockCnt: int
    var skipBlockCnt: int
    var allocBufferSize: int
  }

  class BlockNode {
    var tableId: int
    var columnOrder: int
    var valueBlock: ValueBlock
    var next: BlockNode?

    constructor (block: ValueBlock, table: int, order: int)
      ensures valueBlock == block && next == null && tableId == table && columnOrder == order
    {
      valueBlock, next, tableId, columnOrder := block, null, table, order;
    }
  }

  /** The nodes reached from the head, in order, to the end of the list. */
  ghost predicate Spine(head: BlockNode?, nodes: seq<BlockNode>)
    reads nodes
    decreases |nodes|
  {
    if head == null then nodes == []
    else nodes != [] && nodes[0] == head && Spine(head.next, nodes[1..])
  }

  ghost function Blocks(nodes: seq<BlockNode>): set<ValueBlock>
    reads nodes
  {
    set i | 0 <= i < |nodes| :: nodes[i].valueBlock
  }

  /** Fields of a block that the setters do not touch. */
  twostate predicate RestUnchanged(b: ValueBlock)
    reads b
  {
    b.allocBlockCnt == old(b.allocBlockCnt) && b.allocBufferSize == old(b.allocBufferSize)
  }

  method SetAllUsed(head: BlockNode?, ghost nodes: seq<BlockNode>, used: int)
    requires Spine(head, nodes)
    modifies Blocks(nodes)
    ensures forall b :: b in Blocks(nodes) ==>
      b.usedBlockCnt == used && b.skipBlockCnt == old(b.skipBlockCnt) && RestUnchanged(b)
  {
    var node := head;
    ghost var i := 0;
    assert nodes[0..] == nodes;
    while node != null
      invariant 0 <= i <= |nodes| && Spine(node, nodes[i..])
      invariant forall k :: 0 <= k < i ==> nodes[k].valueBlock.usedBlockCnt == used
      invariant forall b :: b in Blocks(nodes) ==> b.skipBlockCnt == old(b.skipBlockCnt) && RestUnchanged(b)
      decreases |nodes| - i
    {
      node.valueBlock.usedBlockCnt := used;
      node := node.next;
      assert nodes[i..][1..] == nodes[i + 1..];
      i := i + 1;
    }
  }

  method SetAllSkip(head: BlockNode?, ghost nodes: seq<BlockNode>, skip: int)
    requires Spine(head, nodes)
    modifies Blocks(nodes)
    ensures forall b :: b in Blocks(nodes) ==>
      b.skipBlockCnt == skip && b.usedBlockCnt == old(b.usedBlockCnt) && RestUnchanged(b)
  {
    var node := head;
    ghost var i := 0;
    assert nodes[0..] == nodes;
    while node != null
      invariant 0 <= i <= |nodes| && Spine(node, nodes[i..])
      invariant forall k :: 0 <= k < i ==> nodes[k].valueBlock.skipBlockCnt == skip
      invariant forall b :: b in Blocks(nodes) ==> b.usedBlockCnt == old(b.usedBlockCnt) && RestUnchanged(b)
      decreases |nodes| - i
    {
      node.valueBlock.skipBlockCnt := skip;
      node := node.next;
      assert nodes[i..][1..] == nodes[i + 1..];
      i := i + 1;
    }
  }

  /** Both counts of every block on the list; nothing else of the blocks, and no other object, changes. */
  twostate predicate BothSet(blocks: set<ValueBlock>, skip: int, used: int)
    reads blocks
  {
    forall b :: b in blocks ==> b.skipBlockCnt == skip && b.usedBlockCnt == used && RestUnchanged(b)
  }

  method SetAllSkipAndUsed(head: BlockNode?, ghost nodes: seq<BlockNode>, skip: int, used: int)
    requires Spine(head, nodes)
    modifies Blocks(nodes)
    ensures BothSet(old(Blocks(nodes)), skip, used)
  {
    var node := head;
    ghost var i := 0;
    assert nodes[0..] == nodes;
    while node != null
      invariant 0 <= i <= |nodes| && Spine(node, nodes[i..])
      invariant forall k :: 0 <= k < i ==>
        nodes[k].valueBlock.skipBlockCnt == skip && nodes[k].valueBlock.usedBlockCnt == used
      invariant forall b :: b in Blocks(nodes) ==> RestUnchanged(b)
      decreases |nodes| - i
    {
      node.valueBlock.skipBlockCnt := skip;
      node.valueBlock.usedBlockCnt := used;
      node := node.next;
      assert nodes[i..][1..] == nodes[i + 1..];
      i := i + 1;
    }
  }

  /** The two single setters, one after the other in either order, have the same effect. */
  method SetInEitherOrder(head: BlockNode?, ghost nodes: seq<BlockNode>, skip: int, used: int, skipFirst: bool)
    requires Spine(head, nodes)
    modifies Blocks(nodes)
    ensures BothSet(old(Blocks(nodes)), skip, used)
  {
    if skipFirst {
      SetAllSkip(head, nodes, skip);
      SetAllUsed(head, nodes, used);
    } else {
      SetAllUsed(head, nodes, used);
      SetAllSkip(head, nodes, skip);
    }
  }

  /** A list has one spine, and no node comes twice on it. */
  lemma {:induction false} SpineIsUnique(head: BlockNode?, nodes: seq<BlockNode>, others: seq<BlockNode>)
    requires Spine(head, nodes) && Spine(head, others)
    ensures nodes == others
    decreases |nodes|
  {
    if head != null {
      SpineIsUnique(head.next, nodes[1..], others[1..]);
      assert nodes == [head] + nodes[1..] && others == [head] + others[1..];
    }
  }

  lemma {:induction false} SpineSuffix(head: BlockNode?, nodes: seq<BlockNode>, k: nat)
    requires Spine(head, nodes) && k < |nodes|
    ensures Spine(nodes[k], nodes[k..])
    decreases |nodes|
  {
    if k == 0 {
      assert nodes[0..] == nodes;
    } else {
      SpineSuffix(head.next, nodes[1..], k - 1);
      assert nodes[1..][k - 1..] == nodes[k..];
    }
  }

  lemma NoNodeTwice(head: BlockNode?, nodes: seq<BlockNode>, i: nat, j: nat)
    requires Spine(head, nodes) && i < |nodes| && j < |nodes| && nodes[i] == nodes[j]
    ensures i == j
  {
    SpineSuffix(head, nodes, i);
    SpineSuffix(head, nodes, j);
    SpineIsUnique(nodes[i], nodes[i..], nodes[j..]);
  }
}
