/** The graph builder of lib/bpftool/src/cfg.c: functions, then blocks, then edges, inserted in
    place into lists kept in program order.  Each method is proved against CfgSpec. */
module Cfg {
  import opened CfgSpec

  // The head of the ENTRY and EXIT nodes, which hold no instruction.
  const NO_INSN := -1

  datatype Edge = Edge(src: BbNode, dst: BbNode?, flags: int)

  class BbNode {
    var head: int
    var tail: int
    var idx: int
    var prevs: seq<Edge>
    var succs: seq<Edge>

    constructor (head: int)
      ensures this.head == head && tail == NO_INSN && idx == 0 && prevs == [] && succs == []
    {
      this.head := head;
      tail := NO_INSN;
      idx := 0;
      prevs, succs := [], [];
    }
  }

  lemma InsertSorted(s: seq<int>, i: nat, x: int)
    requires StrictlyIncreasing(s) && i <= |s|
    requires forall j :: 0 <= j < i ==> s[j] < x
    requires i < |s| ==> x < s[i]
    ensures StrictlyIncreasing(s[..i] + [x] + s[i..])
    ensures forall h :: h in s[..i] + [x] + s[i..] <==> h in s || h == x
  {
    var t := s[..i] + [x] + s[i..];
    assert t[i] == x;
    assert s == s[..i] + s[i..];
  }

  // ---------- A function's nodes as values ----------

  // The fields of a node; its edges still name nodes by reference.
  datatype NodeVal = NodeVal(head: int, tail: int, idx: int, succs: seq<Edge>, prevs: seq<Edge>)

  ghost predicate Distinct(nodes: seq<BbNode>) {
    forall i, j :: 0 <= i < j < |nodes| ==> nodes[i] != nodes[j]
  }

  // The index given to node `b`, or -1 when `b` is not in the list.
  ghost function IdxOf(nodes: seq<BbNode>, vals: seq<NodeVal>, b: BbNode?): int
    requires |nodes| == |vals|
  {
    if i :| 0 <= i < |nodes| && nodes[i] == b then vals[i].idx else -1
  }

  ghost function ViewEdges(nodes: seq<BbNode>, vals: seq<NodeVal>, edges: seq<Edge>): (v: seq<EdgeView>)
    requires |nodes| == |vals|
    ensures |v| == |edges|
    ensures forall k :: 0 <= k < |v| ==>
              v[k] == EdgeView(IdxOf(nodes, vals, edges[k].src), IdxOf(nodes, vals, edges[k].dst), edges[k].flags)
  {
    seq(|edges|, k requires 0 <= k < |edges| =>
      EdgeView(IdxOf(nodes, vals, edges[k].src), IdxOf(nodes, vals, edges[k].dst), edges[k].flags))
  }

  ghost function ViewBb(nodes: seq<BbNode>, vals: seq<NodeVal>, i: int): BlockView
    requires |nodes| == |vals| && 0 <= i < |vals|
  {
    var n := vals[i];
    BlockView(n.head, n.tail, n.idx, ViewEdges(nodes, vals, n.succs), ViewEdges(nodes, vals, n.prevs))
  }

  /** The function as a value: its list of blocks, with edges between block indices. */
  ghost function ViewOf(start: int, end: int, nodes: seq<BbNode>, vals: seq<NodeVal>): (g: FuncView)
    requires |nodes| == |vals|
    ensures g.start == start && g.end == end && |g.blocks| == |vals|
    ensures forall i :: 0 <= i < |vals| ==> g.blocks[i] == ViewBb(nodes, vals, i)
  {
    FuncView(start, end, seq(|vals|, i requires 0 <= i < |vals| => ViewBb(nodes, vals, i)))
  }

  ghost predicate HeadIn(vals: seq<NodeVal>, h: int) {
    exists i :: 1 <= i < |vals| - 1 && vals[i].head == h
  }

  // What the passes leave in the nodes: the cut into blocks and the numbering ...
  ghost predicate BlocksBuilt(prog: Program, start: int, end: int, vals: seq<NodeVal>) {
    && |vals| >= 3
    && (forall i, j :: 1 <= i < j < |vals| - 1 ==> vals[i].head < vals[j].head)
    && (forall h :: IsHead(prog, start, end, h) <==> HeadIn(vals, h))
    && (forall i, j :: 1 <= i < j == i + 1 < |vals| - 1 ==> vals[i].tail == vals[j].head - 1)
    && vals[|vals| - 2].tail == end
    && vals[0].idx == ENTRY_BLOCK_INDEX && vals[|vals| - 1].idx == EXIT_BLOCK_INDEX
    && vals[0].head == NO_INSN && vals[|vals| - 1].head == NO_INSN
    && (forall i :: 1 <= i < |vals| - 1 ==> vals[i].idx == NUM_FIXED_BLOCKS + i - 1)
  }

  // A node that holds no instruction.
  function Special(idx: int): NodeVal { NodeVal(NO_INSN, NO_INSN, idx, [], []) }

  // Between the passes: the blocks alone.
  ghost predicate Partitioned(prog: Program, start: int, end: int, vals: seq<NodeVal>) {
    && |vals| >= 1
    && (forall i, j :: 0 <= i < j < |vals| ==> vals[i].head < vals[j].head)
    && (forall h :: IsHead(prog, start, end, h) <==> exists i :: 0 <= i < |vals| && vals[i].head == h)
    && (forall i, j :: 0 <= i < j == i + 1 < |vals| ==> vals[i].tail == vals[j].head - 1)
    && vals[|vals| - 1].tail == end
    && (forall i :: 0 <= i < |vals| ==> vals[i].idx == NUM_FIXED_BLOCKS + i && vals[i].succs == [] && vals[i].prevs == [])
  }

  // The block between one head and the next.
  function Cut(heads: seq<int>, end: int, i: int): NodeVal
    requires 0 <= i < |heads|
  {
    NodeVal(heads[i], if i + 1 < |heads| then heads[i + 1] - 1 else end, NUM_FIXED_BLOCKS + i, [], [])
  }

  lemma CutIsPartitioned(prog: Program, start: int, end: int, heads: seq<int>, vals: seq<NodeVal>)
    requires StrictlyIncreasing(heads) && |vals| == |heads| >= 1
    requires forall h :: h in heads <==> IsHead(prog, start, end, h)
    requires forall i :: 0 <= i < |heads| ==> vals[i] == Cut(heads, end, i)
    ensures Partitioned(prog, start, end, vals)
  {
    forall h
      ensures IsHead(prog, start, end, h) <==> exists i :: 0 <= i < |vals| && vals[i].head == h
    {
      if h in heads {
        var i :| 0 <= i < |heads| && heads[i] == h;
        assert vals[i].head == h;
      }
    }
  }

  lemma PartitionedIsBuilt(prog: Program, start: int, end: int, vals: seq<NodeVal>)
    requires Partitioned(prog, start, end, vals)
    ensures BlocksBuilt(prog, start, end, [Special(ENTRY_BLOCK_INDEX)] + vals + [Special(EXIT_BLOCK_INDEX)])
  {
    var all := [Special(ENTRY_BLOCK_INDEX)] + vals + [Special(EXIT_BLOCK_INDEX)];
    assert forall i :: 1 <= i < |all| - 1 ==> all[i] == vals[i - 1];
    assert all[|all| - 2] == vals[|vals| - 1];
    forall h
      ensures IsHead(prog, start, end, h) <==> HeadIn(all, h)
    {
      if IsHead(prog, start, end, h) {
        var i :| 0 <= i < |vals| && vals[i].head == h;
        assert all[i + 1].head == h;
      }
    }
  }

  // ... and the edges.
  ghost predicate NodeEdgesOk(prog: Program, nodes: seq<BbNode>, vals: seq<NodeVal>, i: int)
    requires |nodes| == |vals| && 1 <= i < |vals| - 1
  {
    var n := vals[i];
    var through := Edge(nodes[i], nodes[i + 1], EDGE_FLAG_FALLTHROUGH);
    && 0 <= n.tail < |prog|
    && if IsUnconditional(prog[n.tail]) then
         |n.succs| == 1 && NodeJumpsTo(nodes, vals, i, n.succs[0], Target(prog, n.tail))
       else if IsConditional(prog[n.tail]) then
         |n.succs| == 2 && n.succs[0] == through && NodeJumpsTo(nodes, vals, i, n.succs[1], Target(prog, n.tail))
       else
         n.succs == [through]
  }

  ghost predicate NodeJumpsTo(nodes: seq<BbNode>, vals: seq<NodeVal>, i: int, e: Edge, h: int)
    requires |nodes| == |vals| && 0 <= i < |vals|
  {
    && e.src == nodes[i] && e.flags == EDGE_FLAG_JUMP
    && exists k :: 0 <= k < |vals| && e.dst == nodes[k] && vals[k].head == h
  }

  ghost predicate EdgesBuilt(prog: Program, nodes: seq<BbNode>, vals: seq<NodeVal>)
    requires |nodes| == |vals| >= 3
  {
    && vals[0].succs == [Edge(nodes[0], nodes[1], EDGE_FLAG_FALLTHROUGH)]
    && vals[|vals| - 1].prevs == [Edge(nodes[|vals| - 2], nodes[|vals| - 1], EDGE_FLAG_FALLTHROUGH)]
    && (forall i {:trigger NodeEdgesOk(prog, nodes, vals, i)} :: 1 <= i < |vals| - 1 ==>
          NodeEdgesOk(prog, nodes, vals, i))
  }

  lemma TailsInside(prog: Program, start: int, end: int, vals: seq<NodeVal>, i: int)
    requires BlocksBuilt(prog, start, end, vals) && BranchesInside(prog, start, end)
    requires 0 <= start <= end && 1 <= i < |vals| - 1
    ensures start <= vals[i].head <= vals[i].tail <= end
  {
    assert IsHead(prog, start, end, vals[i].head);
    if i < |vals| - 2 {
      assert IsHead(prog, start, end, vals[i + 1].head);
      assert vals[i].tail == vals[i + 1].head - 1;
    }
  }

  lemma IdxOfNode(nodes: seq<BbNode>, vals: seq<NodeVal>, i: int)
    requires |nodes| == |vals| && Distinct(nodes) && 0 <= i < |nodes|
    ensures IdxOf(nodes, vals, nodes[i]) == vals[i].idx
  {
  }

  lemma BlocksView(prog: Program, start: int, end: int, nodes: seq<BbNode>, vals: seq<NodeVal>)
    requires |nodes| == |vals| && BlocksBuilt(prog, start, end, vals)
    ensures IsBlockPartition(prog, ViewOf(start, end, nodes, vals))
  {
    var g := ViewOf(start, end, nodes, vals);
    forall h
      ensures HeadsBlock(g, h) <==> HeadIn(vals, h)
    {
      if i :| 1 <= i < |vals| - 1 && vals[i].head == h {
        assert g.blocks[i].head == h;
      }
    }
  }

  // A jump edge looks, by index, like a jump to the same head.
  lemma JumpView(g: FuncView, nodes: seq<BbNode>, vals: seq<NodeVal>, i: int, k: int, h: int)
    requires |nodes| == |vals| && Distinct(nodes) && 1 <= i < |vals| - 1
    requires g == ViewOf(g.start, g.end, nodes, vals)
    requires vals[0].head < h && vals[|vals| - 1].head < h
    requires 0 <= k < |vals[i].succs| && NodeJumpsTo(nodes, vals, i, vals[i].succs[k], h)
    ensures JumpsTo(g, i, g.blocks[i].succs[k], h)
  {
    var j :| 0 <= j < |vals| && vals[i].succs[k].dst == nodes[j] && vals[j].head == h;
    IdxOfNode(nodes, vals, i);
    IdxOfNode(nodes, vals, j);
    assert g.blocks[j].head == h;
  }

  lemma EdgesAt(prog: Program, g: FuncView, nodes: seq<BbNode>, vals: seq<NodeVal>, i: int)
    requires |nodes| == |vals| && Distinct(nodes) && 1 <= i < |vals| - 1
    requires g == ViewOf(g.start, g.end, nodes, vals)
    requires NodeEdgesOk(prog, nodes, vals, i)
    requires IsBranch(prog[vals[i].tail]) ==> vals[0].head < Target(prog, vals[i].tail)
    requires vals[|vals| - 1].head == vals[0].head
    ensures EdgesOk(prog, g, i)
  {
    IdxOfNode(nodes, vals, i);
    IdxOfNode(nodes, vals, i + 1);
    if IsBranch(prog[vals[i].tail]) {
      JumpView(g, nodes, vals, i, |vals[i].succs| - 1, Target(prog, vals[i].tail));
    }
  }

  lemma BuiltIsGraph(prog: Program, start: int, end: int, nodes: seq<BbNode>, vals: seq<NodeVal>)
    requires |nodes| == |vals| && Distinct(nodes)
    requires BlocksBuilt(prog, start, end, vals) && EdgesBuilt(prog, nodes, vals)
    requires 0 <= start <= end < |prog| && BranchesInside(prog, start, end)
    ensures IsFuncGraph(prog, ViewOf(start, end, nodes, vals))
  {
    var g := ViewOf(start, end, nodes, vals);
    BlocksView(prog, start, end, nodes, vals);
    forall i | 1 <= i <= g.Last()
      ensures 0 <= g.blocks[i].tail < |prog| && EdgesOk(prog, g, i)
    {
      TailsInside(prog, start, end, vals, i);
      assert NodeEdgesOk(prog, nodes, vals, i);
      if IsBranch(prog[vals[i].tail]) {
        assert MakesHead(prog, vals[i].tail, Target(prog, vals[i].tail));
      }
      EdgesAt(prog, g, nodes, vals, i);
    }
    var last := |vals| - 1;
    IdxOfNode(nodes, vals, 0);
    IdxOfNode(nodes, vals, 1);
    IdxOfNode(nodes, vals, last - 1);
    IdxOfNode(nodes, vals, last);
  }

  // ---------- The passes ----------

  // Instruction `cur` adds the heads it makes, and no others.
  lemma HeadsGrow(prog: Program, start: int, cur: int)
    requires start <= cur
    ensures forall h :: IsHead(prog, start, cur, h) <==> IsHead(prog, start, cur - 1, h) || MakesHead(prog, cur, h)
  {
  }

  class FuncNode {
    var bbs: seq<BbNode>
    var start: int
    var end: int
    var idx: int
    var bbNum: int

    constructor (start: int, idx: int)
      ensures this.start == start && this.idx == idx && bbs == []
    {
      this.start, this.idx := start, idx;
      bbs, end, bbNum := [], NO_INSN, 0;
    }

    ghost function Heads(): (s: seq<int>)
      reads this, bbs
      ensures |s| == |bbs| && forall i :: 0 <= i < |s| ==> s[i] == bbs[i].head
    {
      seq(|bbs|, i requires 0 <= i < |bbs| reads this, bbs => bbs[i].head)
    }

    /** Inserts a block that begins at `insn`, keeping the list sorted, unless there is one. */
    method AppendBb(insn: int) returns (bb: BbNode)
      requires StrictlyIncreasing(Heads())
      modifies `bbs
      ensures StrictlyIncreasing(Heads())
      ensures bb in bbs && bb.head == insn
      ensures forall h :: h in Heads() <==> h in old(Heads()) || h == insn
      ensures forall b :: b in bbs ==> b in old(bbs) || (fresh(b) && b.succs == [] && b.prevs == [])
    {
      var i := 0;
      while i < |bbs|
        invariant 0 <= i <= |bbs|
        invariant forall j :: 0 <= j < i ==> bbs[j].head < insn
      {
        if bbs[i].head == insn {
          return bbs[i];
        } else if bbs[i].head > insn {
          break;
        }
        i := i + 1;
      }
      bb := InsertBbAt(i, insn);
    }

    // A new node at position `i` of the list.
    method InsertBbAt(i: int, insn: int) returns (bb: BbNode)
      requires StrictlyIncreasing(Heads()) && 0 <= i <= |bbs|
      requires forall j :: 0 <= j < i ==> bbs[j].head < insn
      requires i < |bbs| ==> insn < bbs[i].head
      modifies `bbs
      ensures StrictlyIncreasing(Heads())
      ensures bb.head == insn && fresh(bb) && bb.succs == [] && bb.prevs == []
      ensures bbs == old(bbs)[..i] + [bb] + old(bbs)[i..]
      ensures forall h :: h in Heads() <==> h in old(Heads()) || h == insn
    {
      bb := new BbNode(insn);
      InsertSorted(Heads(), i, insn);
      bbs := bbs[..i] + [bb] + bbs[i..];
      assert Heads() == old(Heads())[..i] + [insn] + old(Heads())[i..];
    }

    /** First pass: a block head for the function, every branch target and every instruction after
        a conditional branch. */
    method PartitionBbHead(prog: Program)
      requires 0 <= start <= end < |prog|
      modifies `bbs
      ensures StrictlyIncreasing(Heads()) && |bbs| >= 1
      ensures forall h :: h in Heads() <==> IsHead(prog, start, end, h)
      ensures forall b :: b in bbs ==> fresh(b) && b.succs == [] && b.prevs == []
    {
      bbs := [];
      var cur := start;
      var bb := AppendBb(cur);
      while cur <= end
        invariant start <= cur <= end + 1
        invariant StrictlyIncreasing(Heads()) && |bbs| >= 1
        invariant forall h :: h in Heads() <==> IsHead(prog, start, cur - 1, h)
        invariant forall b :: b in bbs ==> fresh(b) && b.succs == [] && b.prevs == []
      {
        var insn := prog[cur];
        HeadsGrow(prog, start, cur);
        if IsJmpInsn(insn.code) && Op(insn.code) != BPF_EXIT && Op(insn.code) != BPF_CALL {
          bb := AppendBb(cur + insn.off + 1);
          if Op(insn.code) != BPF_JA {
            bb := AppendBb(cur + 1);
          }
        }
        cur := cur + 1;
      }
    }

    // Blocks with different heads are different nodes.
    lemma SortedDistinct()
      requires StrictlyIncreasing(Heads())
      ensures forall i, j :: 0 <= i < j < |bbs| ==> bbs[i] != bbs[j]
    {
      assert forall i, j :: 0 <= i < j < |bbs| ==> Heads()[i] < Heads()[j];
    }

    /** Second pass: a block ends where the next one begins, the last where the function ends; and
        blocks are numbered in order, after the two fixed ones. */
    method PartitionBbTail()
      requires |bbs| >= 1
      requires forall i, j :: 0 <= i < j < |bbs| ==> bbs[i] != bbs[j]
      modifies `bbNum, bbs`tail, bbs`idx
      ensures forall i {:trigger bbs[i].tail} :: 0 <= i < |bbs| ==>
                bbs[i].tail == if i + 1 < |bbs| then bbs[i + 1].head - 1 else end
      ensures forall i {:trigger bbs[i].idx} :: 0 <= i < |bbs| ==> bbs[i].idx == NUM_FIXED_BLOCKS + i
      ensures bbNum == NUM_FIXED_BLOCKS + |bbs|
    {
      var bbIdx := NUM_FIXED_BLOCKS;
      var last := bbs[|bbs| - 1];
      last.tail := end;
      var i := 0;
      while i < |bbs| - 1
        invariant 0 <= i < |bbs| && bbIdx == NUM_FIXED_BLOCKS + i
        invariant forall k {:trigger bbs[k].tail} :: 0 <= k < i ==> bbs[k].tail == bbs[k + 1].head - 1
        invariant last.tail == end
        invariant forall k {:trigger bbs[k].idx} :: 0 <= k < i ==> bbs[k].idx == NUM_FIXED_BLOCKS + k
      {
        var bb := bbs[i];
        bb.tail := bbs[i + 1].head - 1;
        bb.idx := bbIdx;
        bbIdx := bbIdx + 1;
        i := i + 1;
      }
      last.idx := bbIdx;
      bbIdx := bbIdx + 1;
      bbNum := bbIdx;
    }

    /** Third step: ENTRY before the first block and EXIT after the last. */
    method AddSpecialBb()
      requires |bbs| >= 1 && Distinct(bbs)
      modifies `bbs
      ensures |bbs| == |old(bbs)| + 2 && Distinct(bbs) && forall b :: b in bbs ==> b in old(bbs) || fresh(b)
      ensures Vals() == [Special(ENTRY_BLOCK_INDEX)] + old(Vals()) + [Special(EXIT_BLOCK_INDEX)]
    {
      var entry := new BbNode(NO_INSN);
      entry.idx := ENTRY_BLOCK_INDEX;
      bbs := [entry] + bbs;
      var exit := new BbNode(NO_INSN);
      exit.idx := EXIT_BLOCK_INDEX;
      bbs := bbs + [exit];
    }

    method SearchBbWithHead(insn: int) returns (bb: BbNode?)
      ensures bb == null ==> forall b :: b in bbs ==> b.head != insn
      ensures bb != null ==> bb in bbs && bb.head == insn
    {
      var i := 0;
      while i < |bbs|
        invariant 0 <= i <= |bbs|
        invariant forall j :: 0 <= j < i ==> bbs[j].head != insn
      {
        if bbs[i].head == insn {
          return bbs[i];
        }
        i := i + 1;
      }
      return null;
    }

    ghost function Vals(): (v: seq<NodeVal>)
      reads this, bbs
      ensures |v| == |bbs|
      ensures forall i :: 0 <= i < |v| ==>
                v[i] == NodeVal(bbs[i].head, bbs[i].tail, bbs[i].idx, bbs[i].succs, bbs[i].prevs)
    {
      seq(|bbs|, i requires 0 <= i < |bbs| reads this, bbs =>
        NodeVal(bbs[i].head, bbs[i].tail, bbs[i].idx, bbs[i].succs, bbs[i].prevs))
    }

    // The right edges out of block `i`; reads nothing but heads and tails.
    ghost predicate RightEdges(prog: Program, i: int, succs: seq<Edge>)
      requires 1 <= i < |bbs| - 1
      reads `bbs, bbs`head, bbs`tail
    {
      var bb := bbs[i];
      var through := Edge(bb, bbs[i + 1], EDGE_FLAG_FALLTHROUGH);
      && 0 <= bb.tail < |prog|
      && if IsUnconditional(prog[bb.tail]) then
           |succs| == 1 && JumpsToHead(bb, succs[0], Target(prog, bb.tail))
         else if IsConditional(prog[bb.tail]) then
           |succs| == 2 && succs[0] == through && JumpsToHead(bb, succs[1], Target(prog, bb.tail))
         else
           succs == [through]
    }

    ghost predicate JumpsToHead(bb: BbNode, e: Edge, h: int)
      reads `bbs, bbs`head
    {
      && e.src == bb && e.flags == EDGE_FLAG_JUMP
      && exists k :: 0 <= k < |bbs| && e.dst == bbs[k] && bbs[k].head == h
    }

    /** The body of the last pass: the edges out of block `i`.  Every jump finds its block. */
    method AddEdgesOf(prog: Program, i: int)
      requires 1 <= i < |bbs| - 1
      requires bbs[i].succs == [] && 0 <= bbs[i].tail < |prog|
      requires IsBranch(prog[bbs[i].tail]) ==> exists b :: b in bbs && b.head == Target(prog, bbs[i].tail)
      modifies {bbs[i]}`succs
      ensures RightEdges(prog, i, bbs[i].succs)
    {
      var bb := bbs[i];
      var insn := prog[bb.tail];
      if !IsJmpInsn(insn.code) || Op(insn.code) == BPF_CALL || Op(insn.code) == BPF_EXIT {
        bb.succs := bb.succs + [Edge(bb, bbs[i + 1], EDGE_FLAG_FALLTHROUGH)];
      } else if Op(insn.code) == BPF_JA {
        var dst := SearchBbWithHead(bb.tail + insn.off + 1);
        bb.succs := bb.succs + [Edge(bb, dst, EDGE_FLAG_JUMP)];
      } else {
        bb.succs := bb.succs + [Edge(bb, bbs[i + 1], EDGE_FLAG_FALLTHROUGH)];
        var dst := SearchBbWithHead(bb.tail + insn.off + 1);
        bb.succs := bb.succs + [Edge(bb, dst, EDGE_FLAG_JUMP)];
      }
    }

    // Every branch that ends a block goes to the head of a block.
    ghost predicate TargetsExist(prog: Program)
      requires |bbs| >= 2
      reads `bbs, bbs`head, bbs`tail
    {
      forall i {:trigger bbs[i].tail} :: 1 <= i < |bbs| - 1 ==>
        && 0 <= bbs[i].tail < |prog|
        && (IsBranch(prog[bbs[i].tail]) ==> exists b :: b in bbs && b.head == Target(prog, bbs[i].tail))
    }

    /** Last pass, first part: the edge out of ENTRY and the edge into EXIT. */
    method AddFixedEdges()
      requires |bbs| >= 3 && bbs[0] != bbs[|bbs| - 1]
      requires bbs[0].succs == [] && bbs[|bbs| - 1].prevs == []
      modifies {bbs[0]}`succs, {bbs[|bbs| - 1]}`prevs
      ensures bbs[0].succs == [Edge(bbs[0], bbs[1], EDGE_FLAG_FALLTHROUGH)]
      ensures bbs[|bbs| - 1].prevs == [Edge(bbs[|bbs| - 2], bbs[|bbs| - 1], EDGE_FLAG_FALLTHROUGH)]
    {
      var entry := bbs[0];
      entry.succs := entry.succs + [Edge(entry, bbs[1], EDGE_FLAG_FALLTHROUGH)];
      var exit := bbs[|bbs| - 1];
      exit.prevs := exit.prevs + [Edge(bbs[|bbs| - 2], exit, EDGE_FLAG_FALLTHROUGH)];
    }

    /** Last pass, second part: the edges out of every block between ENTRY and EXIT. */
    method AddBbEdges(prog: Program)
      requires |bbs| >= 3
      requires forall i, j :: 0 <= i < j < |bbs| ==> bbs[i] != bbs[j]
      requires forall i :: 1 <= i < |bbs| ==> bbs[i].succs == []
      requires TargetsExist(prog)
      modifies bbs[1..|bbs| - 1]`succs
      ensures forall i {:trigger RightEdges(prog, i, bbs[i].succs)} :: 1 <= i < |bbs| - 1 ==> RightEdges(prog, i, bbs[i].succs)
    {
      var i := 1;
      while i < |bbs| - 1
        invariant 1 <= i < |bbs|
        invariant forall k {:trigger RightEdges(prog, k, bbs[k].succs)} :: 1 <= k < i ==> RightEdges(prog, k, bbs[k].succs)
        invariant forall k :: i <= k < |bbs| - 1 ==> bbs[k].succs == []
      {
        assert bbs[i] in bbs[1..|bbs| - 1];
        AddEdgesOf(prog, i);
        i := i + 1;
      }
    }

    // ---------- The finished function ----------

    /** The function as a value. */
    ghost function View(): FuncView
      reads this, bbs
    {
      ViewOf(start, end, bbs, Vals())
    }

    // The view depends on nothing but the node and its blocks.
    twostate lemma ViewKept()
      requires unchanged(this) && forall b :: b in bbs ==> unchanged(b)
      ensures View() == old(View())
    {
      forall i | 0 <= i < |bbs|
        ensures Vals()[i] == old(Vals()[i])
      {
        assert bbs[i] in bbs;
      }
      assert Vals() == old(Vals());
    }

    /** Heads, then tails and numbers. */
    method PartitionBb(prog: Program)
      requires 0 <= start <= end < |prog|
      modifies `bbs, `bbNum
      ensures Distinct(bbs) && forall i :: 0 <= i < |bbs| ==> fresh(bbs[i])
      ensures Partitioned(prog, start, end, Vals())
      ensures bbNum == NUM_FIXED_BLOCKS + |bbs|
    {
      PartitionBbHead(prog);
      SortedDistinct();
      ghost var heads := Heads();
      forall i | 0 <= i < |bbs|
        ensures fresh(bbs[i]) && bbs[i].succs == [] && bbs[i].prevs == []
      {
        assert bbs[i] in bbs;
      }
      PartitionBbTail();
      ghost var vals := Vals();
      forall i | 0 <= i < |heads|
        ensures vals[i] == Cut(heads, end, i)
      {
        assert bbs[i].head == heads[i] && bbs[i].idx == NUM_FIXED_BLOCKS + i;
        assert i + 1 < |bbs| ==> bbs[i + 1].head == heads[i + 1];
        assert bbs[i].tail == if i + 1 < |bbs| then bbs[i + 1].head - 1 else end;
      }
      CutIsPartitioned(prog, start, end, heads, vals);
    }

    lemma BuiltTargetsExist(prog: Program)
      requires BlocksBuilt(prog, start, end, Vals())
      requires 0 <= start <= end < |prog| && BranchesInside(prog, start, end)
      ensures |bbs| >= 3 && TargetsExist(prog)
    {
      var vals := Vals();
      forall i | 1 <= i < |bbs| - 1
        ensures 0 <= bbs[i].tail < |prog|
        ensures IsBranch(prog[bbs[i].tail]) ==> exists b :: b in bbs && b.head == Target(prog, bbs[i].tail)
      {
        TailsInside(prog, start, end, vals, i);
        if IsBranch(prog[bbs[i].tail]) {
          var h := Target(prog, bbs[i].tail);
          assert MakesHead(prog, bbs[i].tail, h);
          assert IsHead(prog, start, end, h);
          var k :| 1 <= k < |vals| - 1 && vals[k].head == h;
          assert bbs[k] in bbs;
        }
      }
    }

    // Distinct nodes that carry no edges yet.
    ghost predicate Bare()
      reads `bbs, bbs`succs, bbs`prevs
    {
      && |bbs| >= 3 && Distinct(bbs)
      && (forall i :: 0 <= i < |bbs| ==> bbs[i].succs == [] && bbs[i].prevs == [])
    }

    /** Everything up to the edges. */
    method BuildBlocks(prog: Program)
      requires 0 <= start <= end < |prog|
      modifies `bbs, `bbNum
      ensures forall i :: 0 <= i < |bbs| ==> fresh(bbs[i])
      ensures BlocksBuilt(prog, start, end, Vals()) && Bare()
      ensures bbNum == |bbs|
    {
      PartitionBb(prog);
      PartitionedIsBuilt(prog, start, end, Vals());
      AddSpecialBb();
      assert forall i :: 0 <= i < |bbs| ==> bbs[i] in bbs && Vals()[i].succs == [] && Vals()[i].prevs == [];
    }

    /** The edges. */
    method AddEdges(prog: Program)
      requires Bare() && TargetsExist(prog)
      modifies bbs`succs, bbs`prevs
      ensures EdgesBuilt(prog, bbs, Vals())
      ensures SameBlocks(old(Vals()), Vals())
    {
      AddFixedEdges();
      AddBbEdges(prog);
      EdgesAreBuilt(prog);
    }

    lemma EdgesAreBuilt(prog: Program)
      requires |bbs| >= 3
      requires bbs[0].succs == [Edge(bbs[0], bbs[1], EDGE_FLAG_FALLTHROUGH)]
      requires bbs[|bbs| - 1].prevs == [Edge(bbs[|bbs| - 2], bbs[|bbs| - 1], EDGE_FLAG_FALLTHROUGH)]
      requires forall i {:trigger RightEdges(prog, i, bbs[i].succs)} :: 1 <= i < |bbs| - 1 ==> RightEdges(prog, i, bbs[i].succs)
      ensures EdgesBuilt(prog, bbs, Vals())
    {
      forall i | 1 <= i < |bbs| - 1
        ensures NodeEdgesOk(prog, bbs, Vals(), i)
      {
        assert RightEdges(prog, i, bbs[i].succs);
        forall e, h | JumpsToHead(bbs[i], e, h)
          ensures NodeJumpsTo(bbs, Vals(), i, e, h)
        {
          var k :| 0 <= k < |bbs| && e.dst == bbs[k] && bbs[k].head == h;
          assert Vals()[k].head == h;
        }
      }
    }

    /** Blocks, special blocks and edges of one function (the body of the loop in cfg_build). */
    method Build(prog: Program)
      requires 0 <= start <= end < |prog| && BranchesInside(prog, start, end)
      modifies `bbs, `bbNum
      ensures forall i :: 0 <= i < |bbs| ==> fresh(bbs[i])
      ensures IsFuncGraph(prog, View())
      ensures bbNum == |bbs|
    {
      BuildBlocks(prog);
      BuiltTargetsExist(prog);
      ghost var was := Vals();
      AddEdges(prog);
      BuiltUnchanged(prog, start, end, was, Vals());
      BuiltIsGraph(prog, start, end, bbs, Vals());
    }
  }

  // Nothing but edges has changed.
  ghost predicate SameBlocks(was: seq<NodeVal>, now: seq<NodeVal>) {
    && |was| == |now|
    && forall i :: 0 <= i < |was| ==> now[i] == was[i].(succs := now[i].succs, prevs := now[i].prevs)
  }

  lemma BuiltUnchanged(prog: Program, start: int, end: int, was: seq<NodeVal>, now: seq<NodeVal>)
    requires BlocksBuilt(prog, start, end, was) && SameBlocks(was, now)
    ensures BlocksBuilt(prog, start, end, now)
  {
    forall h
      ensures HeadIn(was, h) <==> HeadIn(now, h)
    {
      if i :| 1 <= i < |was| - 1 && was[i].head == h {
        assert now[i].head == h;
      }
    }
  }

  class CfgGraph {
    var funcs: seq<FuncNode>
    var funcNum: nat

    constructor ()
      ensures funcs == [] && funcNum == 0
    {
      funcs, funcNum := [], 0;
    }

    ghost function Headers(): (s: seq<Header>)
      reads this, funcs
      ensures |s| == |funcs| && forall i :: 0 <= i < |s| ==> s[i] == Header(funcs[i].start, funcs[i].idx)
    {
      seq(|funcs|, i requires 0 <= i < |funcs| reads this, funcs => Header(funcs[i].start, funcs[i].idx))
    }

    ghost function Extents(): (s: seq<Extent>)
      reads this, funcs
      ensures |s| == |funcs| && forall i :: 0 <= i < |s| ==> s[i] == Extent(funcs[i].start, funcs[i].end)
    {
      seq(|funcs|, i requires 0 <= i < |funcs| reads this, funcs => Extent(funcs[i].start, funcs[i].end))
    }

    ghost predicate Valid()
      reads this, funcs
    {
      HeadersOk(Headers()) && funcNum == |funcs|
    }

    /** Inserts a function that starts at `insn`, keeping the list sorted, unless there is one. */
    method AppendFunc(insn: int) returns (func: FuncNode)
      requires Valid()
      modifies this
      ensures Valid() && |funcs| >= 1
      ensures forall p :: StartIn(Headers(), p) <==> StartIn(old(Headers()), p) || p == insn
      ensures forall i :: 0 <= i < |funcs| ==> funcs[i] in old(funcs) || fresh(funcs[i])
      ensures func in funcs && func.start == insn
    {
      var i := 0;
      while i < |funcs|
        invariant 0 <= i <= |funcs|
        invariant forall j :: 0 <= j < i ==> funcs[j].start < insn
      {
        if funcs[i].start == insn {
          return funcs[i];
        } else if funcs[i].start > insn {
          break;
        }
        i := i + 1;
      }
      func := InsertFuncAt(i, insn);
    }

    // A new function node, numbered next, at position `i` of the list.
    method InsertFuncAt(i: int, insn: int) returns (func: FuncNode)
      requires Valid() && 0 <= i <= |funcs|
      requires forall j :: 0 <= j < i ==> funcs[j].start < insn
      requires i < |funcs| ==> insn < funcs[i].start
      modifies this
      ensures Valid()
      ensures funcs == old(funcs)[..i] + [func] + old(funcs)[i..] && fresh(func)
      ensures func.start == insn && func.idx == old(funcNum)
      ensures forall p :: StartIn(Headers(), p) <==> StartIn(old(Headers()), p) || p == insn
    {
      ghost var was := Headers();
      func := new FuncNode(insn, funcNum);
      InsertHeader(was, i, insn);
      funcs := funcs[..i] + [func] + funcs[i..];
      funcNum := funcNum + 1;
      assert Headers() == Inserted(was, i, insn);
    }

    /** Finds the functions: one at the start of the program and one at every pseudo-call target. */
    method FindFuncs(prog: Program)
      requires funcs == [] && funcNum == 0
      modifies this
      ensures Valid() && |funcs| >= 1
      ensures forall p :: StartIn(Headers(), p) <==> StartsBefore(prog, |prog|, p)
      ensures forall i :: 0 <= i < |funcs| ==> fresh(funcs[i])
    {
      var cur := 0;
      var func := AppendFunc(cur);
      while cur < |prog|
        invariant 0 <= cur <= |prog|
        invariant Valid() && |funcs| >= 1
        invariant forall p :: StartIn(Headers(), p) <==> StartsBefore(prog, cur, p)
        invariant forall i :: 0 <= i < |funcs| ==> fresh(funcs[i])
      {
        var insn := prog[cur];
        StartsGrow(prog, cur);
        if insn.code == (BPF_JMP | BPF_CALL) && insn.srcReg == BPF_PSEUDO_CALL {
          assert CallsAt(prog, cur, cur + insn.off + 1);
          func := AppendFunc(cur + insn.off + 1);
        }
        cur := cur + 1;
      }
    }

    /** Ends every function where the next one begins. */
    method CloseFuncs(end: int)
      requires |funcs| >= 1 && forall i, j :: 0 <= i < j < |funcs| ==> funcs[i] != funcs[j]
      modifies funcs`end
      ensures forall i {:trigger funcs[i].end} :: 0 <= i < |funcs| ==>
                funcs[i].end == if i + 1 < |funcs| then funcs[i + 1].start - 1 else end - 1
    {
      var last := funcs[|funcs| - 1];
      last.end := end - 1;
      var i := 0;
      while i < |funcs| - 1
        invariant 0 <= i < |funcs|
        invariant last.end == end - 1
        invariant forall k {:trigger funcs[k].end} :: 0 <= k < i ==> funcs[k].end == funcs[k + 1].start - 1
      {
        funcs[i].end := funcs[i + 1].start - 1;
        i := i + 1;
      }
    }

    lemma ValidDistinct()
      requires Valid()
      ensures forall i, j :: 0 <= i < j < |funcs| ==> funcs[i] != funcs[j]
    {
      assert forall i, j :: 0 <= i < j < |funcs| ==> Headers()[i].start < Headers()[j].start;
    }

    /** The functions of the program, from first instruction to last. */
    method PartitionFuncs(prog: Program)
      requires |prog| >= 1 && funcs == [] && funcNum == 0
      modifies this
      ensures Valid() && IsProgramSplit(prog, Extents())
      ensures forall i :: 0 <= i < |funcs| ==> fresh(funcs[i])
    {
      FindFuncs(prog);
      ghost var headers := Headers();
      ValidDistinct();
      CloseFuncs(|prog|);
      assert Headers() == headers;
      SplitOfHeaders(prog, headers, Extents());
    }

    /** The whole builder: the functions split the program, and each carries its graph. */
    method BuildCfg(prog: Program)
      requires LocalJumps(prog)
      modifies this
      ensures Valid() && IsProgramSplit(prog, Extents())
      ensures forall i :: 0 <= i < |funcs| ==> IsFuncGraph(prog, funcs[i].View())
    {
      funcs, funcNum := [], 0;
      PartitionFuncs(prog);
      ValidDistinct();
      BuildAll(prog);
    }

    // Building the graphs leaves the functions where they are.
    method BuildAll(prog: Program)
      requires LocalJumps(prog) && IsProgramSplit(prog, Extents())
      requires forall j, k :: 0 <= j < k < |funcs| ==> funcs[j] != funcs[k]
      modifies funcs`bbs, funcs`bbNum
      ensures Headers() == old(Headers()) && Extents() == old(Extents())
      ensures forall i :: 0 <= i < |funcs| ==> IsFuncGraph(prog, funcs[i].View())
    {
      BuildFuncs(prog);
      assert Headers() == old(Headers());
      assert Extents() == old(Extents());
    }

    // The loop over the functions.
    method BuildFuncs(prog: Program)
      requires LocalJumps(prog) && IsProgramSplit(prog, Extents())
      requires forall j, k :: 0 <= j < k < |funcs| ==> funcs[j] != funcs[k]
      modifies funcs`bbs, funcs`bbNum
      ensures forall i :: 0 <= i < |funcs| ==> IsFuncGraph(prog, funcs[i].View())
    {
      ghost var extents := Extents();
      var i := 0;
      while i < |funcs|
        invariant 0 <= i <= |funcs|
        invariant forall k :: 0 <= k < i ==> IsFuncGraph(prog, funcs[k].View())
      {
        LocalJumpsStayInside(prog, extents, i);
        assert funcs[i] in funcs;
        BuildNext(prog, i);
        i := i + 1;
      }
    }

    // One round of the loop: the graphs built so far are left alone.
    method BuildNext(prog: Program, i: int)
      requires 0 <= i < |funcs| && forall k :: 0 <= k < i ==> funcs[k] != funcs[i]
      requires 0 <= funcs[i].start <= funcs[i].end < |prog| && BranchesInside(prog, funcs[i].start, funcs[i].end)
      requires forall k :: 0 <= k < i ==> IsFuncGraph(prog, funcs[k].View())
      modifies {funcs[i]}`bbs, {funcs[i]}`bbNum
      ensures forall k :: 0 <= k <= i ==> IsFuncGraph(prog, funcs[k].View())
    {
      funcs[i].Build(prog);
      forall k | 0 <= k < i
        ensures IsFuncGraph(prog, funcs[k].View())
      {
        funcs[k].ViewKept();
      }
    }
  }

  datatype Header = Header(start: int, idx: int)

  // Sorted by start; numbered 0 .. |s| - 1, each number once, in any order.
  ghost predicate HeadersOk(s: seq<Header>) {
    && (forall i, j :: 0 <= i < j < |s| ==> s[i].start < s[j].start)
    && (forall i :: 0 <= i < |s| ==> 0 <= s[i].idx < |s|)
    && (forall i, j :: 0 <= i < j < |s| ==> s[i].idx != s[j].idx)
  }

  ghost predicate StartIn(s: seq<Header>, p: int) {
    exists i :: 0 <= i < |s| && s[i].start == p
  }

  function Inserted(s: seq<Header>, i: nat, p: int): (t: seq<Header>)
    requires i <= |s|
    ensures |t| == |s| + 1
    ensures forall j :: 0 <= j < |t| ==> t[j] == if j < i then s[j] else if j == i then Header(p, |s|) else s[j - 1]
  {
    s[..i] + [Header(p, |s|)] + s[i..]
  }

  lemma InsertedStarts(s: seq<Header>, i: nat, p: int)
    requires i <= |s|
    ensures forall q :: StartIn(Inserted(s, i, p), q) <==> StartIn(s, q) || q == p
  {
    var t := Inserted(s, i, p);
    assert t[i].start == p;
    forall q | StartIn(s, q)
      ensures StartIn(t, q)
    {
      var j :| 0 <= j < |s| && s[j].start == q;
      assert t[if j < i then j else j + 1] == s[j];
    }
  }

  lemma InsertHeader(s: seq<Header>, i: nat, p: int)
    requires HeadersOk(s) && i <= |s|
    requires forall j :: 0 <= j < i ==> s[j].start < p
    requires i < |s| ==> p < s[i].start
    ensures HeadersOk(Inserted(s, i, p))
    ensures forall q :: StartIn(Inserted(s, i, p), q) <==> StartIn(s, q) || q == p
  {
    InsertedStarts(s, i, p);
  }

  // Position `p` starts a function because of the program start or a call before `cur`.
  ghost predicate StartsBefore(prog: Program, cur: int, p: int) {
    p == 0 || exists pc :: pc < cur && CallsAt(prog, pc, p)
  }

  lemma StartsGrow(prog: Program, cur: int)
    ensures forall p :: StartsBefore(prog, cur + 1, p) <==> StartsBefore(prog, cur, p) || CallsAt(prog, cur, p)
  {
  }

  lemma SplitOfHeaders(prog: Program, headers: seq<Header>, extents: seq<Extent>)
    requires |headers| == |extents| >= 1 && HeadersOk(headers)
    requires forall i :: 0 <= i < |headers| ==> extents[i].start == headers[i].start
    requires forall i {:trigger extents[i].end} :: 0 <= i < |extents| ==>
               extents[i].end == if i + 1 < |extents| then extents[i + 1].start - 1 else |prog| - 1
    requires forall p :: StartIn(headers, p) <==> StartsBefore(prog, |prog|, p)
    ensures IsProgramSplit(prog, extents)
  {
    forall p
      ensures IsFuncStart(prog, p) <==> exists i :: 0 <= i < |extents| && extents[i].start == p
    {
      assert IsFuncStart(prog, p) <==> StartIn(headers, p);
      if StartIn(headers, p) {
        var i :| 0 <= i < |headers| && headers[i].start == p;
        assert extents[i].start == p;
      }
      if i :| 0 <= i < |extents| && extents[i].start == p {
        assert headers[i].start == p;
      }
    }
  }
}
