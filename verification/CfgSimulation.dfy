/** The graph over-approximates execution: every run inside a function is a walk through its
    graph.  The builder splits blocks only where its reading of the branches tells it to, so this
    holds under a condition on the program, which is shown to be exactly the one needed. */
module CfgSimulation {
  import opened CfgSpec

  // The first slot of an instruction (the second slot of a wide load is not executed).
  predicate IsInsnAt(prog: Program, g: FuncView, pc: int) {
    g.start <= pc <= g.end < |prog| && 0 <= g.start && !(pc > g.start && IsWide(prog[pc - 1]))
  }

  // The last slot of the instruction at `pc`.
  function InsnEnd(prog: Program, pc: int): int
    requires 0 <= pc < |prog|
  {
    if IsWide(prog[pc]) then pc + 1 else pc
  }

  /** Wide loads are whole: their second slot is in the function, carries opcode 0 and is not
      jumped to.  The kernel verifier rejects programs for which this fails. */
  ghost predicate WideLoadsOk(prog: Program, g: FuncView) {
    forall pc :: 0 <= pc < |prog| && g.start <= pc <= g.end && IsWide(prog[pc]) ==>
      pc + 1 <= g.end && pc + 1 < |prog| && prog[pc + 1].code == 0 && !IsHead(prog, g.start, g.end, pc + 1)
  }

  ghost predicate HasEdge(g: FuncView, i: int, dst: int) {
    0 <= i < |g.blocks| && exists e :: e in g.blocks[i].succs && e.dst == dst
  }

  // Control is in block `i` at `pc` and moves on to the next instruction of the same block.
  ghost predicate StaysInBlock(prog: Program, g: FuncView, i: int, pc: int, next: int)
    requires 0 <= pc < |prog|
  {
    !IsBranch(prog[pc]) && InBlock(g, i, pc) && next == InsnEnd(prog, pc) + 1 && InBlock(g, i, next)
  }

  // Control is at the end of block `i` and follows an edge to the head of block `k`.
  ghost predicate TakesEdge(prog: Program, g: FuncView, i: int, k: int, pc: int, next: int)
    requires 0 <= pc < |prog|
  {
    && InBlock(g, i, pc) && InsnEnd(prog, pc) == g.blocks[i].tail
    && InBlock(g, k, next) && next == g.blocks[k].head
    && HasEdge(g, i, g.blocks[k].idx)
  }

  ghost predicate StepFollowsGraph(prog: Program, g: FuncView, pc: int, next: int)
    requires 0 <= pc < |prog|
  {
    || (exists i :: StaysInBlock(prog, g, i, pc, next))
    || (exists i, k :: TakesEdge(prog, g, i, k, pc, next))
  }

  /** Every step of execution inside the function stays in a block or follows an edge. */
  ghost predicate Simulates(prog: Program, g: FuncView) {
    forall pc, next :: IsInsnAt(prog, g, pc) && next in Successors(prog, pc) && g.start <= next <= g.end ==>
      StepFollowsGraph(prog, g, pc, next)
  }

  // Where an unconditional jump really goes.
  function JumpDest(prog: Program, pc: int): int
    requires 0 <= pc < |prog|
  {
    if Class(prog[pc].code) == BPF_JMP then pc + prog[pc].off + 1 else pc + prog[pc].imm + 1
  }

  /** A caller can check this on the program: no dead code follows an unconditional jump (what
      follows is a block head or another function), and the offset the builder reads is where the
      jump goes, which excludes 32-bit-immediate jumps whose two fields disagree. */
  ghost predicate JumpsVisible(prog: Program, g: FuncView) {
    forall pc | 0 <= pc < |prog| && g.start <= pc <= g.end && IsUnconditional(prog[pc])
                && g.start <= JumpDest(prog, pc) <= g.end ::
      (pc == g.end || IsHead(prog, g.start, g.end, pc + 1)) && JumpDest(prog, pc) == Target(prog, pc)
  }

  // ---------- One step ----------

  // Execution in the builder's terms.
  lemma SuccessorsByKind(prog: Program, pc: int)
    requires 0 <= pc < |prog|
    ensures if IsConditional(prog[pc]) then Successors(prog, pc) == {pc + 1, Target(prog, pc)}
            else if IsUnconditional(prog[pc]) then Successors(prog, pc) == {JumpDest(prog, pc)}
            else Successors(prog, pc) <= {InsnEnd(prog, pc) + 1}
    ensures IsBranch(prog[pc]) ==> IsConditional(prog[pc]) || IsUnconditional(prog[pc])
  {
    OpcodeTests(prog[pc]);
    ByteParts(prog[pc].code);
  }

  lemma HeadStartsItsBlock(prog: Program, g: FuncView, h: int) returns (k: int)
    requires IsFuncGraph(prog, g) && BranchesInside(prog, g.start, g.end)
    requires IsHead(prog, g.start, g.end, h)
    ensures InBlock(g, k, h) && g.blocks[k].head == h
    ensures forall i :: InBlock(g, i, h) ==> i == k
  {
    FirstBlockAtStart(prog, g);
    assert HeadsBlock(g, h);
    k :| 1 <= k <= g.Last() && g.blocks[k].head == h;
    var b := BlocksPartitionFunction(prog, g, h);
    assert InBlock(g, k, h);
  }

  // A position whose successor is a head ends its block.
  lemma TailBeforeHead(prog: Program, g: FuncView, i: int, pc: int)
    requires IsFuncGraph(prog, g) && BranchesInside(prog, g.start, g.end)
    requires InBlock(g, i, pc)
    ensures (pc == g.end || IsHead(prog, g.start, g.end, pc + 1)) <==> pc == g.blocks[i].tail
  {
    FirstBlockAtStart(prog, g);
    if pc < g.end && IsHead(prog, g.start, g.end, pc + 1) && pc < g.blocks[i].tail {
      var k := HeadStartsItsBlock(prog, g, pc + 1);
      assert InBlock(g, i, pc + 1);
    }
    if pc == g.blocks[i].tail && i < g.Last() {
      assert HeadsBlock(g, g.blocks[i + 1].head);
    }
  }

  // Straight-line flow: to the next instruction of the block, or down the fall-through edge.
  lemma FallThroughFollows(prog: Program, g: FuncView, i: int, pc: int)
    requires IsFuncGraph(prog, g) && BranchesInside(prog, g.start, g.end) && WideLoadsOk(prog, g)
    requires InBlock(g, i, pc)
    requires 0 <= pc < |prog|
    requires !IsBranch(prog[pc])
    requires InsnEnd(prog, pc) + 1 <= g.end
    ensures StepFollowsGraph(prog, g, pc, InsnEnd(prog, pc) + 1)
  {
    FirstBlockAtStart(prog, g);
    var last := InsnEnd(prog, pc);
    TailBeforeHead(prog, g, i, pc);
    assert InBlock(g, i, last);
    if last < g.blocks[i].tail {
      assert StaysInBlock(prog, g, i, pc, last + 1);
    } else {
      assert !IsBranch(prog[last]);
      assert EdgesOk(prog, g, i);
      var e := FallThrough(g, i);
      assert e in g.blocks[i].succs;
      assert HasEdge(g, i, g.blocks[i + 1].idx);
      assert TakesEdge(prog, g, i, i + 1, pc, last + 1);
    }
  }

  lemma ConditionalFollows(prog: Program, g: FuncView, i: int, pc: int, next: int)
    requires IsFuncGraph(prog, g) && BranchesInside(prog, g.start, g.end)
    requires 0 <= pc < |prog|
    requires InBlock(g, i, pc) && IsConditional(prog[pc])
    requires next == pc + 1 || next == Target(prog, pc)
    ensures StepFollowsGraph(prog, g, pc, next)
  {
    FirstBlockAtStart(prog, g);
    assert MakesHead(prog, pc, pc + 1) && MakesHead(prog, pc, next);
    assert IsHead(prog, g.start, g.end, pc + 1);
    TailBeforeHead(prog, g, i, pc);
    assert EdgesOk(prog, g, i);
    var k := HeadStartsItsBlock(prog, g, next);
    if next == pc + 1 {
      assert g.blocks[i + 1].head == next && InBlock(g, i + 1, next);
      assert g.blocks[i].succs[0].dst == g.blocks[k].idx;
    } else {
      assert g.blocks[i].succs[1].dst == g.blocks[k].idx;
    }
    assert TakesEdge(prog, g, i, k, pc, next);
  }

  lemma JumpFollows(prog: Program, g: FuncView, i: int, pc: int)
    requires IsFuncGraph(prog, g) && BranchesInside(prog, g.start, g.end)
    requires 0 <= pc < |prog|
    requires InBlock(g, i, pc) && IsUnconditional(prog[pc])
    requires pc == g.end || IsHead(prog, g.start, g.end, pc + 1)
    ensures StepFollowsGraph(prog, g, pc, Target(prog, pc))
  {
    FirstBlockAtStart(prog, g);
    assert MakesHead(prog, pc, Target(prog, pc));
    TailBeforeHead(prog, g, i, pc);
    assert EdgesOk(prog, g, i);
    var k := HeadStartsItsBlock(prog, g, Target(prog, pc));
    assert g.blocks[i].succs[0].dst == g.blocks[k].idx;
    assert TakesEdge(prog, g, i, k, pc, Target(prog, pc));
  }

  // The other way: a jump that follows the graph is visible to the builder.
  lemma FollowingJumpIsVisible(prog: Program, g: FuncView, pc: int)
    requires IsFuncGraph(prog, g) && BranchesInside(prog, g.start, g.end)
    requires g.start <= pc <= g.end && IsUnconditional(prog[pc])
    requires StepFollowsGraph(prog, g, pc, JumpDest(prog, pc))
    ensures pc == g.end || IsHead(prog, g.start, g.end, pc + 1)
    ensures JumpDest(prog, pc) == Target(prog, pc)
  {
    var next := JumpDest(prog, pc);
    var i, k :| TakesEdge(prog, g, i, k, pc, next);
    TailBeforeHead(prog, g, i, pc);
    assert EdgesOk(prog, g, i);
    var e :| e in g.blocks[i].succs && e.dst == g.blocks[k].idx;
    assert JumpsTo(g, i, e, Target(prog, pc));
    var k' :| 1 <= k' <= g.Last() && g.blocks[k'].head == Target(prog, pc) && e.dst == g.blocks[k'].idx;
    assert k == k';
  }

  lemma VisibleStepFollows(prog: Program, g: FuncView, pc: int, next: int)
    requires IsFuncGraph(prog, g) && BranchesInside(prog, g.start, g.end) && WideLoadsOk(prog, g)
    requires JumpsVisible(prog, g)
    requires IsInsnAt(prog, g, pc) && next in Successors(prog, pc) && g.start <= next <= g.end
    ensures StepFollowsGraph(prog, g, pc, next)
  {
    SuccessorsByKind(prog, pc);
    var i := BlocksPartitionFunction(prog, g, pc);
    if IsConditional(prog[pc]) {
      ConditionalFollows(prog, g, i, pc, next);
    } else if IsUnconditional(prog[pc]) {
      JumpFollows(prog, g, i, pc);
    } else {
      FallThroughFollows(prog, g, i, pc);
    }
  }

  /** The graph simulates execution exactly when the builder sees every jump. */
  lemma SimulatesIffJumpsVisible(prog: Program, g: FuncView)
    requires IsFuncGraph(prog, g) && BranchesInside(prog, g.start, g.end) && WideLoadsOk(prog, g)
    ensures Simulates(prog, g) <==> JumpsVisible(prog, g)
  {
    if JumpsVisible(prog, g) {
      forall pc, next | IsInsnAt(prog, g, pc) && next in Successors(prog, pc) && g.start <= next <= g.end
        ensures StepFollowsGraph(prog, g, pc, next)
      {
        VisibleStepFollows(prog, g, pc, next);
      }
    }
    if Simulates(prog, g) {
      forall pc | 0 <= pc < |prog| && g.start <= pc <= g.end && IsUnconditional(prog[pc])
        && g.start <= JumpDest(prog, pc) <= g.end
        ensures (pc == g.end || IsHead(prog, g.start, g.end, pc + 1)) && JumpDest(prog, pc) == Target(prog, pc)
      {
        SuccessorsByKind(prog, pc);
        // A wide load is followed by opcode 0, so a jump is never a second slot.
        assert IsInsnAt(prog, g, pc);
        FollowingJumpIsVisible(prog, g, pc);
      }
    }
  }

  // goto +1; mov; exit
  const HIDDEN_JUMP: Program := [Insn(0x05, 0, 1, 0), Insn(0xb7, 0, 0, 0), Insn(0x95, 0, 0, 0)]

  // The graph the builder makes of it: blocks [0, 1] and [2, 2].
  const HIDDEN_JUMP_GRAPH: FuncView :=
    FuncView(0, 2, [
      BlockView(-1, -1, 0, [EdgeView(0, 2, EDGE_FLAG_FALLTHROUGH)], []),
      BlockView(0, 1, 2, [EdgeView(2, 3, EDGE_FLAG_FALLTHROUGH)], []),
      BlockView(2, 2, 3, [EdgeView(3, 1, EDGE_FLAG_FALLTHROUGH)], []),
      BlockView(-1, -1, 1, [], [EdgeView(3, 1, EDGE_FLAG_FALLTHROUGH)])])

  /** A program the condition rejects: the jump is not the last instruction of its block, so no edge
      stands for it. */
  lemma HiddenJump()
    ensures LocalJumps(HIDDEN_JUMP) && IsFuncGraph(HIDDEN_JUMP, HIDDEN_JUMP_GRAPH)
    ensures BranchesInside(HIDDEN_JUMP, 0, 2) && WideLoadsOk(HIDDEN_JUMP, HIDDEN_JUMP_GRAPH)
    ensures !JumpsVisible(HIDDEN_JUMP, HIDDEN_JUMP_GRAPH) && !Simulates(HIDDEN_JUMP, HIDDEN_JUMP_GRAPH)
  {
    var prog, g := HIDDEN_JUMP, HIDDEN_JUMP_GRAPH;
    HiddenJumpInsns();
    HiddenJumpBlocks();
    assert !IsHead(prog, 0, 2, 1);
    assert IsUnconditional(prog[0]) && JumpDest(prog, 0) == 2;
    assert !JumpsVisible(prog, g);
    SimulatesIffJumpsVisible(prog, g);
  }

  lemma HiddenJumpInsns()
    ensures IsUnconditional(HIDDEN_JUMP[0]) && Class(HIDDEN_JUMP[0].code) == BPF_JMP
    ensures !IsBranch(HIDDEN_JUMP[1]) && !IsBranch(HIDDEN_JUMP[2])
    ensures forall pc :: 0 <= pc < 3 ==> !IsWide(HIDDEN_JUMP[pc]) && !IsPseudoCall(HIDDEN_JUMP[pc])
    ensures forall pc, h :: MakesHead(HIDDEN_JUMP, pc, h) <==> pc == 0 && h == 2
    ensures LocalJumps(HIDDEN_JUMP)
  {
  }

  lemma HiddenJumpBlocks()
    ensures IsFuncGraph(HIDDEN_JUMP, HIDDEN_JUMP_GRAPH)
  {
    var prog, g := HIDDEN_JUMP, HIDDEN_JUMP_GRAPH;
    HiddenJumpInsns();
    assert IsHead(prog, 0, 2, 2) by {
      assert MakesHead(prog, 0, 2);
    }
    assert g.blocks[1].head == 0 && g.blocks[2].head == 2;
    assert HeadsBlock(g, 0) && HeadsBlock(g, 2);
    assert IsBlockPartition(prog, g);
    assert EdgesOk(prog, g, 1) && EdgesOk(prog, g, 2);
  }

  // ---------- Whole runs ----------

  /** An execution of the function that has not left it: from its first instruction, step by step. */
  ghost predicate IsRun(prog: Program, g: FuncView, run: seq<int>) {
    && |run| > 0 && run[0] == g.start
    && (forall i :: 0 <= i < |run| ==> g.start <= run[i] <= g.end < |prog| && 0 <= g.start)
    && (forall i, j :: 0 <= i < j == i + 1 < |run| ==> run[j] in Successors(prog, run[i]))
  }

  ghost predicate GraphEdge(g: FuncView, a: int, b: int) {
    exists i :: 0 <= i < |g.blocks| && g.blocks[i].idx == a && HasEdge(g, i, b)
  }

  /** A walk along edges, beginning at ENTRY; nodes are named by index. */
  ghost predicate IsWalk(g: FuncView, walk: seq<int>) {
    && |walk| > 0 && walk[0] == ENTRY_BLOCK_INDEX
    && forall i :: 0 <= i < |walk| - 1 ==> GraphEdge(g, walk[i], walk[i + 1])
  }

  /** `at` says which node of the walk each step of the run is in: it starts right after ENTRY,
      moves by at most one node per step, ends at the end of the walk, and the block named there
      contains the instruction. */
  ghost predicate Shadows(g: FuncView, run: seq<int>, walk: seq<int>, at: seq<int>) {
    && |at| == |run| > 0
    && at[0] == 1 && at[|at| - 1] == |walk| - 1
    && (forall i :: 0 <= i < |at| ==> 0 <= at[i] < |walk| && InNode(g, walk[at[i]], run[i]))
    && (forall i, j :: 0 <= i < j == i + 1 < |at| ==> at[j] == at[i] || at[j] == at[i] + 1)
  }

  ghost predicate InNode(g: FuncView, node: int, pc: int) {
    exists i :: InBlock(g, i, pc) && g.blocks[i].idx == node
  }

  lemma StepStaysOnInsns(prog: Program, g: FuncView, pc: int, next: int)
    requires IsFuncGraph(prog, g) && BranchesInside(prog, g.start, g.end)
    requires WideLoadsOk(prog, g) && JumpsVisible(prog, g)
    requires IsInsnAt(prog, g, pc) && next in Successors(prog, pc) && g.start <= next <= g.end
    ensures IsInsnAt(prog, g, next)
  {
    SuccessorsByKind(prog, pc);
    if IsBranch(prog[pc]) {
      assert MakesHead(prog, pc, next);
      assert IsHead(prog, g.start, g.end, next);
    }
  }

  lemma EntryWalk(prog: Program, g: FuncView) returns (walk: seq<int>)
    requires IsFuncGraph(prog, g) && BranchesInside(prog, g.start, g.end)
    ensures IsWalk(g, walk) && Shadows(g, [g.start], walk, [1])
  {
    FirstBlockAtStart(prog, g);
    walk := [ENTRY_BLOCK_INDEX, g.blocks[1].idx];
    assert FallThrough(g, 0) in g.blocks[0].succs;
    assert HasEdge(g, 0, g.blocks[1].idx);
    assert InBlock(g, 1, g.start);
  }

  lemma StepMovesNode(prog: Program, g: FuncView, node: int, pc: int, next: int) returns (node': int)
    requires IsFuncGraph(prog, g) && BranchesInside(prog, g.start, g.end)
    requires 0 <= pc < |prog| && InNode(g, node, pc) && StepFollowsGraph(prog, g, pc, next)
    ensures InNode(g, node', next)
    ensures node' == node || GraphEdge(g, node, node')
  {
    var here :| InBlock(g, here, pc) && g.blocks[here].idx == node;
    FirstBlockAtStart(prog, g);
    var b := BlocksPartitionFunction(prog, g, pc);
    if i :| StaysInBlock(prog, g, i, pc, next) {
      node' := node;
    } else {
      var i, k :| TakesEdge(prog, g, i, k, pc, next);
      node' := g.blocks[k].idx;
    }
  }

  lemma ExtendWalk(g: FuncView, run: seq<int>, walk: seq<int>, at: seq<int>, node: int, next: int)
    returns (walk': seq<int>, at': seq<int>)
    requires IsWalk(g, walk) && Shadows(g, run, walk, at)
    requires InNode(g, node, next)
    requires node == walk[|walk| - 1] || GraphEdge(g, walk[|walk| - 1], node)
    ensures IsWalk(g, walk') && Shadows(g, run + [next], walk', at')
  {
    if node == walk[|walk| - 1] {
      walk', at' := walk, at + [|walk| - 1];
    } else {
      walk', at' := walk + [node], at + [|walk|];
    }
  }

  lemma OneMoreStep(prog: Program, g: FuncView, run: seq<int>, next: int, walk: seq<int>, at: seq<int>)
    returns (walk': seq<int>, at': seq<int>)
    requires IsFuncGraph(prog, g) && BranchesInside(prog, g.start, g.end)
    requires WideLoadsOk(prog, g) && JumpsVisible(prog, g)
    requires IsWalk(g, walk) && Shadows(g, run, walk, at)
    requires IsInsnAt(prog, g, run[|run| - 1]) && next in Successors(prog, run[|run| - 1]) && g.start <= next <= g.end
    ensures IsWalk(g, walk') && Shadows(g, run + [next], walk', at')
    ensures IsInsnAt(prog, g, next)
  {
    var pc := run[|run| - 1];
    StepStaysOnInsns(prog, g, pc, next);
    assert StepFollowsGraph(prog, g, pc, next) by {
      SimulatesIffJumpsVisible(prog, g);
    }
    var node := StepMovesNode(prog, g, walk[|walk| - 1], pc, next);
    walk', at' := ExtendWalk(g, run, walk, at, node, next);
  }

  /** Every run is the shadow of a walk through the graph from ENTRY. */
  lemma {:induction false} RunIsWalk(prog: Program, g: FuncView, run: seq<int>)
    returns (walk: seq<int>, at: seq<int>)
    requires IsFuncGraph(prog, g) && BranchesInside(prog, g.start, g.end)
    requires WideLoadsOk(prog, g) && JumpsVisible(prog, g)
    requires IsRun(prog, g, run)
    ensures IsWalk(g, walk) && Shadows(g, run, walk, at)
    ensures IsInsnAt(prog, g, run[|run| - 1])
  {
    var n := |run| - 1;
    if n == 0 {
      walk := EntryWalk(prog, g);
      at := [1];
      assert run == [g.start];
    } else {
      walk, at := RunIsWalk(prog, g, run[..n]);
      walk, at := OneMoreStep(prog, g, run[..n], run[n], walk, at);
      assert run[..n] + [run[n]] == run;
    }
  }

  /** For a whole program whose functions have been built: the runs of any of its functions are
      walks through that function's graph. */
  lemma FunctionRunIsWalk(prog: Program, extents: seq<Extent>, f: nat, g: FuncView, run: seq<int>)
    returns (walk: seq<int>, at: seq<int>)
    requires LocalJumps(prog) && IsProgramSplit(prog, extents) && f < |extents|
    requires IsFuncGraph(prog, g) && g.start == extents[f].start && g.end == extents[f].end
    requires WideLoadsOk(prog, g) && JumpsVisible(prog, g) && IsRun(prog, g, run)
    ensures IsWalk(g, walk) && Shadows(g, run, walk, at)
  {
    LocalJumpsStayInside(prog, extents, f);
    walk, at := RunIsWalk(prog, g, run);
  }

  /** The graph is not exact at EXIT: a block that ends in an EXIT instruction is joined to the
      EXIT node only if it is the last block of the function; otherwise its one edge goes to the
      block laid out after it, which execution cannot reach from there. */
  lemma ExitEdgeOnlyFromLastBlock(prog: Program, g: FuncView, i: int)
    requires IsFuncGraph(prog, g)
    requires 1 <= i <= g.Last()
    requires var code := prog[g.blocks[i].tail].code as int; code % 8 in {5, 6} && code / 16 == 9
    ensures HasEdge(g, i, EXIT_BLOCK_INDEX) <==> i == g.Last()
    ensures i < g.Last() ==> HasEdge(g, i, g.blocks[i + 1].idx)
    ensures Successors(prog, g.blocks[i].tail) == {}
  {
    OpcodeTests(prog[g.blocks[i].tail]);
    assert EdgesOk(prog, g, i);
    assert g.blocks[i].succs[0] in g.blocks[i].succs;
  }

  // An edge leads from block `i` to the block that begins at `h`.
  ghost predicate EdgeTo(g: FuncView, i: int, h: int) {
    exists k :: 1 <= k <= g.Last() && g.blocks[k].head == h && HasEdge(g, i, g.blocks[k].idx)
  }

  // The instruction goes on to where its 16-bit offset and its position say: it is no exit, no call of
  // the 32-bit class, and no jump of that class whose immediate and offset differ.
  predicate IsPlain(insn: Insn) {
    var code := insn.code as int;
    code % 8 in {5, 6} ==>
      code / 16 != 9 && (code % 8 == 6 ==> code / 16 != 8 && (code / 16 == 0 ==> insn.imm == insn.off))
  }

  /** Nor is it too coarse elsewhere: the edges out of a block lead exactly to where execution goes on
      after its last instruction. */
  lemma EdgesAreSuccessors(prog: Program, g: FuncView, i: int)
    requires IsFuncGraph(prog, g) && BranchesInside(prog, g.start, g.end) && WideLoadsOk(prog, g)
    requires 1 <= i <= g.Last() && IsPlain(prog[g.blocks[i].tail])
    ensures forall h :: g.start <= h <= g.end ==> (EdgeTo(g, i, h) <==> h in Successors(prog, g.blocks[i].tail))
  {
    var pc := g.blocks[i].tail;
    FirstBlockAtStart(prog, g);
    OpcodeTests(prog[pc]);
    TailIsNarrow(prog, g, i);
    SuccessorsByKind(prog, pc);
    forall h | g.start <= h <= g.end
      ensures EdgeTo(g, i, h) <==> h in Successors(prog, pc)
    {
      EdgesByKind(prog, g, i, h);
    }
  }

  /** An edge flagged 1 falls through to the block laid out next, one flagged 2 jumps to the block at the
      target of the last instruction, and there are no others. */
  lemma EdgeFlags(prog: Program, g: FuncView, i: int, e: EdgeView)
    requires IsFuncGraph(prog, g) && 1 <= i <= g.Last() && e in g.blocks[i].succs
    ensures e.src == i + 1 && e.flags in {1, 2}
    ensures e.flags == 1 ==> e.dst == if i == g.Last() then 1 else i + 2
    ensures e.flags == 2 ==>
              var pc := g.blocks[i].tail;
              exists k :: 1 <= k <= g.Last() && g.blocks[k].head == pc + 1 + prog[pc].off && e.dst == k + 1
  {
    assert EdgesOk(prog, g, i);
    var pc := g.blocks[i].tail;
    if e != FallThrough(g, i) {
      assert JumpsTo(g, i, e, Target(prog, pc));
    }
  }

  // A wide load does not end with the first of its slots.
  lemma TailIsNarrow(prog: Program, g: FuncView, i: int)
    requires IsFuncGraph(prog, g) && BranchesInside(prog, g.start, g.end) && WideLoadsOk(prog, g)
    requires 1 <= i <= g.Last()
    ensures !IsWide(prog[g.blocks[i].tail])
  {
    FirstBlockAtStart(prog, g);
    if IsWide(prog[g.blocks[i].tail]) {
      assert InBlock(g, i, g.blocks[i].tail);
      TailBeforeHead(prog, g, i, g.blocks[i].tail);
    }
  }

  lemma EdgesByKind(prog: Program, g: FuncView, i: int, h: int)
    requires IsFuncGraph(prog, g) && BranchesInside(prog, g.start, g.end)
    requires 1 <= i <= g.Last() && g.start <= h <= g.end
    ensures EdgeTo(g, i, h) <==> LeadsTo(prog, g.blocks[i].tail, h)
  {
    if EdgeTo(g, i, h) {
      EdgesLead(prog, g, i, h);
    }
    if LeadsTo(prog, g.blocks[i].tail, h) {
      LeadsAlongEdge(prog, g, i, h);
    }
  }

  predicate LeadsTo(prog: Program, pc: int, h: int)
    requires 0 <= pc < |prog|
  {
    (IsBranch(prog[pc]) && h == Target(prog, pc)) || (!IsUnconditional(prog[pc]) && h == pc + 1)
  }

  lemma EdgesLead(prog: Program, g: FuncView, i: int, h: int)
    requires IsFuncGraph(prog, g) && BranchesInside(prog, g.start, g.end)
    requires 1 <= i <= g.Last() && EdgeTo(g, i, h)
    ensures LeadsTo(prog, g.blocks[i].tail, h)
  {
    var pc := g.blocks[i].tail;
    assert EdgesOk(prog, g, i);
    var k :| 1 <= k <= g.Last() && g.blocks[k].head == h && HasEdge(g, i, g.blocks[k].idx);
    var e :| e in g.blocks[i].succs && e.dst == g.blocks[k].idx;
    if e != FallThrough(g, i) {
      assert JumpsTo(g, i, e, Target(prog, pc));
    }
  }

  lemma LeadsAlongEdge(prog: Program, g: FuncView, i: int, h: int)
    requires IsFuncGraph(prog, g) && BranchesInside(prog, g.start, g.end)
    requires 1 <= i <= g.Last() && h <= g.end && LeadsTo(prog, g.blocks[i].tail, h)
    ensures EdgeTo(g, i, h)
  {
    var pc, succs := g.blocks[i].tail, g.blocks[i].succs;
    FirstBlockAtStart(prog, g);
    assert EdgesOk(prog, g, i);
    if IsBranch(prog[pc]) && h == Target(prog, pc) {
      var e := succs[|succs| - 1];
      assert JumpsTo(g, i, e, h) && e in succs;
      var k :| 1 <= k <= g.Last() && g.blocks[k].head == h && e.dst == g.blocks[k].idx;
      assert HasEdge(g, i, g.blocks[k].idx);
    } else {
      assert succs[0] == FallThrough(g, i) && succs[0] in succs;
      assert HasEdge(g, i, g.blocks[i + 1].idx) && g.blocks[i + 1].head == h;
    }
  }
}
