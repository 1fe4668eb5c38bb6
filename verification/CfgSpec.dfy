/** What a control-flow graph of an eBPF program is, and what it means for one to be right.

    Instructions are named by their position in the program; a block or function is a closed
    interval of positions.  Nothing here mentions how the graph is built: module Cfg builds it,
    in place, and proves that what it builds satisfies IsFuncGraph and IsProgramSplit. */
module CfgSpec {

  // ---------- Instructions ----------

  // Immediates and offsets are the signed fields of struct bpf_insn.
  datatype Insn = Insn(code: bv8, srcReg: nat, off: int, imm: int)

  type Program = seq<Insn>

  const BPF_JMP: bv8 := 0x05
  const BPF_JMP32: bv8 := 0x06
  const BPF_JA: bv8 := 0x00
  const BPF_CALL: bv8 := 0x80
  const BPF_EXIT: bv8 := 0x90
  const BPF_LD_IMM_DW: bv8 := 0x18
  const BPF_PSEUDO_CALL := 1

  function Class(code: bv8): bv8 { code & 0x07 }

  function Op(code: bv8): bv8 { code & 0xf0 }

  predicate IsJmpInsn(code: bv8) {
    Class(code) == BPF_JMP || Class(code) == BPF_JMP32
  }

  predicate IsPseudoCall(insn: Insn) {
    insn.code == (BPF_JMP | BPF_CALL) && insn.srcReg == BPF_PSEUDO_CALL
  }

  // Jumps as the graph builder sees them: any jump-class opcode other than CALL and EXIT.
  predicate IsBranch(insn: Insn) {
    IsJmpInsn(insn.code) && Op(insn.code) != BPF_CALL && Op(insn.code) != BPF_EXIT
  }

  predicate IsConditional(insn: Insn) {
    IsBranch(insn) && Op(insn.code) != BPF_JA
  }

  predicate IsUnconditional(insn: Insn) {
    IsBranch(insn) && Op(insn.code) == BPF_JA
  }

  // 64-bit immediate loads occupy two instruction slots.
  predicate IsWide(insn: Insn) { insn.code == BPF_LD_IMM_DW }

  // Where the builder thinks a branch goes: it always reads the 16-bit offset.
  function Target(prog: Program, pc: int): int
    requires 0 <= pc < |prog|
  {
    pc + prog[pc].off + 1
  }

  // ---------- What execution does (section 4.3 of RFC 9669) ----------

  /** The positions control can reach from `pc` in one step without leaving the current frame, read
      off the opcode byte: its value modulo 8 is the class, of which 5 and 6 jump, and its value
      divided by 16 the operation.  A call (8) comes back to the next instruction; an exit (9) has no
      successor; an unconditional jump (0) of class 6 goes by its immediate, every other jump by its
      offset. */
  function Successors(prog: Program, pc: int): set<int>
    requires 0 <= pc < |prog|
  {
    var insn := prog[pc];
    var code := insn.code as int;
    if code == 0x18 then {pc + 2}
    else if code % 8 != 5 && code % 8 != 6 then {pc + 1}
    else if code / 16 == 9 then {}
    else if code / 16 == 8 then (if code % 8 == 5 then {pc + 1} else {})
    else if code / 16 == 0 then {pc + 1 + if code % 8 == 5 then insn.off else insn.imm}
    else {pc + 1, pc + 1 + insn.off}
  }

  /** What the builder's tests on the opcode come to, as numbers. */
  lemma OpcodeTests(insn: Insn)
    ensures var code := insn.code as int;
            && (IsBranch(insn) <==> code % 8 in {5, 6} && code / 16 !in {8, 9})
            && (IsConditional(insn) <==> code % 8 in {5, 6} && code / 16 !in {0, 8, 9})
            && (IsUnconditional(insn) <==> code % 8 in {5, 6} && code / 16 == 0)
            && (IsPseudoCall(insn) <==> code == 0x85 && insn.srcReg == 1)
            && (IsWide(insn) <==> code == 0x18)
  {
    var code := insn.code;
    assert Class(code) as int == code as int % 8 && Op(code) as int == code as int / 16 * 16 by {
      ByteParts(code);
    }
  }

  lemma ByteParts(code: bv8)
    ensures (code & 0x07) as int == code as int % 8
    ensures (code & 0xf0) as int == code as int / 16 * 16
  {
    assert code & 0x07 == code % 8;
    assert code & 0xf0 == (code / 16) * 16;
  }

  // ---------- Functions ----------

  // Position `p` begins a function: the program does, and so does every pseudo-call target.
  ghost predicate IsFuncStart(prog: Program, p: int) {
    p == 0 || exists pc :: CallsAt(prog, pc, p)
  }

  predicate CallsAt(prog: Program, pc: int, p: int) {
    0 <= pc < |prog| && IsPseudoCall(prog[pc]) && p == Target(prog, pc)
  }

  // No function boundary separates `a` from `b`.
  ghost predicate SameFunc(prog: Program, a: int, b: int) {
    forall p :: IsFuncStart(prog, p) ==> (p <= a <==> p <= b)
  }

  /** What the builder needs in order not to read outside the program: calls land in it, and
      branches and conditional fall-throughs stay inside their own function. */
  ghost predicate LocalJumps(prog: Program) {
    && |prog| >= 1
    && (forall pc :: 0 <= pc < |prog| && IsPseudoCall(prog[pc]) ==> 0 <= Target(prog, pc) < |prog|)
    && (forall pc :: 0 <= pc < |prog| && IsBranch(prog[pc]) ==>
          0 <= Target(prog, pc) < |prog| && SameFunc(prog, pc, Target(prog, pc)))
    && (forall pc :: 0 <= pc < |prog| && IsConditional(prog[pc]) ==>
          pc + 1 < |prog| && SameFunc(prog, pc, pc + 1))
  }

  predicate StrictlyIncreasing(s: seq<int>) {
    forall i, j :: 0 <= i < j < |s| ==> s[i] < s[j]
  }

  datatype Extent = Extent(start: int, end: int)

  /** The functions of the program, in order: strictly sorted, contiguous, covering every
      instruction, and beginning exactly at the function starts. */
  ghost predicate IsProgramSplit(prog: Program, funcs: seq<Extent>) {
    && |funcs| >= 1
    && (forall i, j :: 0 <= i < j < |funcs| ==> funcs[i].start < funcs[j].start)
    && (forall p :: IsFuncStart(prog, p) <==> exists i :: 0 <= i < |funcs| && funcs[i].start == p)
    && (forall i, j :: 0 <= i < j == i + 1 < |funcs| ==> funcs[i].end == funcs[j].start - 1)
    && funcs[|funcs| - 1].end == |prog| - 1
  }

  // ---------- Blocks and edges of one function ----------

  const ENTRY_BLOCK_INDEX := 0
  const EXIT_BLOCK_INDEX := 1
  const NUM_FIXED_BLOCKS := 2
  const EDGE_FLAG_FALLTHROUGH := 1
  const EDGE_FLAG_JUMP := 2

  // Nodes are named by the index the builder gives them.
  datatype EdgeView = EdgeView(src: int, dst: int, flags: int)

  datatype BlockView = BlockView(head: int, tail: int, idx: int, succs: seq<EdgeView>, prevs: seq<EdgeView>)

  datatype FuncView = FuncView(start: int, end: int, blocks: seq<BlockView>) {
    // Real blocks are blocks[1..Last()]; the first and last list entries are ENTRY and EXIT.
    function Last(): int { |blocks| - 2 }
  }

  // Instruction `pc` of the function makes position `h` the head of a block.
  predicate MakesHead(prog: Program, pc: int, h: int) {
    && 0 <= pc < |prog|
    && ((IsBranch(prog[pc]) && h == Target(prog, pc)) || (IsConditional(prog[pc]) && h == pc + 1))
  }

  ghost predicate IsHead(prog: Program, start: int, end: int, h: int) {
    h == start || exists pc :: start <= pc <= end && MakesHead(prog, pc, h)
  }

  /** The blocks cut [start, end] exactly at the heads. */
  ghost predicate IsBlockPartition(prog: Program, g: FuncView) {
    && g.Last() >= 1
    && (forall i, j :: 1 <= i < j <= g.Last() ==> g.blocks[i].head < g.blocks[j].head)
    && (forall h :: IsHead(prog, g.start, g.end, h) <==> HeadsBlock(g, h))
    && (forall i, j :: 1 <= i < j == i + 1 <= g.Last() ==> g.blocks[i].tail == g.blocks[j].head - 1)
    && g.blocks[g.Last()].tail == g.end
    && g.blocks[0].idx == ENTRY_BLOCK_INDEX
    && g.blocks[g.Last() + 1].idx == EXIT_BLOCK_INDEX
    && (forall i :: 1 <= i <= g.Last() ==> g.blocks[i].idx == NUM_FIXED_BLOCKS + i - 1)
  }

  ghost predicate HeadsBlock(g: FuncView, h: int) {
    exists i :: 1 <= i <= g.Last() && g.blocks[i].head == h
  }

  // Edge `e` leaves block `i` for the block that begins at position `h`.
  ghost predicate JumpsTo(g: FuncView, i: int, e: EdgeView, h: int)
    requires 0 <= i < |g.blocks|
  {
    && e.src == g.blocks[i].idx
    && e.flags == EDGE_FLAG_JUMP
    && exists k :: 1 <= k <= g.Last() && g.blocks[k].head == h && e.dst == g.blocks[k].idx
  }

  function FallThrough(g: FuncView, i: int): EdgeView
    requires 0 <= i < |g.blocks| - 1
  {
    EdgeView(g.blocks[i].idx, g.blocks[i + 1].idx, EDGE_FLAG_FALLTHROUGH)
  }

  /** The edges out of a block are decided by its last instruction alone. */
  ghost predicate EdgesOk(prog: Program, g: FuncView, i: int)
    requires 1 <= i <= g.Last()
    requires 0 <= g.blocks[i].tail < |prog|
  {
    var tail := g.blocks[i].tail;
    var succs := g.blocks[i].succs;
    if IsUnconditional(prog[tail]) then
      |succs| == 1 && JumpsTo(g, i, succs[0], Target(prog, tail))
    else if IsConditional(prog[tail]) then
      |succs| == 2 && succs[0] == FallThrough(g, i) && JumpsTo(g, i, succs[1], Target(prog, tail))
    else
      succs == [FallThrough(g, i)]
  }

  ghost predicate IsFuncGraph(prog: Program, g: FuncView) {
    && 0 <= g.start <= g.end < |prog|
    && IsBlockPartition(prog, g)
    && g.blocks[0].succs == [FallThrough(g, 0)]
    && g.blocks[g.Last() + 1].prevs == [FallThrough(g, g.Last())]
    && (forall i :: 1 <= i <= g.Last() ==> 0 <= g.blocks[i].tail < |prog|)
    && (forall i {:trigger EdgesOk(prog, g, i)} :: 1 <= i <= g.Last() ==> EdgesOk(prog, g, i))
  }

  // ---------- Consequences of the partition ----------

  // Every position of a function is in exactly one of its blocks.
  ghost predicate InBlock(g: FuncView, i: int, pc: int) {
    1 <= i <= g.Last() && g.blocks[i].head <= pc <= g.blocks[i].tail
  }

  // Branches of the function stay in it, as LocalJumps says they do.
  ghost predicate BranchesInside(prog: Program, start: int, end: int) {
    forall pc, h :: start <= pc <= end && MakesHead(prog, pc, h) ==> start <= h <= end
  }

  lemma FirstBlockAtStart(prog: Program, g: FuncView)
    requires IsFuncGraph(prog, g) && BranchesInside(prog, g.start, g.end)
    ensures g.blocks[1].head == g.start
    ensures forall i :: 1 <= i <= g.Last() ==> g.start <= g.blocks[i].head <= g.blocks[i].tail <= g.end
  {
    forall i | 1 <= i <= g.Last()
      ensures g.start <= g.blocks[i].head <= g.end
    {
      assert HeadsBlock(g, g.blocks[i].head);
      assert IsHead(prog, g.start, g.end, g.blocks[i].head);
    }
    assert IsHead(prog, g.start, g.end, g.start);
    assert HeadsBlock(g, g.start);
    forall i | 1 <= i <= g.Last()
      ensures g.blocks[i].head <= g.blocks[i].tail <= g.end
    {
      if i < g.Last() {
        assert g.blocks[i].tail == g.blocks[i + 1].head - 1;
      }
    }
  }

  lemma {:induction false} BlocksInOrder(prog: Program, g: FuncView, i: int, k: int)
    requires IsFuncGraph(prog, g) && BranchesInside(prog, g.start, g.end)
    requires 1 <= i < k <= g.Last()
    ensures g.blocks[i].tail < g.blocks[k].head
  {
    FirstBlockAtStart(prog, g);
    assert g.blocks[i].tail == g.blocks[i + 1].head - 1;
  }

  /** Each position of the function lies in one block and in no other. */
  lemma BlocksPartitionFunction(prog: Program, g: FuncView, pc: int) returns (i: int)
    requires IsFuncGraph(prog, g) && BranchesInside(prog, g.start, g.end)
    requires g.start <= pc <= g.end
    ensures InBlock(g, i, pc)
    ensures forall k :: InBlock(g, k, pc) ==> k == i
  {
    FirstBlockAtStart(prog, g);
    i := 1;
    while g.blocks[i].tail < pc
      invariant 1 <= i <= g.Last() && g.blocks[i].head <= pc
      decreases g.Last() - i
    {
      i := i + 1;
    }
    forall k | InBlock(g, k, pc)
      ensures k == i
    {
      if k < i {
        BlocksInOrder(prog, g, k, i);
      } else if i < k {
        BlocksInOrder(prog, g, i, k);
      }
    }
  }

  /** In a split program whose branches are local, no branch leaves its function. */
  lemma LocalJumpsStayInside(prog: Program, funcs: seq<Extent>, i: int)
    requires LocalJumps(prog) && IsProgramSplit(prog, funcs)
    requires 0 <= i < |funcs|
    ensures 0 <= funcs[i].start <= funcs[i].end < |prog|
    ensures BranchesInside(prog, funcs[i].start, funcs[i].end)
  {
    var start, end := funcs[i].start, funcs[i].end;
    SplitBounds(prog, funcs, i);
    forall pc, h | start <= pc <= end && MakesHead(prog, pc, h)
      ensures start <= h <= end
    {
      assert 0 <= h < |prog| && SameFunc(prog, pc, h);
      assert IsFuncStart(prog, start);
      if i + 1 < |funcs| {
        assert IsFuncStart(prog, funcs[i + 1].start);
      }
    }
  }

  lemma SplitBounds(prog: Program, funcs: seq<Extent>, i: int)
    requires LocalJumps(prog) && IsProgramSplit(prog, funcs)
    requires 0 <= i < |funcs|
    ensures 0 <= funcs[i].start <= funcs[i].end < |prog|
  {
    assert IsFuncStart(prog, funcs[i].start);
    if i + 1 < |funcs| {
      assert IsFuncStart(prog, funcs[i + 1].start);
    }
  }

  /** The functions cover the program: every instruction is in exactly one of them. */
  lemma FunctionsPartitionProgram(prog: Program, funcs: seq<Extent>, pc: int) returns (i: int)
    requires LocalJumps(prog) && IsProgramSplit(prog, funcs)
    requires 0 <= pc < |prog|
    ensures 0 <= i < |funcs| && funcs[i].start <= pc <= funcs[i].end
    ensures forall k :: 0 <= k < |funcs| && funcs[k].start <= pc <= funcs[k].end ==> k == i
  {
    assert IsFuncStart(prog, 0);
    var z :| 0 <= z < |funcs| && funcs[z].start == 0;
    assert z == 0 by {
      if z > 0 { SplitBounds(prog, funcs, 0); }
    }
    i := 0;
    while funcs[i].end < pc
      invariant 0 <= i < |funcs| && funcs[i].start <= pc
      decreases |funcs| - i
    {
      i := i + 1;
    }
    forall k | 0 <= k < |funcs| && funcs[k].start <= pc <= funcs[k].end
      ensures k == i
    {
      if k < i {
        FunctionsInOrder(prog, funcs, k, i);
      } else if i < k {
        FunctionsInOrder(prog, funcs, i, k);
      }
    }
  }

  lemma FunctionsInOrder(prog: Program, funcs: seq<Extent>, i: int, k: int)
    requires IsProgramSplit(prog, funcs)
    requires 0 <= i < k < |funcs|
    ensures funcs[i].end < funcs[k].start
  {
    assert funcs[i].end == funcs[i + 1].start - 1;
  }
}
