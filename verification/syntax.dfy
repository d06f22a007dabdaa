/** The two token levels of the interpreter: the flat opcodes produced by
    the lexer and the instruction tree produced by the parser, with the
    functions that relate them (flattening a tree back into opcodes, and the
    bracket depth of an opcode sequence). */
module Syntax {

  datatype Option<T> = None | Some(value: T)

  /** One opcode per recognised source character. */
  datatype OpCode = IncPtr | DecPtr | Inc | Dec | Write | Read | LoopStart | LoopStop

  /** A parsed instruction; a loop owns its body. Brackets never appear in
      the tree: they are consumed by the parser and become `Loop` nodes. */
  datatype Instruction = IncPtr | DecPtr | Inc | Dec | Write | Read | Loop(body: seq<Instruction>)

  /** The opcodes a program was parsed from: every plain instruction gives
      back its same-named opcode and a loop gives back its brackets around
      its flattened body. */
  function Flatten(program: seq<Instruction>): seq<OpCode>
    decreases program
  {
    if program == [] then []
    else FlattenOne(program[0]) + Flatten(program[1..])
  }

  function FlattenOne(ins: Instruction): seq<OpCode>
    decreases ins
  {
    match ins
    case IncPtr => [OpCode.IncPtr]
    case DecPtr => [OpCode.DecPtr]
    case Inc => [OpCode.Inc]
    case Dec => [OpCode.Dec]
    case Write => [OpCode.Write]
    case Read => [OpCode.Read]
    case Loop(body) => [OpCode.LoopStart] + Flatten(body) + [OpCode.LoopStop]
  }

  /** The change a single opcode makes to the loop nesting counter. */
  function Delta(op: OpCode): int
  {
    match op
    case LoopStart => 1
    case LoopStop => -1
    case _ => 0
  }

  /** Number of `LoopStart` minus number of `LoopStop` in `ops`. */
  function Depth(ops: seq<OpCode>): int
  {
    if ops == [] then 0 else Depth(ops[..|ops| - 1]) + Delta(ops[|ops| - 1])
  }

  /** No prefix closes more loops than it opens. */
  ghost predicate NeverNegative(ops: seq<OpCode>)
  {
    forall k :: 0 <= k <= |ops| ==> Depth(ops[..k]) >= 0
  }

  /** Brackets match: no prefix goes below depth zero and the whole sequence
      ends at depth zero. */
  ghost predicate Balanced(ops: seq<OpCode>)
  {
    NeverNegative(ops) && Depth(ops) == 0
  }

  lemma {:induction false} DepthAppend(a: seq<OpCode>, b: seq<OpCode>)
    ensures Depth(a + b) == Depth(a) + Depth(b)
    decreases |b|
  {
    if b == [] {
      assert a + b == a;
    } else {
      var n := |b| - 1;
      assert (a + b)[..|a + b| - 1] == a + b[..n];
      DepthAppend(a, b[..n]);
    }
  }

  lemma {:induction false} FlattenAppend(p: seq<Instruction>, q: seq<Instruction>)
    ensures Flatten(p + q) == Flatten(p) + Flatten(q)
    decreases |p|
  {
    if p == [] {
      assert p + q == q;
    } else {
      assert (p + q)[1..] == p[1..] + q;
      FlattenAppend(p[1..], q);
    }
  }
}
