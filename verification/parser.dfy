/** The parser: a flat opcode sequence to an instruction tree. Brackets are
    matched with a nesting counter; each outermost bracket pair becomes a
    `Loop` whose body is parsed recursively from the opcodes between them. */
module Parser {
  import opened Syntax

  /** Why a parse fails, with the opcode index the failure is reported at. */
  datatype ParseError =
    | UnbalancedLoopEnd(at: nat)    // a `]` with no open `[` before it
    | UnbalancedLoopStart(at: nat)  // a `[` still open at the end of the input

  datatype Result<T> = Ok(value: T) | Err(error: ParseError)

  /** `ops[i]` is the first `]` that closes more loops than were opened:
      the prefix ending with it is the shortest one below depth zero. */
  ghost predicate FirstUnmatchedClose(ops: seq<OpCode>, i: nat)
  {
    i < |ops| && Depth(ops[..i + 1]) < 0 &&
    forall k :: 0 <= k <= i ==> Depth(ops[..k]) >= 0
  }

  /** `ops[j]` is a `[` opened at depth zero that is still open at every
      later point up to `end`. */
  ghost predicate OpenFrom(ops: seq<OpCode>, j: nat, end: nat)
  {
    j < end <= |ops| && ops[j] == LoopStart && Depth(ops[..j]) == 0 &&
    forall k :: j < k <= end ==> Depth(ops[..k]) > 0
  }

  /** `ops[j]` is the outermost `[` left open at the end of the input. */
  ghost predicate OutermostUnclosedOpen(ops: seq<OpCode>, j: nat)
  {
    OpenFrom(ops, j, |ops|)
  }

  /** Parses `operations` into a program. The result is a program exactly
      when the brackets balance, and then flattening it gives back the
      input; otherwise the error names the first excess `]`, or, when no
      `]` is in excess, the outermost `[` left open. */
  method Parse(operations: seq<OpCode>) returns (r: Result<seq<Instruction>>)
    ensures r.Ok? <==> Balanced(operations)
    ensures r.Ok? ==> Flatten(r.value) == operations
    ensures r.Err? && r.error.UnbalancedLoopEnd? ==> FirstUnmatchedClose(operations, r.error.at)
    ensures r.Err? && r.error.UnbalancedLoopStart? ==>
      NeverNegative(operations) && OutermostUnclosedOpen(operations, r.error.at)
    decreases |operations|
  {
    var program: seq<Instruction> := [];
    var loopStart: nat := 0;
    var loopStack: int := 0;
    var i := 0;
    while i < |operations|
      invariant 0 <= i <= |operations|
      invariant loopStack == Depth(operations[..i])
      invariant forall k :: 0 <= k <= i ==> Depth(operations[..k]) >= 0
      invariant loopStack == 0 ==> Flatten(program) == operations[..i]
      invariant loopStack != 0 ==>
        OpenFrom(operations, loopStart, i) && Flatten(program) == operations[..loopStart]
    {
      var operation := operations[i];
      DepthStep(operations, i);
      if loopStack == 0 {
        var instruct: Option<Instruction>;
        match operation {
          case IncPtr => instruct := Some(Instruction.IncPtr);
          case DecPtr => instruct := Some(Instruction.DecPtr);
          case Inc => instruct := Some(Instruction.Inc);
          case Dec => instruct := Some(Instruction.Dec);
          case Write => instruct := Some(Instruction.Write);
          case Read => instruct := Some(Instruction.Read);
          case LoopStart =>
            loopStart := i;
            loopStack := loopStack + 1;
            instruct := None;
          case LoopStop =>
            return Err(UnbalancedLoopEnd(i));
        }
        if instruct.Some? {
          AppendPlain(operations, i, program, instruct.value);
          program := program + [instruct.value];
        }
      } else {
        match operation {
          case LoopStart =>
            loopStack := loopStack + 1;
          case LoopStop =>
            loopStack := loopStack - 1;
            if loopStack == 0 {
              InnerBalanced(operations, loopStart, i);
              var body := Parse(operations[loopStart + 1..i]);
              AppendLoop(operations, loopStart, i, program, body.value);
              program := program + [Loop(body.value)];
            }
          case _ =>
        }
      }
      NeverNegativeStep(operations, i);
      if loopStack != 0 {
        OpenFromStep(operations, loopStart, i);
      }
      i := i + 1;
    }
    assert operations[..i] == operations;
    if loopStack != 0 {
      return Err(UnbalancedLoopStart(loopStart));
    }
    return Ok(program);
  }

  lemma DepthStep(ops: seq<OpCode>, i: nat)
    requires i < |ops|
    ensures Depth(ops[..i + 1]) == Depth(ops[..i]) + Delta(ops[i])
  {
    assert ops[..i + 1][..i] == ops[..i];
  }

  /** The scanned prefix stays free of negative depth while the counter
      stays non-negative. */
  lemma NeverNegativeStep(ops: seq<OpCode>, i: nat)
    requires i < |ops| && Depth(ops[..i + 1]) >= 0
    requires forall k :: 0 <= k <= i ==> Depth(ops[..k]) >= 0
    ensures forall k :: 0 <= k <= i + 1 ==> Depth(ops[..k]) >= 0
  {
  }

  /** A `[` open before step `i` is still open after it while the counter
      stays positive; one opened at step `i` is open after it. */
  lemma OpenFromStep(ops: seq<OpCode>, j: nat, i: nat)
    requires i < |ops| && Depth(ops[..i + 1]) > 0
    requires OpenFrom(ops, j, i) || (j == i && ops[i] == LoopStart && Depth(ops[..i]) == 0)
    ensures OpenFrom(ops, j, i + 1)
  {
  }

  lemma Append(program: seq<Instruction>, ins: Instruction)
    ensures Flatten(program + [ins]) == Flatten(program) + FlattenOne(ins)
  {
    FlattenAppend(program, [ins]);
    assert Flatten([ins]) == FlattenOne(ins) + Flatten([]);
  }

  /** Appending the instruction of a plain opcode extends the flattened
      program by that opcode. */
  lemma AppendPlain(ops: seq<OpCode>, i: nat, program: seq<Instruction>, ins: Instruction)
    requires i < |ops| && Flatten(program) == ops[..i] && FlattenOne(ins) == [ops[i]]
    ensures Flatten(program + [ins]) == ops[..i + 1]
  {
    Append(program, ins);
    assert ops[..i + 1] == ops[..i] + [ops[i]];
  }

  /** Appending the loop parsed from between two brackets extends the
      flattened program by the brackets and everything between them. */
  lemma AppendLoop(ops: seq<OpCode>, start: nat, stop: nat, program: seq<Instruction>, body: seq<Instruction>)
    requires start < stop < |ops| && ops[start] == LoopStart && ops[stop] == LoopStop
    requires Flatten(program) == ops[..start] && Flatten(body) == ops[start + 1..stop]
    ensures Flatten(program + [Loop(body)]) == ops[..stop + 1]
  {
    Append(program, Loop(body));
    assert ops[..stop + 1] == ops[..start] + [ops[start]] + ops[start + 1..stop] + [ops[stop]];
  }

  /** The opcodes strictly between a `[` opened at depth zero and the `]`
      that brings the depth back to zero are balanced, so the recursive
      parse of that slice succeeds. */
  lemma InnerBalanced(ops: seq<OpCode>, start: nat, stop: nat)
    requires OpenFrom(ops, start, stop) && stop < |ops| && Depth(ops[..stop + 1]) == 0
    ensures Balanced(ops[start + 1..stop])
  {
    var inner := ops[start + 1..stop];
    assert ops[..stop + 1][..stop] == ops[..stop];
    assert ops[..start + 1][..start] == ops[..start];
    assert Depth(ops[..start + 1]) == 1;
    forall k | 0 <= k <= |inner| ensures Depth(inner[..k]) == Depth(ops[..start + 1 + k]) - 1 {
      assert ops[..start + 1 + k] == ops[..start + 1] + inner[..k];
      DepthAppend(ops[..start + 1], inner[..k]);
    }
    assert inner[..|inner|] == inner;
  }

  /** A sequence that parses is balanced when both its parts are. */
  lemma BalancedAppend(a: seq<OpCode>, b: seq<OpCode>)
    requires Balanced(a) && Balanced(b)
    ensures Balanced(a + b)
  {
    forall k | 0 <= k <= |a + b| ensures Depth((a + b)[..k]) >= 0 {
      if k <= |a| {
        assert (a + b)[..k] == a[..k];
      } else {
        assert (a + b)[..k] == a + b[..k - |a|];
        DepthAppend(a, b[..k - |a|]);
      }
    }
    DepthAppend(a, b);
  }

  /** Bracketing a balanced sequence keeps it balanced, and every point
      strictly inside the brackets is at depth one or more. */
  lemma Wrap(x: seq<OpCode>)
    requires Balanced(x)
    ensures Balanced([LoopStart] + x + [LoopStop])
    ensures forall k :: 1 <= k <= |x| + 1 ==> Depth(([LoopStart] + x + [LoopStop])[..k]) > 0
  {
    var w := [LoopStart] + x + [LoopStop];
    assert Depth([LoopStart]) == 1 by {
      assert [LoopStart][..0] == [];
    }
    forall k | 1 <= k <= |x| + 1 ensures Depth(w[..k]) > 0 {
      assert w[..k] == [LoopStart] + x[..k - 1];
      DepthAppend([LoopStart], x[..k - 1]);
    }
    assert w[..0] == [];
    assert w[..|w|] == w;
    assert w[..|w| - 1] == [LoopStart] + x[..|x|];
    assert x[..|x|] == x;
    DepthAppend([LoopStart], x);
  }

  /** Every program flattens to a balanced opcode sequence, so parsing
      accepts everything that flattening produces. */
  lemma {:induction false} FlattenBalanced(program: seq<Instruction>)
    ensures Balanced(Flatten(program))
    decreases program
  {
    if program == [] {
      assert Flatten(program) == [];
      assert Flatten(program)[..0] == [];
    } else {
      FlattenOneBalanced(program[0]);
      FlattenBalanced(program[1..]);
      BalancedAppend(FlattenOne(program[0]), Flatten(program[1..]));
    }
  }

  lemma {:induction false} FlattenOneBalanced(ins: Instruction)
    ensures Balanced(FlattenOne(ins))
    decreases ins
  {
    if ins.Loop? {
      FlattenBalanced(ins.body);
      Wrap(Flatten(ins.body));
    } else {
      var s := FlattenOne(ins);
      assert |s| == 1 && s[0] != LoopStart && s[0] != LoopStop;
      assert s[..0] == [] && s[..1] == s;
    }
  }

  /** The first opcode of a flattened instruction is `[` exactly for a
      loop; any other instruction flattens to one opcode. */
  lemma FlattenOneHead(ins: Instruction)
    ensures |FlattenOne(ins)| >= 1
    ensures FlattenOne(ins)[0] == LoopStart <==> ins.Loop?
    ensures !ins.Loop? ==> |FlattenOne(ins)| == 1
  {
  }

  /** Inside `[` x `]` followed by anything, the depth first returns to
      zero right after the `]` that closes the leading `[`. */
  lemma WrapDepth(x: seq<OpCode>, rest: seq<OpCode>, k: nat)
    requires Balanced(x) && k <= |x| + 2
    ensures var s := [LoopStart] + x + [LoopStop] + rest;
      (1 <= k <= |x| + 1 ==> Depth(s[..k]) > 0) && (k == |x| + 2 ==> Depth(s[..k]) == 0)
  {
    var w := [LoopStart] + x + [LoopStop];
    Wrap(x);
    assert ([LoopStart] + x + [LoopStop] + rest)[..k] == w[..k];
    assert w[..|w|] == w;
  }

  /** Two bracketed balanced blocks that start the same sequence are the
      same block. */
  lemma SplitLoops(x: seq<OpCode>, y: seq<OpCode>, r1: seq<OpCode>, r2: seq<OpCode>)
    requires Balanced(x) && Balanced(y)
    requires [LoopStart] + x + [LoopStop] + r1 == [LoopStart] + y + [LoopStop] + r2
    ensures x == y && r1 == r2
  {
    WrapDepth(x, r1, |x| + 2);
    WrapDepth(y, r2, |y| + 2);
    if |x| + 2 <= |y| + 1 {
      WrapDepth(y, r2, |x| + 2);
    }
    if |y| + 2 <= |x| + 1 {
      WrapDepth(x, r1, |y| + 2);
    }
    assert |x| == |y|;
    var s := [LoopStart] + x + [LoopStop] + r1;
    assert x == s[1..|x| + 1];
    assert y == s[1..|y| + 1];
    assert r1 == s[|x| + 2..];
  }

  /** Different programs flatten to different opcode sequences, so the
      program `Parse` returns is the only one that flattens to its input. */
  lemma {:induction false} FlattenInjective(p: seq<Instruction>, q: seq<Instruction>)
    requires Flatten(p) == Flatten(q)
    ensures p == q
    decreases p
  {
    if p != [] && q != [] {
      var u, v := FlattenOne(p[0]), FlattenOne(q[0]);
      var rp, rq := Flatten(p[1..]), Flatten(q[1..]);
      assert u + rp == v + rq;
      FlattenOneHead(p[0]);
      FlattenOneHead(q[0]);
      assert u[0] == (u + rp)[0] == (v + rq)[0] == v[0];
      if p[0].Loop? {
        var b, c := p[0].body, q[0].body;
        FlattenBalanced(b);
        FlattenBalanced(c);
        SplitLoops(Flatten(b), Flatten(c), rp, rq);
        FlattenInjective(b, c);
      } else {
        assert [u[0]] + rp == [v[0]] + rq;
        assert rp == ([u[0]] + rp)[1..];
        PlainUnique(p[0], q[0]);
      }
      FlattenInjective(p[1..], q[1..]);
      assert p == [p[0]] + p[1..];
      assert q == [q[0]] + q[1..];
    } else {
      if p != [] { FlattenOneHead(p[0]); }
      if q != [] { FlattenOneHead(q[0]); }
    }
  }

  lemma PlainUnique(a: Instruction, b: Instruction)
    requires !a.Loop? && !b.Loop? && FlattenOne(a) == FlattenOne(b)
    ensures a == b
  {
  }

  /** The index reported for an excess `]` is determined by the input. */
  lemma FirstUnmatchedCloseUnique(ops: seq<OpCode>, i: nat, j: nat)
    requires FirstUnmatchedClose(ops, i) && FirstUnmatchedClose(ops, j)
    ensures i == j
  {
  }

  /** The index reported for an unclosed `[` is determined by the input. */
  lemma OutermostUnclosedOpenUnique(ops: seq<OpCode>, i: nat, j: nat)
    requires OutermostUnclosedOpen(ops, i) && OutermostUnclosedOpen(ops, j)
    ensures i == j
  {
  }
}
