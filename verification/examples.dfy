/** The repository's two unit tests, and one input for each parse error,
    with their expected results proved from the contracts of `Lex` and
    `Parse`. */
module Examples {
  import opened Syntax
  import opened Lexer
  import opened Parser

  /** Space and `#` are dropped; the eight symbols keep their order. */
  method LexTest() returns (output: seq<OpCode>)
    ensures output == [OpCode.Write, OpCode.Dec, OpCode.Inc, OpCode.LoopStart,
                       OpCode.LoopStop, OpCode.IncPtr, OpCode.DecPtr, OpCode.Read]
  {
    var payload := ".-+[]> <#,";
    assert payload[..0] == [];
    assert LexSpec(payload[..1]) == [OpCode.Write] by {
      assert payload[..1][..0] == payload[..0];
    }
    assert LexSpec(payload[..2]) == [OpCode.Write, OpCode.Dec] by {
      assert payload[..2][..1] == payload[..1];
    }
    assert LexSpec(payload[..3]) == [OpCode.Write, OpCode.Dec, OpCode.Inc] by {
      assert payload[..3][..2] == payload[..2];
    }
    assert LexSpec(payload[..4]) == [OpCode.Write, OpCode.Dec, OpCode.Inc, OpCode.LoopStart] by {
      assert payload[..4][..3] == payload[..3];
    }
    assert LexSpec(payload[..5]) == [OpCode.Write, OpCode.Dec, OpCode.Inc, OpCode.LoopStart, OpCode.LoopStop] by {
      assert payload[..5][..4] == payload[..4];
    }
    assert LexSpec(payload[..6]) == [OpCode.Write, OpCode.Dec, OpCode.Inc, OpCode.LoopStart, OpCode.LoopStop, OpCode.IncPtr] by {
      assert payload[..6][..5] == payload[..5];
    }
    assert LexSpec(payload[..7]) == [OpCode.Write, OpCode.Dec, OpCode.Inc, OpCode.LoopStart, OpCode.LoopStop, OpCode.IncPtr] by {
      assert payload[..7][..6] == payload[..6];
    }
    assert LexSpec(payload[..8]) == [OpCode.Write, OpCode.Dec, OpCode.Inc, OpCode.LoopStart, OpCode.LoopStop, OpCode.IncPtr, OpCode.DecPtr] by {
      assert payload[..8][..7] == payload[..7];
    }
    assert LexSpec(payload[..9]) == [OpCode.Write, OpCode.Dec, OpCode.Inc, OpCode.LoopStart, OpCode.LoopStop, OpCode.IncPtr, OpCode.DecPtr] by {
      assert payload[..9][..8] == payload[..8];
    }
    assert LexSpec(payload[..10]) == [OpCode.Write, OpCode.Dec, OpCode.Inc, OpCode.LoopStart, OpCode.LoopStop, OpCode.IncPtr, OpCode.DecPtr, OpCode.Read] by {
      assert payload[..10][..9] == payload[..9];
    }
    assert payload[..10] == payload;
    output := Lex(payload);
  }

  /** Six plain opcodes and one loop around `+ -`. */
  method ParseTest() returns (output: Result<seq<Instruction>>)
    ensures output == Ok([Instruction.IncPtr, Instruction.DecPtr, Instruction.Write,
                          Instruction.Read, Instruction.Inc, Instruction.Dec,
                          Loop([Instruction.Inc, Instruction.Dec])])
  {
    var payload := [OpCode.IncPtr, OpCode.DecPtr, OpCode.Write, OpCode.Read,
                    OpCode.Inc, OpCode.Dec, OpCode.LoopStart, OpCode.Inc,
                    OpCode.Dec, OpCode.LoopStop];
    var canary := [Instruction.IncPtr, Instruction.DecPtr, Instruction.Write,
                   Instruction.Read, Instruction.Inc, Instruction.Dec,
                   Loop([Instruction.Inc, Instruction.Dec])];
    assert Flatten(canary) == payload;
    FlattenBalanced(canary);
    output := Parse(payload);
    FlattenInjective(output.value, canary);
  }

  /** `+ ] [` fails at the `]`, index 1, before the `[` is seen. */
  method ParseCloseFirst() returns (output: Result<seq<Instruction>>)
    ensures output == Err(UnbalancedLoopEnd(1))
  {
    var payload := [OpCode.Inc, OpCode.LoopStop, OpCode.LoopStart];
    DepthStep(payload, 0);
    DepthStep(payload, 1);
    assert payload[..0] == [];
    output := Parse(payload);
    if output.Err? && output.error.UnbalancedLoopEnd? {
      FirstUnmatchedCloseUnique(payload, output.error.at, 1);
    }
  }

  /** `[ ] [ [ ]` fails at index 2: the outermost `[` still open, not the
      innermost one. */
  method ParseOpenOutermost() returns (output: Result<seq<Instruction>>)
    ensures output == Err(UnbalancedLoopStart(2))
  {
    var payload := [OpCode.LoopStart, OpCode.LoopStop, OpCode.LoopStart,
                    OpCode.LoopStart, OpCode.LoopStop];
    forall k | 0 <= k < |payload| ensures Depth(payload[..k + 1]) == Depth(payload[..k]) + Delta(payload[k]) {
      DepthStep(payload, k);
    }
    assert payload[..0] == [] && payload[..5] == payload;
    assert Depth(payload[..1]) == 1 && Depth(payload[..2]) == 0 && Depth(payload[..3]) == 1;
    assert Depth(payload[..4]) == 2 && Depth(payload) == 1;
    assert NeverNegative(payload) && OutermostUnclosedOpen(payload, 2);
    output := Parse(payload);
    if output.Err? && output.error.UnbalancedLoopStart? {
      OutermostUnclosedOpenUnique(payload, output.error.at, 2);
    }
  }
}
