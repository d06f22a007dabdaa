/** The lexer: source text to opcodes. Exactly the eight characters
    `> < + - . , [ ]` are kept, in order; every other character is dropped. */
module Lexer {
  import opened Syntax

  /** The opcode a single source character stands for, if any. */
  function Recognise(c: char): (r: Option<OpCode>)
    ensures r.Some? <==>
      c == '>' || c == '<' || c == '+' || c == '-' || c == '.' || c == ',' || c == '[' || c == ']'
  {
    match c
    case '>' => Some(OpCode.IncPtr)
    case '<' => Some(OpCode.DecPtr)
    case '+' => Some(OpCode.Inc)
    case '-' => Some(OpCode.Dec)
    case '.' => Some(OpCode.Write)
    case ',' => Some(OpCode.Read)
    case '[' => Some(OpCode.LoopStart)
    case ']' => Some(OpCode.LoopStop)
    case _ => None
  }

  /** The character an opcode is written as; `Recognise` maps it back. */
  function Symbol(op: OpCode): (c: char)
    ensures Recognise(c) == Some(op)
  {
    match op
    case IncPtr => '>'
    case DecPtr => '<'
    case Inc => '+'
    case Dec => '-'
    case Write => '.'
    case Read => ','
    case LoopStart => '['
    case LoopStop => ']'
  }

  /** The opcodes of `code`: its recognised characters, in order, each mapped
      through `Recognise`. */
  function LexSpec(code: seq<char>): seq<OpCode>
  {
    if code == [] then []
    else
      var last := code[|code| - 1];
      LexSpec(code[..|code| - 1]) + (match Recognise(last) case Some(op) => [op] case None => [])
  }

  /** Scans `code` one character at a time, appending each recognised
      character's opcode to the output. */
  method Lex(code: seq<char>) returns (operations: seq<OpCode>)
    ensures operations == LexSpec(code)
  {
    operations := [];
    var i := 0;
    while i < |code|
      invariant 0 <= i <= |code|
      invariant operations == LexSpec(code[..i])
    {
      var symbol := code[i];
      assert code[..i + 1][..i] == code[..i];
      match Recognise(symbol) {
        case Some(operation) => operations := operations + [operation];
        case None =>
      }
      i := i + 1;
    }
    assert code[..i] == code;
  }

  /** The positions of `code` that hold a recognised character. */
  ghost function RecognisedPositions(code: seq<char>): set<nat>
  {
    set i: nat | i < |code| && Recognise(code[i]).Some?
  }

  /** Lexing distributes over concatenation of source texts. */
  lemma {:induction false} LexAppend(a: seq<char>, b: seq<char>)
    ensures LexSpec(a + b) == LexSpec(a) + LexSpec(b)
    decreases |b|
  {
    if b == [] {
      assert a + b == a;
    } else {
      var n := |b| - 1;
      assert (a + b)[..|a + b| - 1] == a + b[..n];
      assert (a + b)[|a + b| - 1] == b[n];
      LexAppend(a, b[..n]);
    }
  }

  /** Extending a text by one character adds that position to the
      recognised ones exactly when the character is recognised. */
  lemma RecognisedPositionsSnoc(code: seq<char>)
    requires code != []
    ensures var n := |code| - 1;
      RecognisedPositions(code) ==
        RecognisedPositions(code[..n]) + (if Recognise(code[n]).Some? then {n} else {})
  {
    var n := |code| - 1;
    forall i: nat | i < n ensures code[..n][i] == code[i] {
    }
  }

  /** One opcode per recognised character: the output is exactly as long as
      the number of recognised positions, hence never longer than the input. */
  lemma {:induction false} LexLength(code: seq<char>)
    ensures |LexSpec(code)| == |RecognisedPositions(code)| <= |code|
    decreases |code|
  {
    if code != [] {
      var n := |code| - 1;
      LexLength(code[..n]);
      RecognisedPositionsSnoc(code);
      assert n !in RecognisedPositions(code[..n]);
    }
  }

  /** A text lexes to nothing exactly when it holds no recognised character. */
  lemma {:induction false} LexEmptyIff(code: seq<char>)
    ensures LexSpec(code) == [] <==> forall i :: 0 <= i < |code| ==> Recognise(code[i]).None?
  {
    LexLength(code);
    if LexSpec(code) != [] {
      assert RecognisedPositions(code) != {};
      var i :| i in RecognisedPositions(code);
      assert Recognise(code[i]).Some?;
    } else {
      forall i | 0 <= i < |code| ensures Recognise(code[i]).None? {
        assert i !in RecognisedPositions(code);
      }
    }
  }

  /** An unrecognised character may be inserted anywhere without changing
      the opcodes. */
  lemma LexIgnores(a: seq<char>, c: char, b: seq<char>)
    requires Recognise(c).None?
    ensures LexSpec(a + [c] + b) == LexSpec(a + b)
  {
    LexAppend(a + [c], b);
    LexAppend(a, [c]);
    LexAppend(a, b);
    assert LexSpec([c]) == LexSpec([]) + [];
  }

  /** The text written out from opcodes, one character per opcode. */
  function Unlex(ops: seq<OpCode>): seq<char>
  {
    seq(|ops|, k requires 0 <= k < |ops| => Symbol(ops[k]))
  }

  /** Lexing undoes writing out: no opcode is lost, added or reordered. */
  lemma {:induction false} LexUnlex(ops: seq<OpCode>)
    ensures LexSpec(Unlex(ops)) == ops
    decreases |ops|
  {
    if ops != [] {
      var n := |ops| - 1;
      assert Unlex(ops)[..n] == Unlex(ops[..n]);
      LexUnlex(ops[..n]);
      assert ops == ops[..n] + [ops[n]];
    }
  }
}
