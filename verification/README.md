# Brainfuck lexer and parser, modelled in Dafny

This project models the two working stages of a small Brainfuck interpreter
written in Rust (`src/main.rs`):

- **lex** turns source text into opcodes. It keeps exactly the eight
  characters `> < + - . , [ ]`, maps each one to its `OpCode` (`IncPtr`,
  `DecPtr`, `Inc`, `Dec`, `Write`, `Read`, `LoopStart`, `LoopStop`) in order,
  and drops every other character.
- **parsebf** turns the flat opcodes into a tree of `Instruction`s. It scans
  with a nesting counter (`loop_stack`) and the index of the current
  outermost `[` (`loop_start`). At depth zero a plain opcode becomes the
  same-named instruction. When the counter comes back to zero, the opcodes
  strictly between the two brackets are parsed recursively and wrapped in
  `Loop`. A `]` at depth zero is an error reported at its index. A `[` still
  open at the end is an error reported at the index of the outermost one.

Files:

- `syntax.dfy` (module `Syntax`): the `OpCode` and `Instruction` datatypes.
  It also holds `Flatten`, which writes a tree back out as opcodes (a loop
  becomes `[`, its flattened body, `]`), and `Depth`, the count of `[` minus
  `]`. `Balanced` says that no prefix has negative depth and the whole
  sequence has depth zero.
- `lexer.dfy` (module `Lexer`): `Recognise` is the per-character match. The
  `Lex` method is the scanning loop. `LexSpec` is the filter-and-map it is
  proved equal to. The lemmas state the lexer's properties.
- `parser.dfy` (module `Parser`): the `Parse` method is the scanning loop
  with its two counters and the recursive call on the inner slice. The
  lemmas make its contract a full characterisation.
- `examples.dfy` (module `Examples`): the repository's two unit tests. It
  also has one input for each kind of parse error. Each expected result is
  proved from the contracts of `Lex` and `Parse`.

The two `panic!`s of `parsebf` become `Err(UnbalancedLoopEnd(i))` and
`Err(UnbalancedLoopStart(loop_start))` in a `Result`. The success value is
`Ok(program)`.

`Parse`'s contract determines its result completely:

- it succeeds exactly on balanced input, and the tree flattens back to the
  input;
- `FlattenInjective` shows that only one tree flattens to a given sequence;
- `FlattenBalanced` shows that every flattened tree is accepted;
- each error index satisfies a predicate that at most one index can meet
  (`FirstUnmatchedCloseUnique`, `OutermostUnclosedOpenUnique`).

The recursive call in the source cannot fail, because the inner slice is
balanced (`InnerBalanced`). The model therefore has no error path out of
the recursion.

`parsebf` puts no limit on the nesting depth of its recursion, so the model
has none either.

## Model

| member | source | states |
|---|---|---|
| `Lexer.Recognise` | src/main.rs:35-45 | a character yields an opcode exactly when it is one of `> < + - . , [ ]` |
| `Lexer.Symbol` | src/main.rs:35-45 | each opcode has a character that `Recognise` maps back to that same opcode, so no opcode is unreachable from source text |
| `Lexer.Lex` | src/main.rs:27-54 | the scanning loop returns the recognised characters of the input, in order, each mapped to its opcode (`LexSpec`) |
| `Lexer.LexAppend` | src/main.rs:34-53 | lexing distributes over concatenation: `lex(a + b) == lex(a) + lex(b)` |
| `Lexer.LexLength` | src/main.rs:34-51 | the output has exactly one opcode per position holding a recognised character, and so is at most as long as the input |
| `Lexer.LexEmptyIff` | src/main.rs:34-51 | the output is empty exactly when the input holds no recognised character |
| `Lexer.LexIgnores` | src/main.rs:44-50 | inserting an unrecognised character anywhere does not change the output |
| `Lexer.LexUnlex` | src/main.rs:34-51 | lexing the text written out from any opcode sequence gives that sequence back, so no opcode is lost, added or reordered |
| `Parser.Parse` | src/main.rs:56-102 | succeeds exactly on balanced input, and then the tree flattens back to the input; otherwise it reports the first `]` that closes past depth zero, or, when no prefix goes below zero, the outermost `[` still open at the end |
| `Parser.InnerBalanced` | src/main.rs:86-91 | the slice strictly between a depth-zero `[` and the `]` that brings the counter back to zero is balanced, so the recursive call succeeds |
| `Parser.AppendPlain` | src/main.rs:63-80 | pushing the instruction of a plain opcode at depth zero keeps the flattened program equal to the opcodes scanned so far |
| `Parser.AppendLoop` | src/main.rs:89-91 | pushing the `Loop` built from the inner slice keeps the flattened program equal to the opcodes scanned so far, brackets included |
| `Parser.FlattenBalanced` | src/main.rs:61-101 | every tree flattens to a balanced sequence, so every tree is what `Parse` returns for its flattening |
| `Parser.FlattenOneBalanced` | src/main.rs:82-91 | a single instruction, a loop included, flattens to a balanced sequence |
| `Parser.FlattenInjective` | src/main.rs:61-101 | two trees with the same flattening are equal, so the tree `Parse` returns is the only one that flattens to its input |
| `Parser.Wrap` | src/main.rs:83-91 | putting brackets around a balanced sequence keeps it balanced, and every point strictly inside is at depth one or more |
| `Parser.SplitLoops` | src/main.rs:86-91 | the `]` that closes a leading `[` is found at the same place whatever follows, so a bracketed block at the head of a sequence is determined by the sequence |
| `Parser.FirstUnmatchedCloseUnique` | src/main.rs:62-75 | at most one index meets the condition reported as "unbalanced loop end" |
| `Parser.OutermostUnclosedOpenUnique` | src/main.rs:70-98 | at most one index meets the condition reported as "unbalanced loop start" |
| `Syntax.DepthAppend` | src/main.rs:72-87 | the nesting depth of a concatenation is the sum of the depths of its parts |
| `Syntax.FlattenAppend` | src/main.rs:78-90 | flattening distributes over concatenation of programs |
| `Examples.LexTest` | src/main.rs:116-133 | lexing `.-+[]> <#,` gives `Write, Dec, Inc, LoopStart, LoopStop, IncPtr, DecPtr, Read` |
| `Examples.ParseTest` | src/main.rs:135-161 | parsing the test's ten opcodes gives six plain instructions followed by `Loop([Inc, Dec])` |
| `Examples.ParseCloseFirst` | src/main.rs:75 | parsing `+ ] [` fails with "unbalanced loop end" at index 1 |
| `Examples.ParseOpenOutermost` | src/main.rs:97-98 | parsing `[ ] [ [ ]` fails with "unbalanced loop start" at index 2, the outermost `[` still open |

## Left out

- `runbf` (src/main.rs:104-107) returns an empty string and `main` is empty. There is no evaluator, tape or I/O to model, and the Hello-World test that uses them is disabled.
- Panic messages and the process abort are not modelled. A parse error is returned as an `Err` value carrying the reported index.
- `loop_stack` is an `i32` in the source. The model uses an unbounded integer, so overflow after more than 2^31 - 1 nested `[` is not modelled.
- `chars()` decodes UTF-8 into Unicode scalar values. The model takes the input as a `seq<char>` and does not model the decoding.
- The vectors the source allocates and copies (`to_vec` of the inner slice) are modelled as immutable sequences.
