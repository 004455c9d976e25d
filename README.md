# HOHOHO! to Brainfuck, in Dafny

A model of the `hohoho` library (`src/lib.rs`), which reads programs written
in HOHOHO! and turns them into Brainfuck. A HOHOHO! program is a sequence of
six-letter triplets of `H` and `O`/`o` (`HOHOHO`, `HoHoHo`, …), one per
Brainfuck command, with whitespace allowed anywhere.

The model follows the library's structure:

- `Commands` — the eight commands, their triplets (`Display`), the partial
  inverse `from_str`, the Brainfuck character of each command, the `Error`
  variants and `Program`.
- `Text` — which characters count as whitespace, the UTF-8 width of a
  character, the byte length of a string, and the text with its whitespace
  removed.
- `Tokenizer` — how the iterator's loop cuts the non-whitespace characters
  into tokens: a token is cut when the buffer reaches exactly six **bytes**.
- `Decoder` — the pure specification of the iterator: each token is
  decoded, a loop opener adds one to a depth counter and a closer removes
  one, the first error ends everything, and at the end of the input a
  positive depth is an error. Next to it is an independent reference
  (`Spelled`, `Depth`, `NoOrphan`, `Balanced`) and lemmas that characterise
  each of the four outcomes in both directions.
- `ParseIter` — `TripletParseIter` as a class with the iterator's fields
  (source position, `command_buf`, `jump_stack`, `done`) and methods
  `TryMatchTriplet` and `Next`, and `Program::parse` as a loop over `Next`.
  All of them are proved against `Decoder`.
- `Transpiler` — the Brainfuck string built by `to_brainfuck`.
- `Properties` — what parsing a source text gives: round trips, whitespace,
  each error, dropped trailing text, and the bracket balance of the
  Brainfuck string.

The buffer length is measured the way the code measures it, which differs
from the informal "six characters" description. `command_buf.len()` at
`src/lib.rs:152` is the length of a Rust `String` in UTF-8 bytes, so the
model counts bytes. There is one consequence of this. A multi-byte
character can take the buffer from fewer than six bytes to more than six.
When that happens, the `== 6` test never succeeds again and the rest of the
source is consumed without a token being produced. `OverrunSwallows` and
`ExampleOverrun` state this behaviour.

Whitespace is Rust's `char::is_whitespace`, which is the Unicode White_Space
property. The model fixes it as the list of those code points:

- U+0009..U+000D
- U+0020
- U+0085
- U+00A0
- U+1680
- U+2000..U+200A
- U+2028, U+2029
- U+202F
- U+205F
- U+3000

## Model

| member | source | states |
|---|---|---|
| Commands.Triplet | src/lib.rs:47-61 | every command's text is six letters, `H` in the odd (first, third, fifth) places and `O`/`o` in the even ones |
| Commands.TripletInjective | src/lib.rs:51-58 | the eight triplets are pairwise distinct |
| Commands.FromStr | src/lib.rs:64-76 | a `Some` result is the command whose triplet is the input; `None` means the input is no command's triplet |
| Commands.FromStrTriplet | src/lib.rs:64-76 | `from_str` of a command's triplet gives back that command |
| Commands.FromStrIff | src/lib.rs:65-74 | `from_str(s) == Some(c)` exactly when `s` is the triplet of `c` |
| Commands.TripletOnto | src/lib.rs:65-74 | conversely, every six-letter string with `H` in the odd places and `O`/`o` in the even ones is accepted by `from_str`: the three case choices pick out exactly one command |
| Commands.AsBrainfuck | src/lib.rs:79-90 | each command maps to one of `+-><[].,`; only `JumpForward` maps to `[` and only `JumpBackward` maps to `]` |
| Commands.AsBrainfuckInjective | src/lib.rs:80-89 | distinct commands map to distinct characters |
| Commands.Encode | src/lib.rs:47-61 | the text of a command sequence has six characters per command, and character `6i+k` is character `k` of the `i`-th triplet |
| Text.IsWhitespace | src/lib.rs:146 | the `c.is_whitespace()` test, as the fixed list of White_Space code points given above. It has no contract; its use is in `Strip` and the lemmas about it |
| Text.Utf8Width | src/lib.rs:152 | a character takes 1 to 4 bytes in UTF-8: 1 exactly below U+0080, 4 exactly from U+10000 |
| Text.ByteLen | src/lib.rs:152 | the byte length of a string is between its character count and four times that |
| Text.ByteLenConcat | src/lib.rs:150-152 | byte length adds up over concatenation, so each pushed character adds its own width |
| Text.ByteLenAscii | src/lib.rs:152 | for ASCII text, byte length equals character count |
| Text.Strip | src/lib.rs:146-148 | removing whitespace never lengthens the text |
| Text.StripConcat | src/lib.rs:145-150 | whitespace removal works character by character |
| Text.StripHasNoWhitespace | src/lib.rs:146-148 | no whitespace reaches the buffer |
| Text.StripNoWhitespace | src/lib.rs:146-150 | text without whitespace is kept as it is |
| Text.StripAllWhitespace | src/lib.rs:146-148 | text made only of whitespace contributes nothing |
| Text.StripIdempotent | src/lib.rs:146-148 | skipping whitespace twice is skipping it once |
| Tokenizer.Group | src/lib.rs:145-161 | the cutting loop carried on over all `next` calls: push each character, cut a token when the buffer is exactly six bytes, drop a partial buffer at the end. It has no contract; its meaning is given by GroupTokens, GroupCut, GroupEncode, GroupShort, GroupOverrun and GroupJump |
| Tokenizer.Tokens | src/lib.rs:143-161 | the tokens of a source: the non-whitespace characters cut by `Group`, starting from an empty buffer. It has no contract; its meaning is given by Properties.TokensShape and Properties.TokensEncode |
| Tokenizer.GroupTokens | src/lib.rs:145-161 | every token is six bytes; the tokens read back to back are a prefix of the buffered text; no token holds whitespace |
| Tokenizer.GroupCut | src/lib.rs:150-159 | a buffer that reaches exactly six bytes is cut off as a token there, and scanning restarts with an empty buffer |
| Tokenizer.GroupEncode | src/lib.rs:145-161 | the text of a command sequence is cut into exactly its triplets |
| Tokenizer.GroupShort | src/lib.rs:145-161 | under six bytes left, counting the buffer: no more tokens |
| Tokenizer.GroupOverrun | src/lib.rs:152 | once the buffer is over six bytes, no token is ever cut again |
| Tokenizer.GroupJump | src/lib.rs:150-152 | a character that takes the buffer from under six bytes to over six ends all tokenizing |
| Decoder.DecodeToken | src/lib.rs:114-132 | `try_match_triplet` on a buffer at a stack height: the item and the new height. It has no contract; its meaning is given by DecodeTokenValid and DecodeTokenOutcome, and `TryMatchTriplet` is proved equal to it |
| Decoder.Decode | src/lib.rs:138-171 | the items of `next` over all tokens, collected up to the first error as `collect` does at src/lib.rs:176. It has no contract; its meaning is given by DecodeOk, DecodeUnclosed, DecodeOrphan and DecodeInvalid |
| Decoder.Parsed | src/lib.rs:175-179 | what `Program::parse` returns for a source, as commands: `Decode` of its tokens from height zero. It has no contract; `Parse` is proved equal to it, and the Properties lemmas state what it gives |
| Decoder.Spelled | src/lib.rs:64-76 | a `Some` result is a command sequence whose triplets are exactly the tokens |
| Decoder.DepthCounts | src/lib.rs:117-124 | the depth of a command sequence is the number of openers minus the number of closers |
| Decoder.OpenFromPrefixes | src/lib.rs:117-124 | the step-by-step depth check is the same as requiring every prefix to leave a non-negative depth |
| Decoder.DecodeTokenValid | src/lib.rs:114-132 | a triplet decodes to its command and moves the depth by that command's delta, provided the depth stays non-negative |
| Decoder.DecodeTokenOutcome | src/lib.rs:114-132 | a successful token step decodes the token and adds its delta; `MissingHOHoHo` only comes from a closer at depth 0; `InvalidTriplet` carries the token itself, which is no triplet |
| Decoder.DecodeAppend | src/lib.rs:114-132 | decoding the triplets of a command sequence that is never over-closed yields those commands, then what follows, at their final depth |
| Decoder.DecodeOkOutcome | src/lib.rs:163-170 | a successful decode has valid tokens, never over-closes, and ends at depth zero |
| Decoder.DecodeUnclosedOutcome | src/lib.rs:163-166 | an unclosed report has valid tokens, never over-closes, and reports the positive final depth |
| Decoder.DecodeOrphanOutcome | src/lib.rs:120-123 | an orphan report points at a closer reached at depth zero with every earlier token valid |
| Decoder.DecodeInvalidOutcome | src/lib.rs:129-131 | an invalid report points at the first token that is not a triplet, reached with no orphan closer before it |
| Decoder.DecodeBalanced | src/lib.rs:175-179 | the triplets of a balanced command sequence decode to that sequence |
| Decoder.DecodeOk | src/lib.rs:175-179 | decoding succeeds with `cs` exactly when the tokens are the triplets of `cs` and `cs` is balanced |
| Decoder.DecodeUnclosed | src/lib.rs:163-166 | `MissingHoHoHO(n)` exactly when every token is valid, nothing over-closes and `n > 0` loops are left open |
| Decoder.DecodeSplit | src/lib.rs:138-171 | a valid, never over-closed prefix of the tokens is decoded to its commands, and decoding carries on after it at its depth |
| Decoder.DecodeOrphan | src/lib.rs:120-123 | `MissingHOHoHo` exactly when some closer is reached at depth zero with every earlier token valid; later tokens play no part |
| Decoder.DecodeInvalid | src/lib.rs:129-131 | `InvalidTriplet(t)` exactly when `t` is the first bad token and no orphan closer comes before it |
| ParseIter.TripletParseIter.constructor | src/lib.rs:105-112 | a new iterator starts at the beginning with an empty buffer and stack, not done, and what it will yield is the parse of the source |
| ParseIter.TripletParseIter.TryMatchTriplet | src/lib.rs:114-132 | the result and the new stack height are the decoding of the buffer at the old height: push on an opener, pop on a closer, `MissingHOHoHo` on an empty stack, `InvalidTriplet` with the buffer's text for a non-triplet |
| ParseIter.TripletParseIter.FillBuffer | src/lib.rs:145-161 | the buffer holds the non-whitespace characters read; it stops after a non-whitespace character at exactly six bytes, cutting the next token, or at the end of the source with no token left |
| ParseIter.TripletParseIter.EndOfInput | src/lib.rs:163-170 | at the end of the source: `MissingHoHoHO(height)` without setting `done` if loops are open, otherwise `None` and `done` |
| ParseIter.TripletParseIter.Next | src/lib.rs:138-171 | a finished iterator yields `None` and changes nothing. Otherwise `next` cuts the next token, decodes it and sets `done` on an error, or handles the end of input, dropping a partial buffer. What it yields plus what later calls yield is what remained to be yielded |
| ParseIter.ScanStep | src/lib.rs:145-150 | one character of the loop: whitespace is skipped, and any other character is pushed, both in the buffer and in the tokens still to come |
| ParseIter.Parse | src/lib.rs:175-179 | `parse` gives `Ok` exactly when the specification does, with the same commands, and otherwise the same first error |
| Transpiler.ToBrainfuck | src/lib.rs:182 | one Brainfuck character per command, in order, each given by `as_brainfuck` |
| Transpiler.BracketDepthIsDepth | src/lib.rs:182 | the bracket depth of the Brainfuck string is the loop depth of the commands |
| Transpiler.BalancedIffBrackets | src/lib.rs:182 | the commands are balanced exactly when the brackets of the Brainfuck string are |
| Transpiler.ToBrainfuckInjective | src/lib.rs:182 | distinct programs give distinct Brainfuck strings |
| Properties.EncodeNoWhitespace | src/lib.rs:51-58 | the text of a command sequence has no whitespace |
| Properties.TokensEncode | src/lib.rs:145-161 | the text of `cs` followed by any text is cut into the triplets of `cs`, then the tokens of that text |
| Properties.TokensShape | src/lib.rs:145-161 | every token of a source is six bytes without whitespace, and the tokens read back to back are a prefix of the source without its whitespace |
| Properties.ParseEncode | src/lib.rs:175-179 | parsing the text of `cs` gives back `cs` exactly when `cs` is balanced |
| Properties.ParseOk | src/lib.rs:175-179 | `parse` succeeds with `cs` exactly when the tokens are the triplets of `cs` and every prefix of `cs` has at least as many openers as closers, with equal totals |
| Properties.ParseUnclosed | src/lib.rs:163-166 | the text of a command sequence that never over-closes fails with `MissingHoHoHO(n)` exactly when `n` openers are left unclosed, `n > 0` |
| Properties.ParseOrphan | src/lib.rs:120-123 | a closer after a balanced part is an orphan error, whatever text follows |
| Properties.ParseInvalidAfter | src/lib.rs:129-131 | a six-byte non-triplet after a part that never over-closes is the reported error, whatever follows |
| Properties.ParseInvalid | src/lib.rs:129-131 | an `InvalidTriplet` error carries one of the source's tokens: six bytes, no whitespace, no command's triplet |
| Properties.WhitespaceInsignificant | src/lib.rs:146-148 | inserting or removing whitespace anywhere, even inside a triplet, does not change the parse |
| Properties.ParseStrip | src/lib.rs:146-148 | a source and the same source without whitespace parse alike |
| Properties.TrailingDropped | src/lib.rs:163-170 | fewer than six bytes of non-whitespace left at the end are dropped without an error |
| Properties.OverrunSwallows | src/lib.rs:150-152 | a character that takes the buffer past six bytes discards the rest of the source |
| Properties.ParsedBrackets | src/lib.rs:182 | the Brainfuck string of a successful parse has one character per token and balanced brackets |
| Properties.ExampleIncrement | src/lib.rs:51 | `HOHOHO` parses to one increment, which in Brainfuck is `+` |
| Properties.ExampleLoop | src/lib.rs:55-56 | `HOHoHoHoHoHO` parses to an opener and a closer, `[]` in Brainfuck |
| Properties.ExampleOrphan | src/lib.rs:120-123 | `HoHoHO` alone fails with `MissingHOHoHo` |
| Properties.ExampleUnclosed | src/lib.rs:163-166 | `HOHoHo` fails with `MissingHoHoHO(1)`, and so does `HOHoHoab` |
| Properties.ExampleInvalid | src/lib.rs:129-131 | `ABCDEF` fails with `InvalidTriplet("ABCDEF")` |
| Properties.ExampleWhitespace | src/lib.rs:146-148 | a line break inside `HOHOHO` changes nothing |
| Properties.ExampleOverrun | src/lib.rs:152 | in `HOHOH` + `é` + `HoHoHO`, the two-byte `é` takes the buffer to seven bytes, so the closer is never read and the parse is empty |

## Left out

- `src/bin/hohoho.rs`, the command-line program. It parses arguments, reads files, prints and runs the interpreter, and is not part of this model.
- `brainfuck::program::Program::parse` and the Brainfuck interpreter belong to an external crate whose source is not part of this model. `to_brainfuck` is modelled up to the string it passes to that parser.
- `fmt::Display for Error` and the `thiserror` derive are message formatting and are left out. The error variants themselves are modelled.
- Text.IsWhitespace: a fixed list of the White_Space code points. Changes to that property in later Unicode versions are not tracked.
- The `Chars<'a>` borrow is modelled as the source string plus a position. Lifetimes have no counterpart.
- `next`'s `for` loop is written as the method `FillBuffer`, and its end-of-input code as `EndOfInput`. `Next` calls both, and the statements and their order are those of the source.
- `jump_stack` is a `Vec<()>` and is modelled as a sequence of units. Only its length matters.
- Integer widths: the stack height, a `usize` in the source, is an unbounded `nat` here. It cannot wrap in the source either. Each push needs a six-byte opener token of the source `&str`, whose length is at most `isize::MAX` bytes, so the height stays below `isize::MAX / 6`. The `Vec<()>` itself takes no memory, so memory is not what bounds it.
