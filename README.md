# Svelte's expression reader, modelled in Dafny

The Svelte template parser reads embedded JavaScript expressions with
`read_expression`. It does not parse expressions itself. It runs the
JavaScript grammar parser (acorn) at the cursor. Then it reconciles acorn's
node with the template around it:

- it resyncs the cursor past leading comments acorn skipped;
- it counts the wrapping `(` that lie outside the node's span;
- it absorbs a trailing comment;
- it consumes the matching `)`.

Finally it moves `parser.index` to where template parsing resumes. In loose
mode (editor tooling) a failure may instead yield an empty placeholder
`Identifier`, found by `get_loose_identifier` through the bracket matcher.

Files:

- `wrappers.dfy`: `Option` and `Result`, used in place of `undefined` and
  exceptions.
- `expression.dfy` (module `ExpressionReader`): the data model, one function
  per reconciliation step, one read-only method per loop of the source, and
  the class `Parser`. Its method `GetLooseIdentifier` updates `index` in
  place; `TryReadExpression` and `ReadExpression` update `index` and
  `comments`.
- `expression_properties.dfy` (module `ExpressionReaderProperties`): the
  properties, the worked examples and the replay client.

Collaborators are parameters of `ReadExpression`:

- the grammar parser is a function from (template, offset) to either a node
  with the comments it appended, or an error position with the comments it
  appended;
- the bracket matcher is a function from (template, offset, opening token) to
  an optional offset.

The model calls each at the offsets the source passes them. So the matcher
is asked from the *current* cursor, which the comment resync may already have
moved.

## Model

| member | source | states |
|---|---|---|
| `ExpressionReader.LastEndingBefore` | packages/svelte/src/compiler/phases/1-parse/read/expression.js:48-55 | The resync picks the highest-indexed comment at or after `comment_index` whose end is strictly before `node.start`; no later new comment qualifies; if none is picked, no new comment qualifies |
| `ExpressionReader.LastCommentEndingBefore` | packages/svelte/src/compiler/phases/1-parse/read/expression.js:48-55 | The backward `while (i-- > comment_index)` loop with its `break` finds exactly that comment |
| `ExpressionReaderProperties.ResyncTarget` | packages/svelte/src/compiler/phases/1-parse/read/expression.js:48-55 | After the resync the cursor is the end of the last new comment ending before the node, or unchanged when there is none |
| `ExpressionReaderProperties.ResyncIgnoresOlderComments` | packages/svelte/src/compiler/phases/1-parse/read/expression.js:37-55 | Comments recorded before `comment_index` never affect the resync |
| `ExpressionReader.Resync` | packages/svelte/src/compiler/phases/1-parse/read/expression.js:48-55 | The cursor after the resync is either unchanged or the end of a new comment that ends before `node.start`; when such a comment exists it is strictly before `node.start` |
| `ExpressionReader.Occurrences` | packages/svelte/src/compiler/phases/1-parse/read/expression.js:57-59 | The count of a character over `[lo, hi)` is at most `hi - lo`, and 0 when `lo >= hi` |
| `ExpressionReader.CountOpenParens` | packages/svelte/src/compiler/phases/1-parse/read/expression.js:57-59 | The `for` loop's `num_parens` is the number of `(` in `template[index .. node.start)`; offsets past the end read `undefined` and count nothing |
| `ExpressionReaderProperties.OccurrencesIsMultiplicity` | packages/svelte/src/compiler/phases/1-parse/read/expression.js:57-59 | Over an in-range slice that count equals the multiplicity of `(` in the slice |
| `ExpressionReaderProperties.OccurrencesPastEnd` | packages/svelte/src/compiler/phases/1-parse/read/expression.js:57-59 | Scanning past the end of the template adds nothing to the count |
| `ExpressionReader.TrailingEnd` | packages/svelte/src/compiler/phases/1-parse/read/expression.js:61-64 | The scan starts at the later of `node.end` and the end of the last comment of the whole list |
| `ExpressionReader.IsWhitespace` | packages/svelte/src/compiler/phases/1-parse/read/expression.js:71 | `regex_whitespace` as ECMAScript's `\s`: space, tab, line feed and carriage return are whitespace; `(` and `)` never are, so the tests at lines 69 and 71 do not overlap |
| `ExpressionReader.Skippable` | packages/svelte/src/compiler/phases/1-parse/read/expression.js:67-73 | A read past the end (`undefined`) is never stepped over, so the loop raises there; `)` and space are stepped over |
| `ExpressionReader.ConsumeClose` | packages/svelte/src/compiler/phases/1-parse/read/expression.js:66-76 | Consumption never moves back; with no open paren it does not move; with open parens it stops inside the template; an error is "expected `)`" at or after the start |
| `ExpressionReader.ConsumeClosingParens` | packages/svelte/src/compiler/phases/1-parse/read/expression.js:66-76 | The `while (num_parens > 0)` loop returns what `ConsumeClose` specifies, including the error at the offending offset |
| `ExpressionReaderProperties.ConsumeCloseOkIff` | packages/svelte/src/compiler/phases/1-parse/read/expression.js:66-78 | Consumption ends at `e` if and only if everything passed is `)` or whitespace, exactly `num_parens` are `)`, and the last one passed is `)` (or nothing is passed when no paren is open) |
| `ExpressionReaderProperties.ConsumeCloseErrIff` | packages/svelte/src/compiler/phases/1-parse/read/expression.js:66-73 | Consumption raises "expected `)`" at `q` if and only if a paren is open, `[start, q)` is `)` or whitespace with too few `)`, and `q` holds neither (the end of the template, `undefined`, included) |
| `ExpressionReaderProperties.PlainCase` | packages/svelte/src/compiler/phases/1-parse/read/expression.js:48-80 | With no new comment before the node, no `(` before it and no comment ending after it, the node is returned and the cursor lands on `node.end`, in every mode |
| `ExpressionReaderProperties.SuccessShape` | packages/svelte/src/compiler/phases/1-parse/read/expression.js:61-80 | A success returns acorn's own node, and the cursor is where the counted parens close; so it is at least `node.end` and at least the last comment's end |
| `ExpressionReaderProperties.ParenError` | packages/svelte/src/compiler/phases/1-parse/read/expression.js:52-73 | The read raises "expected `)`" at `q` exactly when acorn gave a node and the parens fail to close at `q`; the cursor is then left at the resynced offset |
| `ExpressionReader.TryRead` | packages/svelte/src/compiler/phases/1-parse/read/expression.js:36-80 | The `try` block: the comment list gains acorn's comments on both paths; a grammar error leaves the cursor where it was; a success returns acorn's node with the cursor at or past `node.end`; any other error is "expected `)`" with the cursor at the resynced offset (with `SuccessShape`, `ParenError` and `PlainCase` for the exact landing point) |
| `ExpressionReader.OpeningToken` | packages/svelte/src/compiler/phases/1-parse/read/expression.js:15 | `opening_token ?? '{'`: the given token, or `{` when none is given |
| `ExpressionReader.LooseIdentifier` | packages/svelte/src/compiler/phases/1-parse/read/expression.js:15-26 | A placeholder exists exactly when the matcher's `end` is truthy (present and not 0); it is an `Identifier` named `""` from the cursor to `end` |
| `ExpressionReader.Parser.GetLooseIdentifier` | packages/svelte/src/compiler/phases/1-parse/read/expression.js:13-27 | On a truthy `end` the cursor moves onto `end` and the placeholder starts at the old cursor; otherwise nothing is returned and the cursor is unchanged |
| `ExpressionReader.Recover` | packages/svelte/src/compiler/phases/1-parse/read/expression.js:81-91 | A success stands; an error is replaced only when `loose && !disallow_loose` and the matcher's answer is truthy, and then by a placeholder from the cursor to the closer; in every other case the error propagates and the cursor stays put |
| `ExpressionReader.Parser.TryReadExpression` | packages/svelte/src/compiler/phases/1-parse/read/expression.js:36-80 | The `try` block leaves the value, cursor and comment list that `TryRead` gives: acorn's comments appended (on its error path too), the cursor resynced, then past the closing parens on success, or left where the error found it |
| `ExpressionReader.Parser.ReadExpression` | packages/svelte/src/compiler/phases/1-parse/read/expression.js:35-93 | The returned or raised value, the new cursor and the new comment list are those of the attempt followed by recovery, with the matcher asked from the cursor as the attempt left it |
| `ExpressionReaderProperties.PlaceholderStartsAtResync` | packages/svelte/src/compiler/phases/1-parse/read/expression.js:48-88 | When an unclosed paren is recovered from, the placeholder starts at the resynced cursor |
| `ExpressionReaderProperties.CursorMonotone` | packages/svelte/src/compiler/phases/1-parse/read/expression.js:35-93 | For a grammar parser that starts at or after the cursor and stays in the template, and a matcher that answers forward, the cursor never moves back and never leaves the template |
| `ExpressionReaderProperties.ParenthesizedExpression` | packages/svelte/src/compiler/phases/1-parse/read/expression.js:57-78 | `(a+b)` with acorn's node at `[1, 4)` ends with the cursor at 5 |
| `ExpressionReaderProperties.UnclosedParenthesis` | packages/svelte/src/compiler/phases/1-parse/read/expression.js:61-73 | `(a+b) /*c*/ ;`, with acorn's node `a+b` at `[1, 4)` and the trailing comment `[6, 11)` it records: the `)` scan starts at 11, past the real `)` at 4, and raises "expected `)`" at the `;` (12) |
| `ExpressionReaderProperties.LeadingComment` | packages/svelte/src/compiler/phases/1-parse/read/expression.js:48-78 | `/* c */ x` resyncs the cursor to 7 and ends it at 9 |
| `ExpressionReaderProperties.PlaceholderAfterComment` | packages/svelte/src/compiler/phases/1-parse/read/expression.js:48-88 | `/*a*/(b) /*c*/ ;}` read from 0 in loose mode, with acorn's node `b` at `[6, 7)` and comments `[0, 5)` and `[9, 14)`: the resync moves the cursor to 5, the `;` at 15 raises, and with the matcher's `}` at 16 the placeholder spans `[5, 16)`, not `[0, 16)` |
| `ExpressionReaderProperties.Replay` | packages/svelte/src/compiler/phases/1-parse/read/expression.js:35-93 | Two fresh parsers over the same template, read from the same offset with the same collaborators, return the same value and leave the same cursor |

Three behaviours of the code are modelled as written:

- Loose recovery does not search from the cursor as it was on entry. It reads
  `parser.index` at line 17. Line 52 may already have moved it to a comment's
  end before line 72 raised. `PlaceholderAfterComment` shows a placeholder
  starting at that comment's end.
- On an error that is not recovered, the cursor is not restored. It stays at
  the resynced offset.
- The trailing-comment step looks at the last comment of the whole list, not
  only at those appended by this call (line 63).
  A trailing comment after the closing `)` moves the start of the `)` scan
  past that `)`; `UnclosedParenthesis` shows the read then raising at the
  next token.

## Left out

- acorn (`parse_expression_at`) is not part of this model. It is a parameter
  returning an outcome: a node, or an error position. Either way it carries
  the comments appended. The `parser.ts` flag it receives is not modelled.
- `find_matching_bracket` is not part of this model. It is a parameter
  returning an optional offset.
- `regex_whitespace` is modelled as ECMAScript's `\s` set (WhiteSpace and
  LineTerminator) in `IsWhitespace`; `patterns.js`, which defines it, is not
  part of this model. `undefined` past the end matches nothing.
- `e.expected_token` and `parser.acorn_error` are not modelled beyond their
  effect: an error value with its position. Message text and the rethrown
  error's class are left out. `acorn_error` is taken to keep the error's
  position.
- Template offsets are JavaScript string indices (UTF-16 code units). The
  model indexes a `seq<char>` and assumes the template is given in the same
  units the collaborators use.
- ESTree node fields other than `type`, `start`, `end` and `name` are not
  modelled. Neither is the rest of the `Parser` object (other `root` fields,
  fragments, the tokenizer state).
- CursorMonotone: holds only under assumptions about the collaborators
  (acorn's node and comments lie between the cursor and the end of the
  template; the matcher answers at or after the offset it searched from).
  The source cannot promise monotonicity without them either.
