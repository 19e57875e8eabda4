/**
 * The template parser's expression reader: it runs the host-language grammar
 * parser at the cursor, then reconciles the node it returns with the template
 * (leading comments the grammar skipped, wrapping parentheses outside the
 * node's span, a trailing comment) and moves the cursor to where template
 * parsing resumes. In loose mode a failure may be replaced by an empty
 * placeholder identifier that reaches up to the closing delimiter.
 */
module ExpressionReader {
  import opened Wrappers

  // ---------------------------------------------------------------------------
  // Data model
  // ---------------------------------------------------------------------------

  /** A comment recorded by the grammar parser: offsets into the template. */
  datatype Comment = Comment(start: nat, end: nat)

  /**
   * An expression node as far as this reader looks at it: its ESTree `type`,
   * its span and, for identifiers, its `name`.
   */
  datatype Expression = Expression(kind: string, start: nat, end: nat, name: string)

  /** The errors the reader can raise. */
  datatype Error =
    | ParseError(pos: nat)                    // raised by the grammar parser
    | ExpectedToken(pos: nat, token: string)  // a wrapping `(` is not closed

  /**
   * What one run of the grammar parser yields: a node, or a syntax error at
   * a position. Either way the comments it met are appended to the shared
   * comment list, so they are recorded on the error path too.
   */
  datatype ParseOutcome =
    | Parsed(node: Expression, appended: seq<Comment>)
    | Failed(pos: nat, appended: seq<Comment>)

  /** The grammar parser, applied to the template and the offset to start at. */
  type GrammarParser = (seq<char>, nat) -> ParseOutcome

  /**
   * The bracket matcher, applied to the template, the offset to search from
   * and the opening token; it yields the offset of the matching closer.
   */
  type BracketMatcher = (seq<char>, nat, string) -> Option<nat>

  /** What a read leaves behind: the value returned or raised, the cursor and the comment list. */
  datatype Reading = Reading(result: Result<Expression, Error>, index: nat, comments: seq<Comment>)

  /** The node that stands for "the expression could not be determined". */
  predicate IsPlaceholder(e: Expression) {
    e.kind == "Identifier" && e.name == ""
  }

  // ---------------------------------------------------------------------------
  // Characters
  // ---------------------------------------------------------------------------

  /** `template[i]` in JavaScript: a character, or `undefined` past the end. */
  function CharAt(t: seq<char>, i: nat): Option<char> {
    if i < |t| then Some(t[i]) else None
  }

  /**
   * The characters matched by the regular expression `\s` of ECMAScript
   * (WhiteSpace and LineTerminator), which the template parser's whitespace
   * pattern tests.
   */
  predicate IsWhitespace(c: char)
    ensures c == ' ' || c == '\t' || c == '\n' || c == '\r' ==> IsWhitespace(c)
    ensures IsWhitespace(c) ==> c != ')' && c != '('
  {
    var u := c as int;
    (0x09 <= u <= 0x0D) || u == 0x20 || u == 0xA0 || u == 0x1680 || (0x2000 <= u <= 0x200A) ||
    u == 0x2028 || u == 0x2029 || u == 0x202F || u == 0x205F || u == 0x3000 || u == 0xFEFF
  }

  /**
   * Whether the close-paren loop may step over the read `c`: a `)` or
   * whitespace. Reading past the end yields `undefined`, which is neither.
   */
  predicate Skippable(c: Option<char>)
    ensures c.None? ==> !Skippable(c)
    ensures c == Some(')') || c == Some(' ') ==> Skippable(c)
  {
    c.Some? && (c.value == ')' || IsWhitespace(c.value))
  }

  /** The number of offsets in `[lo, hi)` that hold `ch`; offsets past the end hold nothing. */
  function Occurrences(t: seq<char>, lo: nat, hi: nat, ch: char): (r: nat)
    decreases hi
    ensures r <= if lo < hi then hi - lo else 0
  {
    if hi <= lo then 0
    else Occurrences(t, lo, hi - 1, ch) + (if CharAt(t, hi - 1) == Some(ch) then 1 else 0)
  }

  // ---------------------------------------------------------------------------
  // The four reconciliation steps, as functions
  // ---------------------------------------------------------------------------

  /**
   * Comment resync: the position in `cs` of the last comment at or after
   * `from` that ends strictly before `bound`, searching from the back.
   */
  function LastEndingBefore(cs: seq<Comment>, from: nat, bound: nat): (r: Option<nat>)
    decreases |cs|
    ensures r.Some? ==> from <= r.value < |cs| && cs[r.value].end < bound
    ensures r.Some? ==> forall j :: r.value < j < |cs| ==> cs[j].end >= bound
    ensures r.None? ==> forall j :: from <= j < |cs| ==> cs[j].end >= bound
  {
    if |cs| <= from then None
    else if cs[|cs| - 1].end < bound then Some(|cs| - 1)
    else LastEndingBefore(cs[..|cs| - 1], from, bound)
  }

  /** The cursor after the resync: the found comment's end, or `index` unchanged. */
  function Resync(index: nat, cs: seq<Comment>, from: nat, bound: nat): (r: nat)
    ensures r == index || exists k :: from <= k < |cs| && cs[k].end < bound && r == cs[k].end
    ensures (exists k :: from <= k < |cs| && cs[k].end < bound) ==> r < bound
  {
    match LastEndingBefore(cs, from, bound)
    case None => index
    case Some(k) => cs[k].end
  }

  /** Where the close-paren scan starts: the node's end, or the last comment's end if that is later. */
  function TrailingEnd(nodeEnd: nat, cs: seq<Comment>): (r: nat)
    ensures r >= nodeEnd && (|cs| > 0 ==> r >= cs[|cs| - 1].end)
    ensures r == nodeEnd || (|cs| > 0 && r == cs[|cs| - 1].end)
  {
    if |cs| > 0 && cs[|cs| - 1].end > nodeEnd then cs[|cs| - 1].end else nodeEnd
  }

  /**
   * Close-paren consumption from `pos` while `n` parentheses are open: each
   * step reads one character, closes one parenthesis on `)`, passes over
   * whitespace and otherwise fails with "expected `)`" at that offset.
   */
  function ConsumeClose(t: seq<char>, pos: nat, n: nat): (r: Result<nat, Error>)
    decreases |t| - pos
    ensures r.Ok? ==> pos <= r.value && (n > 0 ==> r.value <= |t|)
    ensures r.Ok? && n == 0 ==> r.value == pos
    ensures r.Err? ==> r.error == ExpectedToken(r.error.pos, ")") && pos <= r.error.pos
    ensures r.Err? && pos <= |t| ==> r.error.pos <= |t|
  {
    if n == 0 then Ok(pos)
    else if CharAt(t, pos) == Some(')') then ConsumeClose(t, pos + 1, n - 1)
    else if Skippable(CharAt(t, pos)) then ConsumeClose(t, pos + 1, n)
    else Err(ExpectedToken(pos, ")"))
  }

  /**
   * The body of the `try` block: parse, resync past skipped leading
   * comments, count the wrapping parentheses, absorb a trailing comment and
   * consume the closing parentheses. On an error the cursor is where the
   * error found it: unchanged after a grammar error, at the resynced offset
   * after an unclosed parenthesis.
   */
  function TryRead(t: seq<char>, index: nat, comments: seq<Comment>, outcome: ParseOutcome): (r: Reading)
    ensures r.comments == comments + outcome.appended
    ensures outcome.Failed? ==> r.result == Err(ParseError(outcome.pos)) && r.index == index
    ensures r.result.Ok? ==> outcome.Parsed? && r.result.value == outcome.node && r.index >= outcome.node.end
    ensures r.result.Err? && outcome.Parsed? ==>
              r.result.error.ExpectedToken? && r.index == Resync(index, r.comments, |comments|, outcome.node.start)
  {
    match outcome
    case Failed(pos, appended) => Reading(Err(ParseError(pos)), index, comments + appended)
    case Parsed(node, appended) =>
      var cs := comments + appended;
      var resynced := Resync(index, cs, |comments|, node.start);
      var numParens := Occurrences(t, resynced, node.start, '(');
      match ConsumeClose(t, TrailingEnd(node.end, cs), numParens)
      case Ok(e) => Reading(Ok(node), e, cs)
      case Err(err) => Reading(Err(err), resynced, cs)
  }

  /** `end` as `get_loose_identifier` tests it: present and not 0. */
  predicate Truthy(found: Option<nat>) {
    found.Some? && found.value != 0
  }

  /** The placeholder `get_loose_identifier` builds from the cursor and the matcher's answer. */
  function LooseIdentifier(start: nat, found: Option<nat>): (r: Option<Expression>)
    ensures r.Some? <==> Truthy(found)
    ensures r.Some? ==> IsPlaceholder(r.value) && r.value.start == start && r.value.end == found.value
  {
    if Truthy(found) then Some(Expression("Identifier", start, found.value, "")) else None
  }

  /**
   * The `catch` block: when the attempt failed and loose parsing is allowed,
   * a placeholder from the matcher's answer `found` replaces the error and
   * moves the cursor to the closer; otherwise the attempt stands.
   */
  function Recover(a: Reading, loose: bool, disallowLoose: bool, found: Option<nat>): (r: Reading)
    ensures r.comments == a.comments
    ensures a.result.Ok? || !loose || disallowLoose ==> r == a
    ensures r.result.Ok? <==> a.result.Ok? || (loose && !disallowLoose && Truthy(found))
    ensures r != a ==> r.result.Ok? && IsPlaceholder(r.result.value) &&
                       r.result.value.start == a.index && r.index == r.result.value.end == found.value
  {
    if a.result.Err? && loose && !disallowLoose then
      match LooseIdentifier(a.index, found)
      case Some(e) => Reading(Ok(e), e.end, a.comments)
      case None => a
    else a
  }

  /** `opening_token ?? '{'`. */
  function OpeningToken(openingToken: Option<string>): (r: string)
    ensures openingToken.None? ==> r == "{"
    ensures openingToken.Some? ==> r == openingToken.value
  {
    openingToken.GetOr("{")
  }

  // ---------------------------------------------------------------------------
  // The loops of the reader
  // ---------------------------------------------------------------------------

  /** The backward scan over the newly appended comments (`while (i-- > comment_index)`). */
  method LastCommentEndingBefore(cs: seq<Comment>, from: nat, bound: nat) returns (r: Option<nat>)
    ensures r == LastEndingBefore(cs, from, bound)
  {
    var i: nat := |cs|;
    while i > from
      invariant i <= |cs|
      invariant LastEndingBefore(cs[..i], from, bound) == LastEndingBefore(cs, from, bound)
    {
      i := i - 1;
      assert cs[..i + 1][..i] == cs[..i];
      if cs[i].end < bound {
        return Some(i);
      }
    }
    return None;
  }

  /** The forward count of `(` over `[lo, hi)`. */
  method CountOpenParens(t: seq<char>, lo: nat, hi: nat) returns (n: nat)
    ensures n == Occurrences(t, lo, hi, '(')
  {
    n := 0;
    var i := lo;
    while i < hi
      invariant if lo <= hi then lo <= i <= hi else i == lo
      invariant n == Occurrences(t, lo, i, '(')
    {
      if CharAt(t, i) == Some('(') {
        n := n + 1;
      }
      i := i + 1;
    }
  }

  /** The `while (num_parens > 0)` loop that steps over `)` and whitespace. */
  method ConsumeClosingParens(t: seq<char>, start: nat, numParens: nat) returns (r: Result<nat, Error>)
    ensures r == ConsumeClose(t, start, numParens)
  {
    var index := start;
    var n := numParens;
    while n > 0
      invariant ConsumeClose(t, index, n) == ConsumeClose(t, start, numParens)
      decreases |t| - index
    {
      var c := CharAt(t, index);
      if c == Some(')') {
        n := n - 1;
      } else if !Skippable(c) {
        return Err(ExpectedToken(index, ")"));
      }
      index := index + 1;
    }
    return Ok(index);
  }

  // ---------------------------------------------------------------------------
  // The parser state
  // ---------------------------------------------------------------------------

  /** The part of the template parser's state that the reader uses. */
  class Parser {
    const template: seq<char>
    const loose: bool
    var index: nat
    var comments: seq<Comment>

    constructor (template: seq<char>, loose: bool)
      ensures this.template == template && this.loose == loose
      ensures index == 0 && comments == []
    {
      this.template := template;
      this.loose := loose;
      index := 0;
      comments := [];
    }

    /**
     * `get_loose_identifier`: ask the matcher for the closer from the
     * cursor; on a truthy answer move the cursor onto the closer and return
     * a placeholder from the old cursor to it; otherwise change nothing.
     */
    method GetLooseIdentifier(findMatchingBracket: BracketMatcher, openingToken: Option<string>)
      returns (r: Option<Expression>)
      modifies this`index
      ensures var found := findMatchingBracket(template, old(index), OpeningToken(openingToken));
              r == LooseIdentifier(old(index), found) &&
              index == (if Truthy(found) then found.value else old(index))
    {
      var end := findMatchingBracket(template, index, OpeningToken(openingToken));
      if end.Some? && end.value != 0 {
        var start := index;
        index := end.value;
        return Some(Expression("Identifier", start, end.value, ""));
      }
      return None;
    }

    /**
     * The `try` block of `read_expression`: run the grammar parser at the
     * cursor, record its comments, resync, count the wrapping parentheses,
     * absorb a trailing comment and consume the closing parentheses.
     */
    method TryReadExpression(parseExpressionAt: GrammarParser) returns (r: Result<Expression, Error>)
      modifies this`index, this`comments
      ensures Reading(r, index, comments) ==
              TryRead(template, old(index), old(comments), parseExpressionAt(template, old(index)))
    {
      var commentIndex := |comments|;
      var outcome := parseExpressionAt(template, index);
      comments := comments + outcome.appended;
      match outcome {
        case Failed(pos, _) =>
          return Err(ParseError(pos));
        case Parsed(node, _) =>
          var k := LastCommentEndingBefore(comments, commentIndex, node.start);
          if k.Some? {
            index := comments[k.value].end;
          }
          var numParens := CountOpenParens(template, index, node.start);
          var end := node.end;
          if |comments| > 0 && comments[|comments| - 1].end > end {
            end := comments[|comments| - 1].end;
          }
          var closed := ConsumeClosingParens(template, end, numParens);
          if closed.Err? {
            return Err(closed.error);
          }
          index := closed.value;
          return Ok(node);
      }
    }

    /**
     * `read_expression`: the `try` block, then the `catch` block, which in
     * loose mode (unless disallowed) tries a placeholder and otherwise
     * raises the error again.
     */
    method ReadExpression(parseExpressionAt: GrammarParser, findMatchingBracket: BracketMatcher,
                          openingToken: Option<string>, disallowLoose: bool)
      returns (r: Result<Expression, Error>)
      modifies this`index, this`comments
      ensures var a := TryRead(template, old(index), old(comments), parseExpressionAt(template, old(index)));
              var b := Recover(a, loose, disallowLoose,
                               findMatchingBracket(template, a.index, OpeningToken(openingToken)));
              r == b.result && index == b.index && comments == b.comments
    {
      r := TryReadExpression(parseExpressionAt);
      if r.Err? && loose && !disallowLoose {
        var expression := GetLooseIdentifier(findMatchingBracket, openingToken);
        if expression.Some? {
          return Ok(expression.value);
        }
      }
    }
  }
}
