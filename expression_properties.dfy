/**
 * What the expression reader guarantees: where the cursor lands, when it
 * raises "expected `)`", which comments the resync looks at, and when a
 * placeholder may replace an error.
 */
module ExpressionReaderProperties {
  import opened Wrappers
  import opened ExpressionReader

  // ---------------------------------------------------------------------------
  // Counting characters
  // ---------------------------------------------------------------------------

  /** The count of `ch` over an in-range slice is its multiplicity in that slice. */
  lemma {:induction false} OccurrencesIsMultiplicity(t: seq<char>, lo: nat, hi: nat, ch: char)
    requires lo <= hi <= |t|
    ensures Occurrences(t, lo, hi, ch) == multiset(t[lo..hi])[ch]
  {
    if hi > lo {
      OccurrencesIsMultiplicity(t, lo, hi - 1, ch);
      assert t[lo..hi] == t[lo..hi - 1] + [t[hi - 1]];
    }
  }

  /** Offsets past the end of the template hold no character, so they add nothing to a count. */
  lemma {:induction false} OccurrencesPastEnd(t: seq<char>, lo: nat, hi: nat, ch: char)
    requires hi > |t|
    ensures Occurrences(t, lo, hi, ch) == Occurrences(t, lo, |t|, ch)
  {
    if hi - 1 > |t| {
      OccurrencesPastEnd(t, lo, hi - 1, ch);
    }
  }

  /** Peeling the first offset off a count. */
  lemma {:induction false} OccurrencesFront(t: seq<char>, lo: nat, hi: nat, ch: char)
    requires lo < hi
    ensures Occurrences(t, lo, hi, ch) ==
            (if CharAt(t, lo) == Some(ch) then 1 else 0) + Occurrences(t, lo + 1, hi, ch)
  {
    if hi - 1 > lo {
      OccurrencesFront(t, lo, hi - 1, ch);
    }
  }

  // ---------------------------------------------------------------------------
  // Close-paren consumption
  // ---------------------------------------------------------------------------

  /** Every offset in `[lo, hi)` holds a `)` or whitespace (and so lies inside the template). */
  predicate AllSkippable(t: seq<char>, lo: nat, hi: nat) {
    forall k :: lo <= k < hi ==> Skippable(CharAt(t, k))
  }

  /**
   * Consuming `n` open parentheses from `pos` stops at `e`: with none open it
   * does not move; otherwise it passes only `)` and whitespace, closes
   * exactly `n` of them and the last character it passes is `)`.
   */
  predicate ClosesAt(t: seq<char>, pos: nat, n: nat, e: nat) {
    if n == 0 then e == pos
    else pos < e && AllSkippable(t, pos, e) && Occurrences(t, pos, e, ')') == n &&
         CharAt(t, e - 1) == Some(')')
  }

  /**
   * Consuming `n` open parentheses from `pos` fails at `q`: before `q` only
   * `)` and whitespace, fewer than `n` of them `)`, and at `q` a character
   * that is neither, or the end of the template.
   */
  predicate FailsAt(t: seq<char>, pos: nat, n: nat, q: nat) {
    n > 0 && pos <= q && AllSkippable(t, pos, q) && Occurrences(t, pos, q, ')') < n &&
    !Skippable(CharAt(t, q))
  }

  lemma {:induction false} ConsumeCloseSucceeds(t: seq<char>, pos: nat, n: nat)
    requires ConsumeClose(t, pos, n).Ok?
    ensures ClosesAt(t, pos, n, ConsumeClose(t, pos, n).value)
    decreases |t| - pos
  {
    if n > 0 {
      var e := ConsumeClose(t, pos, n).value;
      if CharAt(t, pos) == Some(')') {
        ConsumeCloseSucceeds(t, pos + 1, n - 1);
      } else {
        ConsumeCloseSucceeds(t, pos + 1, n);
      }
      OccurrencesFront(t, pos, e, ')');
    }
  }

  lemma {:induction false} ClosesAtConsumes(t: seq<char>, pos: nat, n: nat, e: nat)
    requires ClosesAt(t, pos, n, e)
    ensures ConsumeClose(t, pos, n) == Ok(e)
    decreases e - pos
  {
    if n > 0 {
      OccurrencesFront(t, pos, e, ')');
      assert Skippable(CharAt(t, pos));
      // the `)` at e - 1 is counted whenever it lies after pos
      assert pos + 1 < e ==> Occurrences(t, pos + 1, e, ')') >= 1;
      if CharAt(t, pos) == Some(')') {
        if n > 1 {
          ClosesAtConsumes(t, pos + 1, n - 1, e);
        }
      } else {
        ClosesAtConsumes(t, pos + 1, n, e);
      }
    }
  }

  /** The close-paren loop succeeds at `e` exactly when `e` is where the parentheses close. */
  lemma ConsumeCloseOkIff(t: seq<char>, pos: nat, n: nat, e: nat)
    ensures ConsumeClose(t, pos, n) == Ok(e) <==> ClosesAt(t, pos, n, e)
  {
    if ConsumeClose(t, pos, n) == Ok(e) {
      ConsumeCloseSucceeds(t, pos, n);
    }
    if ClosesAt(t, pos, n, e) {
      ClosesAtConsumes(t, pos, n, e);
    }
  }

  lemma {:induction false} ConsumeCloseFails(t: seq<char>, pos: nat, n: nat)
    requires ConsumeClose(t, pos, n).Err?
    ensures FailsAt(t, pos, n, ConsumeClose(t, pos, n).error.pos)
    decreases |t| - pos
  {
    var q := ConsumeClose(t, pos, n).error.pos;
    if q > pos {
      if CharAt(t, pos) == Some(')') {
        ConsumeCloseFails(t, pos + 1, n - 1);
      } else {
        ConsumeCloseFails(t, pos + 1, n);
      }
      OccurrencesFront(t, pos, q, ')');
    }
  }

  lemma {:induction false} FailsAtConsumes(t: seq<char>, pos: nat, n: nat, q: nat)
    requires FailsAt(t, pos, n, q)
    ensures ConsumeClose(t, pos, n) == Err(ExpectedToken(q, ")"))
    decreases q - pos
  {
    if q > pos {
      OccurrencesFront(t, pos, q, ')');
      assert Skippable(CharAt(t, pos));
      if CharAt(t, pos) == Some(')') {
        FailsAtConsumes(t, pos + 1, n - 1, q);
      } else {
        FailsAtConsumes(t, pos + 1, n, q);
      }
    }
  }

  /** The close-paren loop raises "expected `)`" at `q` exactly when the parentheses fail to close at `q`. */
  lemma ConsumeCloseErrIff(t: seq<char>, pos: nat, n: nat, q: nat)
    ensures ConsumeClose(t, pos, n) == Err(ExpectedToken(q, ")")) <==> FailsAt(t, pos, n, q)
  {
    if ConsumeClose(t, pos, n) == Err(ExpectedToken(q, ")")) {
      ConsumeCloseFails(t, pos, n);
    }
    if FailsAt(t, pos, n, q) {
      FailsAtConsumes(t, pos, n, q);
    }
  }

  // ---------------------------------------------------------------------------
  // Comment resync
  // ---------------------------------------------------------------------------

  /**
   * The resync only looks at the comments from `from` on: two comment lists
   * that agree there resync the cursor alike, whatever came before.
   */
  lemma ResyncIgnoresOlderComments(index: nat, cs1: seq<Comment>, cs2: seq<Comment>, from: nat, bound: nat)
    requires |cs1| == |cs2| && from <= |cs1|
    requires cs1[from..] == cs2[from..]
    ensures Resync(index, cs1, from, bound) == Resync(index, cs2, from, bound)
  {
    assert forall j :: from <= j < |cs1| ==> cs1[j] == cs1[from..][j - from] == cs2[j];
  }

  /**
   * With no new comment before the node the resync leaves the cursor where
   * it was; otherwise it moves it to the end of the last new comment that
   * ends before the node.
   */
  lemma ResyncTarget(index: nat, cs: seq<Comment>, from: nat, bound: nat)
    ensures (forall j :: from <= j < |cs| ==> cs[j].end >= bound) ==> Resync(index, cs, from, bound) == index
    ensures forall k :: from <= k < |cs| && cs[k].end < bound &&
                        (forall j :: k < j < |cs| ==> cs[j].end >= bound) ==>
                        Resync(index, cs, from, bound) == cs[k].end
  {
    forall k | from <= k < |cs| && cs[k].end < bound && (forall j :: k < j < |cs| ==> cs[j].end >= bound)
      ensures Resync(index, cs, from, bound) == cs[k].end
    {
      var r := LastEndingBefore(cs, from, bound);
      assert r.Some?;
      assert r.value == k;
    }
  }

  // ---------------------------------------------------------------------------
  // The whole read
  // ---------------------------------------------------------------------------

  /**
   * The plain case: no new comment ends before the node, no `(` lies
   * between the cursor and the node, and no comment ends after the node.
   * Then the node is returned and the cursor lands on its end, whatever the
   * recovery settings are.
   */
  lemma PlainCase(t: seq<char>, index: nat, comments: seq<Comment>, node: Expression, appended: seq<Comment>,
                  loose: bool, disallowLoose: bool, found: Option<nat>)
    requires forall c :: c in appended ==> c.end >= node.start
    requires Occurrences(t, index, node.start, '(') == 0
    requires |comments + appended| > 0 ==> (comments + appended)[|comments + appended| - 1].end <= node.end
    ensures TryRead(t, index, comments, Parsed(node, appended)) == Reading(Ok(node), node.end, comments + appended)
    ensures Recover(TryRead(t, index, comments, Parsed(node, appended)), loose, disallowLoose, found) ==
            Reading(Ok(node), node.end, comments + appended)
  {
    var cs := comments + appended;
    assert forall j :: |comments| <= j < |cs| ==> cs[j] in appended;
  }

  /**
   * A successful read returns the grammar parser's own node, and the cursor
   * lands where the counted parentheses close, starting from the node's end
   * or the last comment's end, whichever is later; so the cursor is at
   * least both of them.
   */
  lemma SuccessShape(t: seq<char>, index: nat, comments: seq<Comment>, outcome: ParseOutcome)
    requires TryRead(t, index, comments, outcome).result.Ok?
    ensures var a := TryRead(t, index, comments, outcome);
            var cs := comments + outcome.appended;
            outcome.Parsed? && a.result.value == outcome.node && a.comments == cs &&
            ClosesAt(t, TrailingEnd(outcome.node.end, cs),
                     Occurrences(t, Resync(index, cs, |comments|, outcome.node.start), outcome.node.start, '('),
                     a.index) &&
            a.index >= outcome.node.end && (|cs| > 0 ==> a.index >= cs[|cs| - 1].end)
  {
    var cs := comments + outcome.appended;
    var numParens := Occurrences(t, Resync(index, cs, |comments|, outcome.node.start), outcome.node.start, '(');
    var e := TryRead(t, index, comments, outcome).index;
    ConsumeCloseOkIff(t, TrailingEnd(outcome.node.end, cs), numParens, e);
  }

  /**
   * The attempt raises "expected `)`" at `q` exactly when the grammar parser
   * produced a node and the counted parentheses fail to close at `q`; the
   * cursor is then left at the resynced offset.
   */
  lemma ParenError(t: seq<char>, index: nat, comments: seq<Comment>, outcome: ParseOutcome, q: nat)
    ensures var a := TryRead(t, index, comments, outcome);
            var cs := comments + outcome.appended;
            a.result == Err(ExpectedToken(q, ")")) <==>
              outcome.Parsed? &&
              FailsAt(t, TrailingEnd(outcome.node.end, cs),
                      Occurrences(t, Resync(index, cs, |comments|, outcome.node.start), outcome.node.start, '('), q)
    ensures var a := TryRead(t, index, comments, outcome);
            a.result.Err? && a.result.error.ExpectedToken? ==>
              outcome.Parsed? && a.index == Resync(index, comments + outcome.appended, |comments|, outcome.node.start)
  {
    if outcome.Parsed? {
      var cs := comments + outcome.appended;
      var numParens := Occurrences(t, Resync(index, cs, |comments|, outcome.node.start), outcome.node.start, '(');
      ConsumeCloseErrIff(t, TrailingEnd(outcome.node.end, cs), numParens, q);
    }
  }

  /**
   * In loose mode a placeholder that replaces an unclosed-parenthesis error
   * starts at the resynced cursor, not necessarily where the read began.
   */
  lemma PlaceholderStartsAtResync(t: seq<char>, index: nat, comments: seq<Comment>, outcome: ParseOutcome,
                                  loose: bool, disallowLoose: bool, found: Option<nat>)
    requires outcome.Parsed?
    requires TryRead(t, index, comments, outcome).result.Err?
    requires loose && !disallowLoose && Truthy(found)
    ensures var cs := comments + outcome.appended;
            Recover(TryRead(t, index, comments, outcome), loose, disallowLoose, found) ==
            Reading(Ok(Expression("Identifier", Resync(index, cs, |comments|, outcome.node.start), found.value, "")),
                    found.value, cs)
  {
  }

  /** The grammar parser starts no earlier than the cursor and stays inside the template. */
  predicate WellFormed(t: seq<char>, index: nat, comments: seq<Comment>, outcome: ParseOutcome) {
    (forall c :: c in comments ==> c.end <= |t|) &&
    (forall c :: c in outcome.appended ==> index <= c.start <= c.end <= |t|) &&
    (outcome.Parsed? ==> index <= outcome.node.start <= outcome.node.end <= |t|)
  }

  /**
   * The cursor never moves back and never leaves the template, given a
   * well-behaved grammar parser and a matcher that answers with an offset at
   * or after the one it searched from.
   */
  lemma CursorMonotone(t: seq<char>, index: nat, comments: seq<Comment>, outcome: ParseOutcome,
                       loose: bool, disallowLoose: bool, found: Option<nat>)
    requires index <= |t|
    requires WellFormed(t, index, comments, outcome)
    requires found.Some? ==> TryRead(t, index, comments, outcome).index <= found.value <= |t|
    ensures var b := Recover(TryRead(t, index, comments, outcome), loose, disallowLoose, found);
            index <= b.index <= |t|
  {
    if outcome.Parsed? {
      var node := outcome.node;
      var cs := comments + outcome.appended;
      match LastEndingBefore(cs, |comments|, node.start)
      case None =>
      case Some(k) =>
        assert cs[k] in outcome.appended;
      assert |cs| > 0 ==> cs[|cs| - 1] in comments || cs[|cs| - 1] in outcome.appended;
    }
  }

  // ---------------------------------------------------------------------------
  // Worked examples
  // ---------------------------------------------------------------------------

  /** `(a+b)`: the grammar parser returns `a+b` at [1, 4); the cursor lands past the `)`. */
  lemma ParenthesizedExpression()
    ensures var node := Expression("BinaryExpression", 1, 4, "");
            TryRead("(a+b)", 0, [], Parsed(node, [])) == Reading(Ok(node), 5, [])
  {
    var t := "(a+b)";
    assert Occurrences(t, 0, 1, '(') == 1;
    assert ConsumeClose(t, 4, 1) == Ok(5);
  }

  /**
   * `(a+b) /*c*/ ;`: acorn returns `a+b` at [1, 4) and records the trailing
   * comment [6, 11) it read past. The scan for `)` starts at the comment's
   * end, past the real `)` at 4, so "expected `)`" is raised at the `;`.
   */
  lemma UnclosedParenthesis()
    ensures var node := Expression("BinaryExpression", 1, 4, "");
            var c := Comment(6, 11);
            TryRead("(a+b) /*c*/ ;", 0, [], Parsed(node, [c])) == Reading(Err(ExpectedToken(12, ")")), 0, [c])
  {
    var t := "(a+b) /*c*/ ;";
    assert Occurrences(t, 0, 1, '(') == 1;
    assert ConsumeClose(t, 11, 1) == Err(ExpectedToken(12, ")"));
  }

  /** `/* c */ x`: the cursor resyncs to the comment's end, then lands on the node's end. */
  lemma LeadingComment()
    ensures var node := Expression("Identifier", 8, 9, "x");
            var c := Comment(0, 7);
            Resync(0, [c], 0, 8) == 7 &&
            TryRead("/* c */ x", 0, [], Parsed(node, [c])) == Reading(Ok(node), 9, [c])
  {
    var t := "/* c */ x";
    assert Occurrences(t, 7, 8, '(') == 0;
  }

  /**
   * `/*a*/(b) /*c*/ ;}` read from 0 in loose mode: acorn returns `b` at
   * [6, 7) with the comments [0, 5) and [9, 14). The resync moves the cursor
   * to 5, the trailing comment sends the `)` scan past the `)` to 14, the
   * `;` at 15 raises, and the matcher, asked from 5, finds the `}` at 16. So
   * the placeholder spans [5, 16), not [0, 16).
   */
  lemma PlaceholderAfterComment()
    ensures var node := Expression("Identifier", 6, 7, "b");
            var cs := [Comment(0, 5), Comment(9, 14)];
            var a := TryRead("/*a*/(b) /*c*/ ;}", 0, [], Parsed(node, cs));
            a.index == 5 &&
            Recover(a, true, false, Some(16)) == Reading(Ok(Expression("Identifier", 5, 16, "")), 16, cs)
  {
    var t := "/*a*/(b) /*c*/ ;}";
    var cs := [Comment(0, 5), Comment(9, 14)];
    assert [] + cs == cs;
    assert LastEndingBefore(cs, 0, 6) == Some(0);
    assert Resync(0, cs, 0, 6) == 5;
    assert Occurrences(t, 5, 6, '(') == 1;
    assert TrailingEnd(7, cs) == 14;
    assert ConsumeClose(t, 14, 1) == Err(ExpectedToken(15, ")"));
    assert TryRead(t, 0, [], Parsed(Expression("Identifier", 6, 7, "b"), cs)) ==
           Reading(Err(ExpectedToken(15, ")")), 5, cs);
  }

  // ---------------------------------------------------------------------------
  // Replay
  // ---------------------------------------------------------------------------

  /** Two fresh parsers over the same template, read from the same offset, agree. */
  method Replay(template: seq<char>, loose: bool, index: nat, parseExpressionAt: GrammarParser,
                findMatchingBracket: BracketMatcher, openingToken: Option<string>, disallowLoose: bool)
    returns (r1: Result<Expression, Error>, r2: Result<Expression, Error>, index1: nat, index2: nat)
    ensures r1 == r2 && index1 == index2
  {
    var p1 := new Parser(template, loose);
    p1.index := index;
    var p2 := new Parser(template, loose);
    p2.index := index;
    r1 := p1.ReadExpression(parseExpressionAt, findMatchingBracket, openingToken, disallowLoose);
    r2 := p2.ReadExpression(parseExpressionAt, findMatchingBracket, openingToken, disallowLoose);
    index1, index2 := p1.index, p2.index;
  }
}
