/**
  What the tokenizer's main loop produces: a well-formed stream of well-shaped tokens
  that spells the text, white space aside; Newline marks on strictly increasing lines
  no later than the last line; and, when it fails, the error of a construct left
  open, reported at the end of the text, or the empty Inform6 block.
 */
module LexerLoop {

  import opened Outcomes
  import opened Chars
  import opened Tokens
  import opened Cursor
  import opened TokenStream
  import opened Lexer
  import opened LexerFacts

  // ---------------------------------------------------------------------------
  // The marks in front of a reader's tokens.

  /** At most one Newline mark: empty surface, column zero. */
  predicate NewlinePart(nl: seq<Token>) {
    |nl| <= 1 && (|nl| == 1 ==> nl[0].kind == Newline && nl[0].surface == "" && nl[0].column == 0)
  }

  /** At most one Indent or Dedent mark: empty surface, column zero. */
  predicate MarkPart(mark: seq<Token>) {
    && |mark| <= 1
    && (|mark| == 1 ==> (mark[0].kind == Indent || mark[0].kind == Dedent) && mark[0].surface == "" && mark[0].column == 0)
  }

  lemma NewlineMarkPart(s: State, line: int)
    ensures NewlinePart(NewlineMark(s, line))
  {
  }

  lemma MarkMarkPart(s: State, indentation: int)
    ensures MarkPart(Mark(s, indentation))
  {
  }

  lemma AllWellShapedConcat(a: seq<Token>, b: seq<Token>)
    requires AllWellShaped(a) && AllWellShaped(b)
    ensures AllWellShaped(a + b)
  {
    forall i | 0 <= i < |a + b| ensures WellShaped((a + b)[i]) {
      if i < |a| {
        assert (a + b)[i] == a[i];
      } else {
        assert (a + b)[i] == b[i - |a|];
      }
    }
  }

  /** The marks, a reader's tokens and a well-formed rest form a well-formed stream. */
  lemma BodyStepForms(nl: seq<Token>, mark: seq<Token>, body: seq<Token>, rest: seq<Token>)
    requires NewlinePart(nl) && MarkPart(mark)
    requires Reads(Outside, body, Outside) && Reads(Marked, body, Outside)
    requires WellFormed(rest) && AllWellShaped(rest)
    ensures WellFormed(nl + (mark + body) + rest) && AllWellShaped(nl + (mark + body) + rest)
  {
    RunConcat(Outside, nl + (mark + body), rest);
    RunConcat(Outside, nl, mark + body);
    RunConcat(Outside, mark, body);
    if |nl| == 1 {
      assert nl[1..] == [];
    }
    if |mark| == 1 {
      assert mark[1..] == [];
    }
    AllWellShapedConcat(mark, body);
    AllWellShapedConcat(nl, mark + body);
    AllWellShapedConcat(nl + (mark + body), rest);
  }

  /** A Newline mark in front of a well-formed rest forms a well-formed stream. */
  lemma WhiteStepForms(nl: seq<Token>, rest: seq<Token>)
    requires NewlinePart(nl)
    requires WellFormed(rest) && AllWellShaped(rest)
    ensures WellFormed(nl + rest) && AllWellShaped(nl + rest)
  {
    RunConcat(Outside, nl, rest);
    if |nl| == 1 {
      assert nl[1..] == [];
    }
    AllWellShapedConcat(nl, rest);
  }

  /** The marks render as nothing. */
  lemma BodyStepRenders(nl: seq<Token>, mark: seq<Token>, body: seq<Token>, rest: seq<Token>)
    requires NewlinePart(nl) && MarkPart(mark)
    ensures RenderAll(nl + (mark + body) + rest) == RenderAll(body) + RenderAll(rest)
  {
    RenderAllConcat(nl + (mark + body), rest);
    RenderAllConcat(nl, mark + body);
    RenderAllConcat(mark, body);
    PartRendersNothing(nl);
    PartRendersNothing(mark);
  }

  lemma WhiteStepRenders(nl: seq<Token>, rest: seq<Token>)
    requires NewlinePart(nl)
    ensures RenderAll(nl + rest) == RenderAll(rest)
  {
    RenderAllConcat(nl, rest);
    PartRendersNothing(nl);
  }

  lemma PartRendersNothing(x: seq<Token>)
    requires NewlinePart(x) || MarkPart(x)
    ensures RenderAll(x) == ""
  {
    if |x| == 1 {
      assert x[1..] == [];
    }
  }

  /** Only the Newline mark contributes a line. */
  lemma BodyStepLines(nl: seq<Token>, mark: seq<Token>, body: seq<Token>, rest: seq<Token>)
    requires NewlinePart(nl) && MarkPart(mark) && NoMarks(body)
    ensures NewlineLines(nl + (mark + body) + rest) == NewlineLines(nl) + NewlineLines(rest)
  {
    NewlineLinesConcat(nl + (mark + body), rest);
    NewlineLinesConcat(nl, mark + body);
    NewlineLinesConcat(mark, body);
    NoMarksLines(body);
    if |mark| == 1 {
      assert mark[1..] == [];
    }
  }

  /** At most one line `x` above `lo` and not above `hi`, then lines above `x`. */
  lemma LinesCons(xs: seq<int>, ys: seq<int>, lo: int, mid: int, hi: int)
    requires |xs| <= 1 && Within(xs, lo, hi) && (|xs| == 1 ==> xs[0] <= mid) && lo <= mid
    requires StrictlyIncreasing(ys) && Within(ys, mid, hi)
    ensures StrictlyIncreasing(xs + ys) && Within(xs + ys, lo, hi)
  {
    var zs := xs + ys;
    forall i | 0 <= i < |zs| ensures lo < zs[i] <= hi {
      if i < |xs| {
        assert zs[i] == xs[i];
      } else {
        assert zs[i] == ys[i - |xs|];
      }
    }
    forall i, j | 0 <= i < j < |zs| ensures zs[i] < zs[j] {
      if i < |xs| {
        assert zs[i] == xs[0] && zs[j] == ys[j - 1];
      } else {
        assert zs[i] == ys[i - |xs|] && zs[j] == ys[j - |xs|];
      }
    }
  }

  // ---------------------------------------------------------------------------
  // The main loop.

  /** What one error of the loop from `s` means: a reader ran off the end of the text,
      reported on the last character with the construct's message, or an empty
      Inform6 block stands somewhere after `s`. */
  predicate Explains(s: State, e: LexError)
    requires -1 <= s.position < |s.text| || s.position == -1
  {
    match e
    case SyntaxError(message, line, column) =>
      IsUnterminated(message) && line == EndFrom(s).line && column == EndFrom(s).column
    case ArgumentOutOfRange => exists j :: s.position < j < |s.text| && EmptyBlockAt(s.text, j)
  }

  lemma {:induction false} LoopForms(s: State, line: int, indentation: int)
    requires -1 <= s.position && (s.position < |s.text| || s.position == -1)
    ensures var r := Loop(s, line, indentation);
      r.Err? || (WellFormed(r.value) && AllWellShaped(r.value))
    decreases |s.text| - s.position
  {
    var a := s.Advance();
    if a.0 {
      var s1 := a.1;
      var nl := NewlineMark(s1, line);
      var line' := if s1.line > line then s1.line else line;
      NewlineMarkPart(s1, line);
      if IsWhiteSpace(s1.Character()) {
        LoopForms(s1, line', indentation);
        var rest := Loop(s1, line', indentation);
        if rest.Ok? {
          WhiteStepForms(nl, rest.value);
        }
      } else {
        var mark := Mark(s1, indentation);
        var body := Dispatch(s1);
        MarkMarkPart(s1, indentation);
        DispatchFacts(s1);
        if body.Ok? {
          LoopForms(body.value.last, line', s1.Indentation());
          var rest := Loop(body.value.last, line', s1.Indentation());
          if rest.Ok? {
            BodyStepForms(nl, mark, body.value.tokens, rest.value);
          }
        }
      }
    }
  }

  lemma {:induction false} LoopSpells(s: State, line: int, indentation: int)
    requires -1 <= s.position && (s.position < |s.text| || s.position == -1)
    ensures var r := Loop(s, line, indentation);
      r.Err? || Strip(RenderAll(r.value)) == Strip(s.text[s.position + 1..])
    decreases |s.text| - s.position
  {
    var a := s.Advance();
    if !a.0 {
      assert s.text[s.position + 1..] == [];
    } else {
      var s1 := a.1;
      var q := s1.position;
      var nl := NewlineMark(s1, line);
      var line' := if s1.line > line then s1.line else line;
      NewlineMarkPart(s1, line);
      if IsWhiteSpace(s1.Character()) {
        LoopSpells(s1, line', indentation);
        var rest := Loop(s1, line', indentation);
        if rest.Ok? {
          WhiteStepSpells(s, s1, nl, rest.value);
        }
      } else {
        var mark := Mark(s1, indentation);
        var body := Dispatch(s1);
        MarkMarkPart(s1, indentation);
        DispatchFacts(s1);
        if body.Ok? {
          var last := body.value.last;
          LoopSpells(last, line', s1.Indentation());
          var rest := Loop(last, line', s1.Indentation());
          if rest.Ok? {
            assert Loop(s, line, indentation) == Ok(nl + (mark + body.value.tokens) + rest.value);
            BodyStepSpells(s, s1, last, nl, mark, body.value.tokens, rest.value);
          }
        }
      }
    }
  }

  /** The white-space step of the loop, from `s` to the character `s1` after it. */
  lemma WhiteStepSpells(s: State, s1: State, nl: seq<Token>, rest: seq<Token>)
    requires s1.text == s.text && s1.position == s.position + 1 && InText(s1)
    requires IsWhiteSpace(s1.Character()) && NewlinePart(nl)
    requires Strip(RenderAll(rest)) == Strip(s1.text[s1.position + 1..])
    ensures Strip(RenderAll(nl + rest)) == Strip(s.text[s.position + 1..])
  {
    WhiteStepStrip(s.text, s1.position, nl, rest);
  }

  /** The reader's step of the loop, from `s` to the character `s1` after it, with the
      reader's last state `last`. */
  lemma BodyStepSpells(s: State, s1: State, last: State, nl: seq<Token>, mark: seq<Token>, body: seq<Token>, rest: seq<Token>)
    requires s1.text == s.text && s1.position == s.position + 1 && last.text == s1.text
    requires Spelled(s1.text, s1.position, last.position, body) && NewlinePart(nl) && MarkPart(mark)
    requires Strip(RenderAll(rest)) == Strip(last.text[last.position + 1..])
    ensures Strip(RenderAll(nl + (mark + body) + rest)) == Strip(s.text[s.position + 1..])
  {
    BodyStepStrip(s.text, s1.position, last.position, nl, mark, body, rest);
  }

  lemma {:induction false} LoopLines(s: State, line: int, indentation: int)
    requires -1 <= s.position && (s.position < |s.text| || s.position == -1)
    ensures var r := Loop(s, line, indentation);
      r.Err? || (StrictlyIncreasing(NewlineLines(r.value)) && Within(NewlineLines(r.value), line, EndFrom(s).line))
    decreases |s.text| - s.position
  {
    var a := s.Advance();
    if a.0 {
      var s1 := a.1;
      var nl := NewlineMark(s1, line);
      var line' := if s1.line > line then s1.line else line;
      FollowsAdvance(s);
      if IsWhiteSpace(s1.Character()) {
        LoopLines(s1, line', indentation);
        var rest := Loop(s1, line', indentation);
        if rest.Ok? {
          MarkedLines(s, s1, s1, line, nl, [], [], rest.value);
        }
      } else {
        var mark := Mark(s1, indentation);
        var body := Dispatch(s1);
        MarkMarkPart(s1, indentation);
        DispatchFacts(s1);
        if body.Ok? {
          var last := body.value.last;
          LoopLines(last, line', s1.Indentation());
          var rest := Loop(last, line', s1.Indentation());
          if rest.Ok? {
            assert Loop(s, line, indentation) == Ok(nl + (mark + body.value.tokens) + rest.value);
            MarkedLines(s, s1, last, line, nl, mark, body.value.tokens, rest.value);
          }
        }
      }
    }
  }

  /** One step of the loop, from `s` to the character `s1` after it, whose reader (if
      any) stops at `last`: the Newline mark, if any, is for a line above `line` and
      below the lines of the rest. */
  lemma MarkedLines(s: State, s1: State, last: State, line: int, nl: seq<Token>, mark: seq<Token>, body: seq<Token>, rest: seq<Token>)
    requires Follows(s, s1) && Follows(s1, last) && nl == NewlineMark(s1, line)
    requires MarkPart(mark) && NoMarks(body)
    requires var line' := if s1.line > line then s1.line else line;
      StrictlyIncreasing(NewlineLines(rest)) && Within(NewlineLines(rest), line', EndFrom(last).line)
    ensures StrictlyIncreasing(NewlineLines(nl + (mark + body) + rest))
    ensures Within(NewlineLines(nl + (mark + body) + rest), line, EndFrom(s).line)
  {
    var line' := if s1.line > line then s1.line else line;
    FollowsTrans(s, s1, last);
    EndFromFollows(s, last);
    FollowsLine(s, s1);
    BodyStepLines(nl, mark, body, rest);
    LinesCons(NewlineLines(nl), NewlineLines(rest), line, line', EndFrom(s).line);
  }

  lemma {:induction false} LoopErrors(s: State, line: int, indentation: int)
    requires -1 <= s.position && (s.position < |s.text| || s.position == -1)
    ensures var r := Loop(s, line, indentation);
      r.Ok? || Explains(s, r.error)
    decreases |s.text| - s.position
  {
    var a := s.Advance();
    if a.0 {
      var s1 := a.1;
      var line' := if s1.line > line then s1.line else line;
      FollowsAdvance(s);
      if IsWhiteSpace(s1.Character()) {
        LoopErrors(s1, line', indentation);
        var rest := Loop(s1, line', indentation);
        if rest.Err? {
          ExplainsBack(s, s1, rest.error);
        }
      } else {
        var body := Dispatch(s1);
        DispatchFacts(s1);
        if body.Err? {
          ReaderExplains(s, s1, body.error);
        } else {
          var last := body.value.last;
          LoopErrors(last, line', s1.Indentation());
          var rest := Loop(last, line', s1.Indentation());
          if rest.Err? {
            ExplainsBack(s1, last, rest.error);
            ExplainsBack(s, s1, rest.error);
          }
        }
      }
    }
  }

  /** The error of a reader started on `s1`, the character after `s`, explains the
      loop's failure from `s`. */
  lemma ReaderExplains(s: State, s1: State, e: LexError)
    requires Follows(s, s1) && s.position < s1.position
    requires e.SyntaxError? ==> IsUnterminated(e.message) && e.line == EndFrom(s1).line && e.column == EndFrom(s1).column
    requires e.ArgumentOutOfRange? ==> EmptyBlockAt(s1.text, s1.position)
    ensures Explains(s, e)
  {
    EndFromFollows(s, s1);
  }

  /** An error explained from a later state is explained from an earlier one. */
  lemma ExplainsBack(s: State, e: State, err: LexError)
    requires Follows(s, e) && Explains(e, err)
    ensures Explains(s, err)
  {
    EndFromFollows(s, e);
    if err.ArgumentOutOfRange? {
      var j :| e.position < j < |e.text| && EmptyBlockAt(e.text, j);
      assert s.position < j < |s.text| && EmptyBlockAt(s.text, j);
    }
  }

  /** A white-space character, perhaps under a Newline mark, adds nothing once white
      space is stripped. */
  lemma WhiteStepStrip(text: string, q: int, nl: seq<Token>, rest: seq<Token>)
    requires 0 <= q < |text| && IsWhiteSpace(text[q]) && NewlinePart(nl)
    requires Strip(RenderAll(rest)) == Strip(text[q + 1..])
    ensures Strip(RenderAll(nl + rest)) == Strip(text[q..])
  {
    WhiteStepRenders(nl, rest);
    WhiteThenStrip(text, q);
  }

  /** The marks, a reader's tokens spelling its run and the rest spelling the text
      after it spell the text from the reader's first character. */
  lemma BodyStepStrip(text: string, q: int, k: int, nl: seq<Token>, mark: seq<Token>, body: seq<Token>, rest: seq<Token>)
    requires 0 <= q <= k < |text| && NewlinePart(nl) && MarkPart(mark)
    requires Strip(RenderAll(body)) == Strip(text[q..k + 1])
    requires Strip(RenderAll(rest)) == Strip(text[k + 1..])
    ensures Strip(RenderAll(nl + (mark + body) + rest)) == Strip(text[q..])
  {
    BodyStepRenders(nl, mark, body, rest);
    BodyThenStrip(text, q, k, body, rest);
  }

  /** A white-space character adds nothing once white space is stripped. */
  lemma WhiteThenStrip(text: string, q: int)
    requires 0 <= q < |text| && IsWhiteSpace(text[q])
    ensures Strip(text[q..]) == Strip(text[q + 1..])
  {
    assert text[q..] == [text[q]] + text[q + 1..];
    StripConcat([text[q]], text[q + 1..]);
    StripAllWhite([text[q]]);
  }

  /** A reader's tokens spell its run, and the rest the text after it. */
  lemma BodyThenStrip(text: string, q: int, k: int, body: seq<Token>, rest: seq<Token>)
    requires 0 <= q <= k < |text|
    requires Strip(RenderAll(body)) == Strip(text[q..k + 1])
    requires Strip(RenderAll(rest)) == Strip(text[k + 1..])
    ensures Strip(RenderAll(body) + RenderAll(rest)) == Strip(text[q..])
  {
    assert text[q..] == text[q..k + 1] + text[k + 1..];
    StripJoin(RenderAll(body), RenderAll(rest), text[q..k + 1], text[k + 1..]);
  }

  lemma StripJoin(x: string, y: string, u: string, v: string)
    requires Strip(x) == Strip(u) && Strip(y) == Strip(v)
    ensures Strip(x + y) == Strip(u + v)
  {
    StripConcat(x, y);
    StripConcat(u, v);
  }

  /** No character from `from` on opens a comment, a string or an Inform6 block. */
  predicate Plain(text: string, from: int)
    requires 0 <= from
  {
    forall k :: from <= k < |text| ==> text[k] != '[' && text[k] != '"' && text[k] != '('
  }

  /** Words and punctuation alone never fail. */
  lemma {:induction false} LoopSucceeds(s: State, line: int, indentation: int)
    requires -1 <= s.position && (s.position < |s.text| || s.position == -1)
    requires Plain(s.text, s.position + 1)
    ensures Loop(s, line, indentation).Ok?
    decreases |s.text| - s.position
  {
    var a := s.Advance();
    if a.0 {
      var s1 := a.1;
      var line' := if s1.line > line then s1.line else line;
      if IsWhiteSpace(s1.Character()) {
        LoopSucceeds(s1, line', indentation);
      } else {
        var body := Dispatch(s1);
        assert ReadAt(s1.text, s1.position).Ok?;
        var last := body.value.last;
        LoopSucceeds(last, line', s1.Indentation());
      }
    }
  }

  // ---------------------------------------------------------------------------
  // Tokenize.

  /** The tokens of a successful run form a well-formed stream of well-shaped tokens. */
  lemma TokenizeForms(text: string)
    ensures var r := Tokenize(text);
      r.Err? || (WellFormed(r.value) && AllWellShaped(r.value))
  {
    LoopForms(Init(text), 0, 0);
  }

  /** The tokens of a successful run spell the text, white space aside. */
  lemma TokenizeSpells(text: string)
    ensures var r := Tokenize(text);
      r.Err? || Strip(RenderAll(r.value)) == Strip(text)
  {
    LoopSpells(Init(text), 0, 0);
    assert text[0..] == text;
  }

  /** Newline marks come on strictly increasing lines, from the second line to the
      last. */
  lemma TokenizeLines(text: string)
    ensures var r := Tokenize(text);
      r.Err? || (StrictlyIncreasing(NewlineLines(r.value)) && Within(NewlineLines(r.value), 0, InputEnd(text).line))
  {
    LoopLines(Init(text), 0, 0);
    EndFromInit(text);
  }

  /** A failed run reports a construct left open, at the line and column of the last
      character of the text, or an empty Inform6 block stands in the text. */
  lemma TokenizeErrors(text: string)
    ensures var r := Tokenize(text);
      && (r.Err? ==> |text| > 0)
      && (r.Err? && r.error.SyntaxError? ==>
            && IsUnterminated(r.error.message)
            && r.error.line == CountBreaks(text, |text| - 1)
            && r.error.column == ColumnAt(text, |text| - 1))
      && (r.Err? && r.error.ArgumentOutOfRange? ==> exists j :: EmptyBlockAt(text, j))
  {
    var r := Tokenize(text);
    LoopErrors(Init(text), 0, 0);
    if r.Err? {
      InitExplains(text, r.error);
    }
  }

  /** An error explained from a fresh cursor, in terms of the text alone. */
  lemma InitExplains(text: string, e: LexError)
    requires |text| > 0 && Explains(Init(text), e)
    ensures e.SyntaxError? ==>
      && IsUnterminated(e.message)
      && e.line == CountBreaks(text, |text| - 1)
      && e.column == ColumnAt(text, |text| - 1)
    ensures e.ArgumentOutOfRange? ==> exists j :: EmptyBlockAt(text, j)
  {
    if e.SyntaxError? {
      EndFromInit(text);
      InputEndTracks(text);
    } else {
      var j :| -1 < j < |text| && EmptyBlockAt(text, j);
    }
  }

  /** A text in which no comment, string or Inform6 block opens is always tokenized. */
  lemma TokenizeSucceeds(text: string)
    requires Plain(text, 0)
    ensures Tokenize(text).Ok?
  {
    LoopSucceeds(Init(text), 0, 0);
  }
}
