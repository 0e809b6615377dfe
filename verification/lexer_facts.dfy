/**
  What the tokenizer's readers produce: the tokens each one cuts, where it leaves the
  cursor and when it fails, that the kinds follow the stream automaton with every
  token well shaped, and that the tokens spell out the text they were read from,
  white space aside.
 */
module LexerFacts {

  import opened Outcomes
  import opened Chars
  import opened Tokens
  import opened Cursor
  import opened TokenStream
  import opened Lexer

  /** No token of `ts` is a Newline, Indent or Dedent: the marks come only from the
      main loop. */
  predicate NoMarks(ts: seq<Token>) {
    forall i :: 0 <= i < |ts| ==> ts[i].kind != Newline && ts[i].kind != Indent && ts[i].kind != Dedent
  }

  /** `ts` takes the automaton from `m0` to `m1`, and every token is well shaped and
      not a mark. */
  predicate Reads(m0: Mode, ts: seq<Token>, m1: Mode) {
    Run(m0, ts) == Some(m1) && AllWellShaped(ts) && NoMarks(ts)
  }

  lemma {:induction false} NoMarksLines(ts: seq<Token>)
    requires NoMarks(ts)
    ensures NewlineLines(ts) == []
    decreases |ts|
  {
    if |ts| > 0 {
      NoMarksLines(ts[1..]);
    }
  }

  lemma ReadsJoin(m0: Mode, m1: Mode, m2: Mode, a: seq<Token>, b: seq<Token>)
    requires Reads(m0, a, m1) && Reads(m1, b, m2)
    ensures Reads(m0, a + b, m2)
  {
    RunConcat(m0, a, b);
  }

  /** A single token read in one step of the automaton. */
  lemma ReadsOne(m0: Mode, t: Token, m1: Mode)
    requires NextMode(m0, t.kind) == Some(m1) && WellShaped(t)
    requires t.kind != Newline && t.kind != Indent && t.kind != Dedent
    ensures Reads(m0, [t], m1)
  {
    assert [t][1..] == [];
  }

  /** Strip of a run cut in two at `j`, with the halves written by `ta` and `tb`. */
  lemma StripJoin(ta: seq<Token>, tb: seq<Token>, text: string, i: int, j: int, k: int)
    requires 0 <= i <= j <= k <= |text|
    requires Strip(RenderAll(ta)) == Strip(text[i..j])
    requires Strip(RenderAll(tb)) == Strip(text[j..k])
    ensures Strip(RenderAll(ta + tb)) == Strip(text[i..k])
  {
    RenderAllConcat(ta, tb);
    StripConcat(RenderAll(ta), RenderAll(tb));
    StripSlices(text, i, j, k);
  }

  // ---------------------------------------------------------------------------
  // Spans as tokens, before they are placed.

  /** The tokens of `spans` with their kinds and surfaces, and no position yet. */
  function Cut(text: string, spans: seq<Span>): (ts: seq<Token>)
    requires SpansIn(text, 0, spans)
    ensures |ts| == |spans|
    ensures forall i :: 0 <= i < |spans| ==> ts[i] == Token(Surface(text, spans[i]), 0, 0, spans[i].kind)
  {
    seq(|spans|, i requires 0 <= i < |spans| => Token(Surface(text, spans[i]), 0, 0, spans[i].kind))
  }

  lemma CutConcat(text: string, a: seq<Span>, b: seq<Span>)
    requires SpansIn(text, 0, a) && SpansIn(text, 0, b)
    ensures SpansIn(text, 0, a + b)
    ensures Cut(text, a + b) == Cut(text, a) + Cut(text, b)
  {
    assert SpansIn(text, 0, a + b) by {
      forall i | 0 <= i < |a + b| ensures SpanIn(text, 0, (a + b)[i]) {
        if i >= |a| {
          assert (a + b)[i] == b[i - |a|];
        }
      }
    }
  }

  lemma CutOne(text: string, sp: Span)
    requires SpanIn(text, 0, sp)
    ensures Cut(text, [sp]) == [Token(Surface(text, sp), 0, 0, sp.kind)]
  {
  }

  /** A scan's tokens, when it succeeds, read from `m0` to `m1`. */
  predicate ScanReads(text: string, r: Option<(seq<Span>, int)>, m0: Mode, m1: Mode) {
    r.None? || (SpansIn(text, 0, r.value.0) && Reads(m0, Cut(text, r.value.0), m1))
  }

  /** Tokens with the same kinds and surfaces, whatever their positions. */
  predicate Alike(a: seq<Token>, b: seq<Token>) {
    && |a| == |b|
    && forall i :: 0 <= i < |a| ==> a[i].kind == b[i].kind && a[i].surface == b[i].surface
  }

  /** Away from the marks, how a stream reads and what it spells do not depend on
      positions. */
  lemma {:induction false} AlikeReads(m0: Mode, a: seq<Token>, b: seq<Token>, m1: Mode)
    requires Alike(a, b) && Reads(m0, b, m1)
    ensures Reads(m0, a, m1) && RenderAll(a) == RenderAll(b)
    decreases |a|
  {
    if |a| > 0 {
      assert WellShaped(a[0]) by {
        assert WellShaped(b[0]);
      }
      var m' := NextMode(m0, b[0].kind).value;
      AlikeReads(m', a[1..], b[1..], m1);
    }
  }

  lemma PlaceAlike(s: State, spans: seq<Span>)
    requires -1 <= s.position && SpansIn(s.text, s.position, spans)
    ensures SpansIn(s.text, 0, spans)
    ensures Alike(Place(s, spans), Cut(s.text, spans))
  {
  }

  /** A stream that reads from Outside and does not start with a mark reads alike
      right after an Indent or Dedent. */
  lemma ReadsMarked(ts: seq<Token>, m1: Mode)
    requires Reads(Outside, ts, m1) && |ts| > 0
    ensures Reads(Marked, ts, m1)
  {
  }

  // ---------------------------------------------------------------------------
  // Tiling: the spans lie in order in a run, with only white space between them.

  /** Every character of `text[i..j]` is white space. */
  predicate White(text: string, i: int, j: int) {
    forall k {:trigger IsWhiteSpace(text[k])} :: i <= k < j ==> 0 <= k < |text| && IsWhiteSpace(text[k])
  }

  /** `text[from..to]` opens with `(-` and closes with `-)`, the two not overlapping. */
  predicate Delimited(text: string, from: int, to: int) {
    && 0 <= from && from + 4 <= to <= |text|
    && text[from] == '(' && text[from + 1] == '-' && text[to - 2] == '-' && text[to - 1] == ')'
  }

  /** The span's run, with an Inform6 block's delimiters in place. */
  predicate Fits(text: string, sp: Span) {
    && 0 <= sp.from <= sp.to <= |text|
    && (sp.kind == Inform6 ==> Delimited(text, sp.from, sp.to))
  }

  predicate Tiles(text: string, spans: seq<Span>, from: int, to: int)
    decreases |spans|
  {
    && 0 <= from <= to <= |text|
    && if |spans| == 0 then White(text, from, to)
       else
         && from <= spans[0].from && spans[0].to <= to
         && Fits(text, spans[0])
         && White(text, from, spans[0].from)
         && Tiles(text, spans[1..], spans[0].to, to)
  }

  /** A scan's spans, when it succeeds, tile the run from `from` to its last index. */
  predicate ScanTiles(text: string, r: Option<(seq<Span>, int)>, from: int) {
    r.None? || Tiles(text, r.value.0, from, r.value.1 + 1)
  }

  lemma {:induction false} TilesJoin(text: string, a: seq<Span>, b: seq<Span>, i: int, j: int, k: int)
    requires Tiles(text, a, i, j) && Tiles(text, b, j, k)
    ensures Tiles(text, a + b, i, k)
    decreases |a|
  {
    if |a| == 0 {
      assert a + b == b;
    } else {
      assert (a + b)[0] == a[0];
      assert (a + b)[1..] == a[1..] + b;
      TilesJoin(text, a[1..], b, a[0].to, j, k);
    }
  }

  lemma TilesOne(text: string, sp: Span)
    requires Fits(text, sp)
    ensures Tiles(text, [sp], sp.from, sp.to)
  {
    assert [sp][1..] == [];
  }

  lemma TilesPending(text: string, from: int, to: int, kind: TokenType)
    requires 0 <= from <= to <= |text| && kind != Inform6
    ensures Tiles(text, PendingSpan(from, to, kind), from, to)
  {
    if from < to {
      TilesOne(text, Span(kind, from, to));
    }
  }

  /** Strip keeps an Inform6 block's delimiters around what it leaves of the inside. */
  lemma StripDelimited(x: string)
    ensures Strip("(-" + x + "-)") == "(-" + Strip(x) + "-)"
  {
    StripConcat("(-" + x, "-)");
    StripConcat("(-", x);
    assert Strip("(-") == "(-" by {
      assert "(-"[1..] == "-";
    }
    assert Strip("-)") == "-)" by {
      assert "-)"[1..] == ")";
    }
  }

  /** A token's rendering and its span's run agree, white space aside. */
  lemma RenderSpan(text: string, sp: Span, line: int, column: int)
    requires SpanIn(text, 0, sp) && Fits(text, sp)
    ensures Strip(Render(Token(Surface(text, sp), line, column, sp.kind))) == Strip(text[sp.from..sp.to])
  {
    if sp.kind == Inform6 {
      RenderInform6(text, sp, line, column);
    }
  }

  lemma RenderInform6(text: string, sp: Span, line: int, column: int)
    requires SpanIn(text, 0, sp) && Fits(text, sp) && sp.kind == Inform6
    ensures Strip(Render(Token(Surface(text, sp), line, column, sp.kind))) == Strip(text[sp.from..sp.to])
  {
    var rendered := Render(Token(Surface(text, sp), line, column, sp.kind));
    assert rendered == "(-" + Trim(text[sp.from + 2..sp.to - 2]) + "-)";
    RenderBlock(text, sp.from, sp.to);
  }

  /** An Inform6 block's rendering, with the trimmed inside, and its run agree, white
      space aside. */
  lemma RenderBlock(text: string, from: int, to: int)
    requires Delimited(text, from, to)
    ensures Strip("(-" + Trim(text[from + 2..to - 2]) + "-)") == Strip(text[from..to])
  {
    var inner := text[from + 2..to - 2];
    assert text[from..to] == "(-" + inner + "-)";
    StripDelimited(inner);
    StripDelimited(Trim(inner));
    TrimStrip(inner);
  }

  /** Strip of the tokens cut from spans: the first one's rendering, then the rest. */
  lemma StripCutHead(text: string, spans: seq<Span>)
    requires SpansIn(text, 0, spans) && |spans| > 0
    ensures SpansIn(text, 0, spans[1..])
    ensures Strip(RenderAll(Cut(text, spans)))
      == Strip(Render(Cut(text, spans)[0])) + Strip(RenderAll(Cut(text, spans[1..])))
  {
    var ts := Cut(text, spans);
    assert ts[1..] == Cut(text, spans[1..]);
    StripConcat(Render(ts[0]), RenderAll(ts[1..]));
  }

  /** Strip of a run that starts with white space up to `a` and is cut again at `b`. */
  lemma StripWhiteThen(text: string, from: int, a: int, b: int, to: int)
    requires 0 <= from <= a <= b <= to <= |text| && White(text, from, a)
    ensures Strip(text[from..to]) == Strip(text[a..b]) + Strip(text[b..to])
  {
    StripAllWhite(text[from..a]);
    StripSlices(text, from, a, to);
    StripSlices(text, a, b, to);
  }

  /** Tokens cut from tiling spans spell the run, white space aside. */
  lemma {:induction false} TilesStrip(text: string, spans: seq<Span>, from: int, to: int)
    requires SpansIn(text, 0, spans) && Tiles(text, spans, from, to)
    ensures Strip(RenderAll(Cut(text, spans))) == Strip(text[from..to])
    decreases |spans|
  {
    if |spans| == 0 {
      StripAllWhite(text[from..to]);
    } else {
      var sp := spans[0];
      StripCutHead(text, spans);
      RenderSpan(text, sp, 0, 0);
      TilesStrip(text, spans[1..], sp.to, to);
      StripWhiteThen(text, from, sp.from, sp.to, to);
    }
  }

  /** What a reader's placed tokens inherit from its spans. */
  lemma Placed(s: State, spans: seq<Span>, from: int, to: int, m0: Mode, m1: Mode)
    requires -1 <= s.position && SpansIn(s.text, s.position, spans)
    requires Tiles(s.text, spans, from, to) && Reads(m0, Cut(s.text, spans), m1)
    ensures Reads(m0, Place(s, spans), m1)
    ensures Strip(RenderAll(Place(s, spans))) == Strip(s.text[from..to])
  {
    PlaceAlike(s, spans);
    AlikeReads(m0, Place(s, spans), Cut(s.text, spans), m1);
    TilesStrip(s.text, spans, from, to);
  }

  // ---------------------------------------------------------------------------
  // Comments.

  lemma {:induction false} CommentScanFacts(text: string, p: int, i: int, depth: int)
    requires 0 <= p <= i < |text|
    requires depth == Depth(text[p..i + 1])
    requires forall k :: p < k <= i + 1 ==> Depth(text[p..k]) > 0
    ensures var r := CommentScan(text, i, depth);
      && (r.Some? ==> Balanced(text[p..r.value + 1]))
      && (r.None? ==> forall k :: p < k <= |text| ==> Depth(text[p..k]) > 0)
    decreases |text| - i
  {
    if i + 1 < |text| {
      var q := i + 1;
      var c := text[q];
      var depth' := if c == '[' then depth + 1 else if c == ']' then depth - 1 else depth;
      DepthStep(text, p, q);
      if c == ']' && depth' == 0 {
        assert CommentScan(text, i, depth) == Some(q);
        BalancedRun(text, p, q);
      } else {
        assert CommentScan(text, i, depth) == CommentScan(text, q, depth');
        CommentScanFacts(text, p, q, depth');
      }
    }
  }

  /** The depth after one more character of the run. */
  lemma DepthStep(text: string, p: int, q: int)
    requires 0 <= p <= q < |text|
    ensures Depth(text[p..q + 1])
      == Depth(text[p..q]) + (if text[q] == '[' then 1 else if text[q] == ']' then -1 else 0)
  {
    var run := text[p..q + 1];
    assert run[..|run| - 1] == text[p..q];
  }

  /** A run whose depth first returns to zero at its end is balanced. */
  lemma BalancedRun(text: string, p: int, q: int)
    requires 0 <= p < q < |text|
    requires Depth(text[p..q + 1]) == 0
    requires forall k :: p < k <= q ==> Depth(text[p..k]) > 0
    ensures Balanced(text[p..q + 1])
  {
    var run := text[p..q + 1];
    forall k | 0 < k < |run| ensures Depth(run[..k]) > 0 {
      assert run[..k] == text[p..p + k];
    }
  }

  // ---------------------------------------------------------------------------
  // String variables.

  /** A Word run of the variable, if any, in front of tokens read from InVariable. */
  lemma WordThenReads(text: string, start: int, q: int, rest: seq<Span>, m: Mode)
    requires 0 <= start <= q < |text| && SpansIn(text, 0, rest)
    requires forall k :: start <= k < q ==> !IsWhiteSpace(text[k])
    requires Reads(InVariable, Cut(text, rest), m)
    ensures SpansIn(text, 0, PendingSpan(start, q, Word) + rest)
    ensures Reads(InVariable, Cut(text, PendingSpan(start, q, Word) + rest), m)
  {
    var word := PendingSpan(start, q, Word);
    CutConcat(text, word, rest);
    if start < q {
      CutOne(text, word[0]);
      ReadsOne(InVariable, Cut(text, word)[0], InVariable);
      ReadsJoin(InVariable, InVariable, m, Cut(text, word), Cut(text, rest));
    } else {
      assert word + rest == rest;
    }
  }

  lemma CloseReads(text: string, q: int, kind: TokenType, m0: Mode, m1: Mode)
    requires 0 <= q < |text| && kind != Inform6
    requires kind != Newline && kind != Indent && kind != Dedent
    requires NextMode(m0, kind) == Some(m1) && WellShaped(Token(text[q..q + 1], 0, 0, kind))
    ensures Reads(m0, Cut(text, [Span(kind, q, q + 1)]), m1)
  {
    CutOne(text, Span(kind, q, q + 1));
    ReadsOne(m0, Cut(text, [Span(kind, q, q + 1)])[0], m1);
  }

  lemma {:induction false} VariableScanReads(text: string, start: int, i: int)
    requires 0 <= i < |text| && 0 <= start <= i + 1
    requires forall k :: start <= k <= i ==> !IsWhiteSpace(text[k])
    ensures var r := VariableScan(text, start, i);
      ScanReads(text, r, InVariable, InString(false))
    decreases |text| - i, 1
  {
    if i + 1 < |text| {
      var q := i + 1;
      if IsWhiteSpace(text[q]) {
        WhiteStepReads(text, start, q);
      } else if text[q] == ']' {
        assert text[q..q + 1] == "]";
        CloseReads(text, q, StringVariableEnd, InVariable, InString(false));
        WordThenReads(text, start, q, [Span(StringVariableEnd, q, q + 1)], InString(false));
      } else {
        VariableScanReads(text, start, q);
      }
    }
  }

  /** The step of the variable loop at a white-space character: the pending Word,
      then the rest of the variable. */
  lemma {:induction false} WhiteStepReads(text: string, start: int, q: int)
    requires 0 < q < |text| && 0 <= start <= q && IsWhiteSpace(text[q])
    requires forall k :: start <= k < q ==> !IsWhiteSpace(text[k])
    ensures var r := VariableScan(text, start, q - 1);
      ScanReads(text, r, InVariable, InString(false))
    decreases |text| - q, 2
  {
    VariableScanReads(text, q + 1, q);
    var rest := VariableScan(text, q + 1, q);
    if rest.Some? {
      WordThenReads(text, start, q, rest.value.0, InString(false));
    }
  }

  /** A pending run, if any, in front of spans that tile the rest of the run. */
  lemma PendingThenTiles(text: string, start: int, q: int, kind: TokenType, rest: seq<Span>, e: int)
    requires 0 <= start <= q && kind != Inform6 && Tiles(text, rest, q, e)
    ensures Tiles(text, PendingSpan(start, q, kind) + rest, start, e)
  {
    TilesPending(text, start, q, kind);
    TilesJoin(text, PendingSpan(start, q, kind), rest, start, q, e);
  }

  /** Spans that tile the run after a white-space character tile the run from it. */
  lemma WhiteThenTiles(text: string, q: int, rest: seq<Span>, e: int)
    requires 0 <= q < |text| && IsWhiteSpace(text[q]) && Tiles(text, rest, q + 1, e)
    ensures Tiles(text, rest, q, e)
  {
    if |rest| > 0 {
      assert Tiles(text, rest[1..], rest[0].to, e);
    }
  }

  lemma {:induction false} VariableScanTiles(text: string, start: int, i: int)
    requires 0 <= i < |text| && 0 <= start <= i + 1
    ensures var r := VariableScan(text, start, i);
      ScanTiles(text, r, start)
    decreases |text| - i, 1
  {
    if i + 1 < |text| {
      var q := i + 1;
      if IsWhiteSpace(text[q]) {
        WhiteStepTiles(text, start, q);
      } else if text[q] == ']' {
        assert VariableScan(text, start, i) == Some((PendingSpan(start, q, Word) + [Span(StringVariableEnd, q, q + 1)], q));
        TilesOne(text, Span(StringVariableEnd, q, q + 1));
        PendingThenTiles(text, start, q, Word, [Span(StringVariableEnd, q, q + 1)], q + 1);
      } else {
        VariableScanTiles(text, start, q);
      }
    }
  }

  /** The step of the variable loop at a white-space character, for tiling. */
  lemma {:induction false} WhiteStepTiles(text: string, start: int, q: int)
    requires 0 < q < |text| && 0 <= start <= q && IsWhiteSpace(text[q])
    ensures var r := VariableScan(text, start, q - 1);
      ScanTiles(text, r, start)
    decreases |text| - q, 2
  {
    VariableScanTiles(text, q + 1, q);
    var rest := VariableScan(text, q + 1, q);
    if rest.Some? {
      assert VariableScan(text, start, q - 1) == Some((PendingSpan(start, q, Word) + rest.value.0, rest.value.1));
      WhiteThenTiles(text, q, rest.value.0, rest.value.1 + 1);
      PendingThenTiles(text, start, q, Word, rest.value.0, rest.value.1 + 1);
    }
  }

  /** The tokens of a `[...]` variable, its marks around Words, read in either string
      mode and lead back to the mode after a closed variable. */
  lemma ReadStringVariablesReads(text: string, q: int)
    requires 0 <= q < |text| && text[q] == '['
    ensures var r := ReadStringVariables(text, q);
      ScanReads(text, r, InString(false), InString(false)) && ScanReads(text, r, InString(true), InString(false))
  {
    var v := VariableScan(text, q + 1, q);
    if v.Some? {
      VariableScanReads(text, q + 1, q);
      VariableOpenReads(text, q, v.value.0);
    }
  }

  /** The spans of a `[...]` variable tile the text from the `[` to the `]`. */
  lemma ReadStringVariablesTiles(text: string, q: int)
    requires 0 <= q < |text| && text[q] == '['
    ensures var r := ReadStringVariables(text, q);
      ScanTiles(text, r, q)
  {
    var v := VariableScan(text, q + 1, q);
    if v.Some? {
      VariableScanTiles(text, q + 1, q);
      VariableOpenTiles(text, q, v.value.0, v.value.1);
    }
  }

  /** The StringVariableStart mark in front of the rest of a variable. */
  lemma VariableOpenReads(text: string, q: int, rest: seq<Span>)
    requires 0 <= q < |text| && text[q] == '[' && SpansIn(text, 0, rest)
    requires Reads(InVariable, Cut(text, rest), InString(false))
    ensures SpansIn(text, 0, [Span(StringVariableStart, q, q + 1)] + rest)
    ensures Reads(InString(false), Cut(text, [Span(StringVariableStart, q, q + 1)] + rest), InString(false))
    ensures Reads(InString(true), Cut(text, [Span(StringVariableStart, q, q + 1)] + rest), InString(false))
  {
    assert text[q..q + 1] == "[";
    OpenThenReads(text, q, StringVariableStart, InString(false), InVariable, rest, InString(false));
    OpenThenReads(text, q, StringVariableStart, InString(true), InVariable, rest, InString(false));
  }

  lemma VariableOpenTiles(text: string, q: int, rest: seq<Span>, k: int)
    requires 0 <= q < |text| && Tiles(text, rest, q + 1, k + 1)
    ensures Tiles(text, [Span(StringVariableStart, q, q + 1)] + rest, q, k + 1)
  {
    var open := [Span(StringVariableStart, q, q + 1)];
    TilesOne(text, open[0]);
    TilesJoin(text, open, rest, q, q + 1, k + 1);
  }

  /** A one-character mark in front of tokens read from the mode it leads to. */
  lemma OpenThenReads(text: string, q: int, kind: TokenType, m0: Mode, m1: Mode, rest: seq<Span>, m2: Mode)
    requires 0 <= q < |text| && kind != Inform6 && SpansIn(text, 0, rest)
    requires kind != Newline && kind != Indent && kind != Dedent
    requires NextMode(m0, kind) == Some(m1) && WellShaped(Token(text[q..q + 1], 0, 0, kind))
    requires Reads(m1, Cut(text, rest), m2)
    ensures SpansIn(text, 0, [Span(kind, q, q + 1)] + rest)
    ensures Reads(m0, Cut(text, [Span(kind, q, q + 1)] + rest), m2)
  {
    CloseReads(text, q, kind, m0, m1);
    CutConcat(text, [Span(kind, q, q + 1)], rest);
    ReadsJoin(m0, m1, m2, Cut(text, [Span(kind, q, q + 1)]), Cut(text, rest));
  }

  // ---------------------------------------------------------------------------
  // Strings.

  /** A literal run, if any, in front of tokens read from the string mode it leads to. */
  lemma LiteralThenReads(text: string, start: int, q: int, rest: seq<Span>, m: Mode)
    requires 0 <= start <= q < |text| && SpansIn(text, 0, rest)
    requires forall k :: start <= k < q ==> text[k] != '[' && text[k] != '"'
    requires Reads(InString(start < q), Cut(text, rest), m)
    ensures SpansIn(text, 0, PendingSpan(start, q, StringLiteral) + rest)
    ensures Reads(InString(false), Cut(text, PendingSpan(start, q, StringLiteral) + rest), m)
  {
    var literal := PendingSpan(start, q, StringLiteral);
    CutConcat(text, literal, rest);
    if start < q {
      CutOne(text, literal[0]);
      ReadsOne(InString(false), Cut(text, literal)[0], InString(true));
      ReadsJoin(InString(false), InString(true), m, Cut(text, literal), Cut(text, rest));
    } else {
      assert literal + rest == rest;
    }
  }

  lemma {:induction false} StringScanReads(text: string, start: int, i: int)
    requires 0 <= i < |text| && 0 <= start <= i + 1
    requires forall k :: start <= k <= i ==> text[k] != '[' && text[k] != '"'
    ensures var r := StringScan(text, start, i);
      ScanReads(text, r, InString(false), Outside)
    decreases |text| - i, 1
  {
    if i + 1 < |text| {
      var q := i + 1;
      if text[q] == '[' {
        VariableStepReads(text, start, q);
      } else if text[q] == '"' {
        QuoteStepReads(text, start, q);
      } else {
        StringScanReads(text, start, q);
      }
    }
  }

  /** The step of the string loop at the closing `"`. */
  lemma QuoteStepReads(text: string, start: int, q: int)
    requires 0 < q < |text| && 0 <= start <= q && text[q] == '"'
    requires forall k :: start <= k < q ==> text[k] != '[' && text[k] != '"'
    ensures var r := StringScan(text, start, q - 1);
      ScanReads(text, r, InString(false), Outside)
  {
    assert StringScan(text, start, q - 1)
      == Some((PendingSpan(start, q, StringLiteral) + [Span(QuotesEnd, q, q + 1)], q));
    assert text[q..q + 1] == "\"";
    CloseReads(text, q, QuotesEnd, InString(start < q), Outside);
    LiteralThenReads(text, start, q, [Span(QuotesEnd, q, q + 1)], Outside);
  }

  /** The step of the string loop at a `[`: the variable, then the rest of the string. */
  lemma {:induction false} VariableStepReads(text: string, start: int, q: int)
    requires 0 < q < |text| && 0 <= start <= q && text[q] == '['
    requires forall k :: start <= k < q ==> text[k] != '[' && text[k] != '"'
    ensures var r := StringScan(text, start, q - 1);
      ScanReads(text, r, InString(false), Outside)
    decreases |text| - q, 2
  {
    var v := ReadStringVariables(text, q);
    if v.Some? {
      var k := v.value.1;
      var rest := StringScan(text, k + 1, k);
      StringScanReads(text, k + 1, k);
      if rest.Some? {
        assert StringScan(text, start, q - 1)
          == Some((PendingSpan(start, q, StringLiteral) + (v.value.0 + rest.value.0), rest.value.1));
        var m := InString(start < q);
        assert SpansIn(text, 0, v.value.0 + rest.value.0)
          && Reads(m, Cut(text, v.value.0 + rest.value.0), Outside) by {
          ReadStringVariablesReads(text, q);
          CutConcat(text, v.value.0, rest.value.0);
          ReadsJoin(m, InString(false), Outside, Cut(text, v.value.0), Cut(text, rest.value.0));
        }
        LiteralThenReads(text, start, q, v.value.0 + rest.value.0, Outside);
      }
    }
  }

  lemma {:induction false} StringScanTiles(text: string, start: int, i: int)
    requires 0 <= i < |text| && 0 <= start <= i + 1
    ensures var r := StringScan(text, start, i);
      ScanTiles(text, r, start)
    decreases |text| - i, 1
  {
    if i + 1 < |text| {
      var q := i + 1;
      if text[q] == '[' {
        VariableStepTiles(text, start, q);
      } else if text[q] == '"' {
        QuoteStepTiles(text, start, q);
      } else {
        StringScanTiles(text, start, q);
      }
    }
  }

  /** The step of the string loop at a `[`, given how the rest of the string tiles. */
  lemma {:induction false} VariableStepTiles(text: string, start: int, q: int)
    requires 0 < q < |text| && 0 <= start <= q && text[q] == '['
    ensures var r := StringScan(text, start, q - 1);
      ScanTiles(text, r, start)
    decreases |text| - q, 2
  {
    var v := ReadStringVariables(text, q);
    if v.Some? {
      var k := v.value.1;
      var rest := StringScan(text, k + 1, k);
      StringScanTiles(text, k + 1, k);
      if rest.Some? {
        assert StringScan(text, start, q - 1)
          == Some((PendingSpan(start, q, StringLiteral) + (v.value.0 + rest.value.0), rest.value.1));
        ReadStringVariablesTiles(text, q);
        SegmentsThenTiles(text, start, q, v.value.0, k + 1, rest.value.0, rest.value.1 + 1);
      }
    }
  }

  /** A literal run, a variable's spans and the rest of the string, tiling in turn. */
  lemma SegmentsThenTiles(text: string, start: int, q: int, a: seq<Span>, j: int, b: seq<Span>, e: int)
    requires 0 <= start <= q && Tiles(text, a, q, j) && Tiles(text, b, j, e)
    ensures Tiles(text, PendingSpan(start, q, StringLiteral) + (a + b), start, e)
  {
    TilesJoin(text, a, b, q, j, e);
    PendingThenTiles(text, start, q, StringLiteral, a + b, e);
  }

  /** The step of the string loop at the closing `"`. */
  lemma QuoteStepTiles(text: string, start: int, q: int)
    requires 0 < q < |text| && 0 <= start <= q && text[q] == '"'
    ensures var r := StringScan(text, start, q - 1);
      ScanTiles(text, r, start)
  {
    assert StringScan(text, start, q - 1)
      == Some((PendingSpan(start, q, StringLiteral) + [Span(QuotesEnd, q, q + 1)], q));
    TilesOne(text, Span(QuotesEnd, q, q + 1));
    PendingThenTiles(text, start, q, StringLiteral, [Span(QuotesEnd, q, q + 1)], q + 1);
  }

  // ---------------------------------------------------------------------------
  // Inform6 blocks.

  lemma {:induction false} Inform6ScanFacts(text: string, i: int)
    requires 0 <= i < |text|
    ensures var r := Inform6Scan(text, i);
      && (r.Some? ==> forall j :: i < j < r.value ==> !CloseAt(text, j))
      && (r.None? ==> forall j :: i < j < |text| ==> !CloseAt(text, j))
    decreases |text| - i
  {
    if i + 1 < |text| && !CloseAt(text, i + 1) {
      Inform6ScanFacts(text, i + 1);
    }
  }

  // ---------------------------------------------------------------------------
  // The readers.

  /** A scan's result `(spans, k)` cuts the run from `from` to its last index `k`:
      the spans lie in the text from `from` on, their tokens take the automaton from
      `m0` to `m1`, and they tile the run. */
  predicate Segment(text: string, from: int, r: (seq<Span>, int), m0: Mode, m1: Mode) {
    match r
    case (spans, k) =>
      && SpansIn(text, from, spans)
      && SpansIn(text, 0, spans)
      && Reads(m0, Cut(text, spans), m1)
      && Tiles(text, spans, from, k + 1)
  }

  /** A reader's success from `p`: at least one span, cutting the run from `p` to its
      last index, read from Outside back to Outside. */
  predicate Cuts(text: string, p: int, r: (seq<Span>, int)) {
    match r
    case (spans, k) =>
      && 0 <= p <= k < |text|
      && |spans| > 0
      && Segment(text, p, r, Outside, Outside)
  }

  /** A reader's single token: read in one step, and tiling its own run. */
  lemma SingleCuts(text: string, sp: Span, k: int)
    requires 0 <= sp.from <= k && sp.to == k + 1 <= |text|
    requires SpanIn(text, 0, sp) && Fits(text, sp) && ContentMode(sp.kind) == Some(Outside)
    requires WellShaped(Token(Surface(text, sp), 0, 0, sp.kind))
    ensures Cuts(text, sp.from, ([sp], k))
  {
    CutOne(text, sp);
    ReadsOne(Outside, Cut(text, [sp])[0], Outside);
    TilesOne(text, sp);
  }

  /** ReadWord cuts a Punctuation character, or the longest run of word characters
      from a letter or digit as one Word. */
  lemma ReadWordFacts(text: string, p: int)
    requires 0 <= p < |text| && !IsWhiteSpace(text[p]) && text[p] != '[' && text[p] != '"'
    ensures var r := ReadWord(text, p);
      && Cuts(text, p, r)
      && r.0 == [Span(if IsLetterOrDigit(text[p]) then Word else Punctuation, p, r.1 + 1)]
      && (!IsLetterOrDigit(text[p]) ==> r.1 == p)
      && (IsLetterOrDigit(text[p]) ==>
            && (forall k :: p < k <= r.1 ==> IsWordChar(text[k]))
            && (r.1 + 1 < |text| ==> !IsWordChar(text[r.1 + 1])))
  {
    var r := ReadWord(text, p);
    var sp := r.0[0];
    assert WellShaped(Token(Surface(text, sp), 0, 0, sp.kind)) by {
      if IsLetterOrDigit(text[p]) {
        WordHasNoWhiteSpace(text, p, r.1);
      }
    }
    SingleCuts(text, sp, r.1);
  }

  lemma WordHasNoWhiteSpace(text: string, p: int, e: int)
    requires 0 <= p <= e < |text| && IsLetterOrDigit(text[p])
    requires forall k :: p < k <= e ==> IsWordChar(text[k])
    ensures NoWhiteSpace(text[p..e + 1])
  {
    forall k | p <= k <= e ensures !IsWhiteSpace(text[k]) {
      if IsLetterOrDigit(text[k]) {
        LetterOrDigitIsNotWhiteSpace(text[k]);
      }
    }
  }

  /** ReadComment cuts the shortest run from the `[` whose brackets balance; it fails
      exactly when no run from the `[` balances. */
  lemma ReadCommentFacts(text: string, p: int)
    requires 0 <= p < |text| && text[p] == '['
    ensures var r := ReadComment(text, p);
      && (r.Ok? ==> Cuts(text, p, r.value))
      && (r.Ok? ==> r.value.0 == [Span(Comment, p, r.value.1 + 1)] && Balanced(text[p..r.value.1 + 1]))
      && (r.Err? ==> r.error == Unterminated(UnterminatedComment))
      && (r.Err? <==> forall k :: p < k <= |text| ==> Depth(text[p..k]) > 0)
  {
    assert Depth(text[p..p + 1]) == 1 by {
      assert text[p..p + 1][..0] == [];
    }
    CommentScanFacts(text, p, p, 1);
    var c := CommentScan(text, p, 1);
    if c.Some? {
      CommentCuts(text, p, c.value, ReadComment(text, p).value);
    }
  }

  lemma CommentCuts(text: string, p: int, k: int, r: (seq<Span>, int))
    requires 0 <= p < k < |text| && Balanced(text[p..k + 1])
    requires r == ([Span(Comment, p, k + 1)], k)
    ensures Cuts(text, p, r)
  {
    SingleCuts(text, Span(Comment, p, k + 1), k);
  }

  /** The string loop from just after the opening `"`, when it closes, cuts the rest
      of the string. */
  lemma StringRest(text: string, p: int)
    requires 0 <= p < |text|
    ensures var v := StringScan(text, p + 1, p);
      v.Some? ==> Segment(text, p + 1, v.value, InString(false), Outside)
  {
    StringScanReads(text, p + 1, p);
    StringScanTiles(text, p + 1, p);
  }

  /** ReadString's spans open with the QuotesStart mark at the `"`, form one complete
      string of the stream and end on the closing `"`. */
  lemma ReadStringFacts(text: string, p: int)
    requires 0 <= p < |text| && text[p] == '"'
    ensures var r := ReadString(text, p);
      && (r.Ok? ==> Cuts(text, p, r.value))
      && (r.Ok? ==> r.value.0[0] == Span(QuotesStart, p, p + 1) && text[r.value.1] == '"')
      && (r.Err? ==> r.error == Unterminated(UnterminatedString))
  {
    var v := StringScan(text, p + 1, p);
    if v.Some? {
      StringRest(text, p);
      QuoteOpen(text, p, v.value, ReadString(text, p).value);
    }
  }

  /** The QuotesStart mark in front of the rest of a string. */
  lemma QuoteOpen(text: string, p: int, rest: (seq<Span>, int), r: (seq<Span>, int))
    requires 0 <= p < rest.1 < |text| && text[p] == '"'
    requires Segment(text, p + 1, rest, InString(false), Outside)
    requires r == ([Span(QuotesStart, p, p + 1)] + rest.0, rest.1)
    ensures Cuts(text, p, r)
  {
    QuoteOpenReads(text, p, rest.0, r.0);
    QuoteOpenTiles(text, p, rest, r);
  }

  /** The QuotesStart mark leads from Outside into the string the rest reads. */
  lemma QuoteOpenReads(text: string, p: int, rest: seq<Span>, spans: seq<Span>)
    requires 0 <= p < |text| && text[p] == '"'
    requires SpansIn(text, p + 1, rest) && SpansIn(text, 0, rest)
    requires Reads(InString(false), Cut(text, rest), Outside)
    requires spans == [Span(QuotesStart, p, p + 1)] + rest
    ensures SpansIn(text, p, spans) && SpansIn(text, 0, spans)
    ensures Reads(Outside, Cut(text, spans), Outside)
  {
    assert text[p..p + 1] == "\"";
    OpenThenReads(text, p, QuotesStart, Outside, InString(false), rest, Outside);
    assert SpansIn(text, p, spans) by {
      forall i | 0 <= i < |spans| ensures SpanIn(text, p, spans[i]) {
        if i > 0 {
          assert spans[i] == rest[i - 1];
        }
      }
    }
  }

  /** The QuotesStart mark tiles its `"`, in front of the rest of the string. */
  lemma QuoteOpenTiles(text: string, p: int, rest: (seq<Span>, int), r: (seq<Span>, int))
    requires 0 <= p < rest.1 < |text| && text[p] == '"'
    requires Tiles(text, rest.0, p + 1, rest.1 + 1)
    requires r == ([Span(QuotesStart, p, p + 1)] + rest.0, rest.1)
    ensures Tiles(text, r.0, p, r.1 + 1)
  {
    var open := [Span(QuotesStart, p, p + 1)];
    TilesOne(text, open[0]);
    TilesJoin(text, open, rest.0, p, p + 1, rest.1 + 1);
  }

  /** ReadInform6Block cuts up to the first `-)` after the `(`; it fails on the
      negative length exactly for `(-)`, and at the end of the text exactly when no
      `-)` follows. */
  lemma ReadInform6BlockFacts(text: string, p: int)
    requires 0 <= p && p + 1 < |text| && text[p] == '(' && text[p + 1] == '-'
    ensures var r := ReadInform6Block(text, p);
      && (r.Ok? ==> Cuts(text, p, r.value))
      && (r.Ok? ==> var k := r.value.1 - 1;
            && p + 2 <= k
            && CloseAt(text, k)
            && (forall j :: p < j < k ==> !CloseAt(text, j))
            && |r.value.0| == 1 && r.value.0[0] == Span(Inform6, p, k + 2))
      && (r.Err? ==> r.error == NegativeLength || r.error == Unterminated(UnterminatedInform6))
      && (r == Err(NegativeLength) <==> EmptyBlockAt(text, p))
      && (r == Err(Unterminated(UnterminatedInform6)) <==> forall j :: p < j < |text| ==> !CloseAt(text, j))
  {
    Inform6ScanFacts(text, p);
    var c := Inform6Scan(text, p);
    var r := ReadInform6Block(text, p);
    if r.Ok? {
      Inform6Cuts(text, p, c.value, r.value);
    }
  }

  /** The block from the `(-` at `p` to the `-)` at `k`, as one Inform6 token. */
  lemma Inform6Cuts(text: string, p: int, k: int, r: (seq<Span>, int))
    requires 0 <= p && p + 2 <= k && CloseAt(text, k) && text[p] == '(' && text[p + 1] == '-'
    requires r == ([Span(Inform6, p, k + 2)], k + 1)
    ensures Cuts(text, p, r)
  {
    var sp := Span(Inform6, p, k + 2);
    assert WellShaped(Token(Surface(text, sp), 0, 0, Inform6)) by {
      TrimFacts(text[p + 2..k]);
    }
    SingleCuts(text, sp, k + 1);
  }

  /** The messages of the three constructs a reader can leave unterminated. */
  predicate IsUnterminated(message: string) {
    message == UnterminatedComment || message == UnterminatedString || message == UnterminatedInform6
  }

  /** Whatever reader the character selects, it cuts the run it consumes; a failure
      names the reader's unterminated construct, or is the empty block at `p`. */
  lemma ReadAtFacts(text: string, p: int)
    requires 0 <= p < |text| && !IsWhiteSpace(text[p])
    ensures var r := ReadAt(text, p);
      && (r.Ok? ==> Cuts(text, p, r.value))
      && (r == Err(NegativeLength) ==> EmptyBlockAt(text, p))
      && (r.Err? && r.error.Unterminated? ==> IsUnterminated(r.error.message))
  {
    var c := text[p];
    if c == '[' {
      ReadCommentFacts(text, p);
    } else if c == '"' {
      ReadStringFacts(text, p);
    } else if c == '(' && p + 1 < |text| && text[p + 1] == '-' {
      ReadInform6BlockFacts(text, p);
    } else {
      ReadWordFacts(text, p);
    }
  }

  // ---------------------------------------------------------------------------
  // The switch.

  /** Tokens that spell the run `text[p..k + 1]`: at least one, read outside strings
      and right after a mark alike, and rendering that run, white space aside. */
  predicate Spelled(text: string, p: int, k: int, tokens: seq<Token>) {
    && 0 <= p <= k < |text|
    && |tokens| > 0
    && Reads(Outside, tokens, Outside)
    && Reads(Marked, tokens, Outside)
    && Strip(RenderAll(tokens)) == Strip(text[p..k + 1])
  }

  /** A reader's placed tokens spell the run from the cursor to the reader's last
      state. */
  predicate Spells(s: State, sc: Scan) {
    Spelled(s.text, s.position, sc.last.position, sc.tokens)
  }

  /** Whatever reader the character under the cursor selects, its placed tokens spell
      its run; an error is reported at the end of the text, or is the empty Inform6
      block at the cursor. */
  lemma DispatchFacts(s: State)
    requires InText(s) && !IsWhiteSpace(s.Character())
    ensures var r := Dispatch(s);
      && (r.Ok? ==> Spells(s, r.value))
      && (r.Err? && r.error.SyntaxError? ==> r.error.line == EndFrom(s).line && r.error.column == EndFrom(s).column)
      && (r.Err? && r.error.SyntaxError? ==> IsUnterminated(r.error.message))
      && (r.Err? && r.error.ArgumentOutOfRange? ==> EmptyBlockAt(s.text, s.position))
  {
    var p := s.position;
    var r := ReadAt(s.text, p);
    ReadAtFacts(s.text, p);
    if r.Ok? {
      PlacedCuts(s, r.value, Dispatch(s).value);
    }
  }

  /** What a reader's tokens, placed by the cursor, inherit from its spans. */
  lemma PlacedCuts(s: State, r: (seq<Span>, int), sc: Scan)
    requires InText(s) && Cuts(s.text, s.position, r)
    requires SpansIn(s.text, s.position, r.0) && s.position <= r.1 < |s.text|
    requires sc == Scan(Place(s, r.0), At(s, r.1))
    ensures Spells(s, sc)
  {
    AtFollows(s, r.1);
    PlaceAlike(s, r.0);
    CutsSpelled(s.text, s.position, r, sc.tokens);
  }

  /** Tokens alike to a reader's unplaced tokens spell its run. */
  lemma CutsSpelled(text: string, p: int, r: (seq<Span>, int), tokens: seq<Token>)
    requires Cuts(text, p, r) && SpansIn(text, 0, r.0) && Alike(tokens, Cut(text, r.0))
    ensures Spelled(text, p, r.1, tokens)
  {
    CutsSpell(text, p, r);
    AlikeReads(Outside, tokens, Cut(text, r.0), Outside);
    AlikeReads(Marked, tokens, Cut(text, r.0), Outside);
  }

  /** The unplaced tokens of a reader's success spell its run. */
  lemma CutsSpell(text: string, p: int, r: (seq<Span>, int))
    requires Cuts(text, p, r)
    ensures 0 <= p <= r.1 < |text| && |r.0| > 0 && SpansIn(text, 0, r.0)
    ensures Reads(Outside, Cut(text, r.0), Outside) && Reads(Marked, Cut(text, r.0), Outside)
    ensures Strip(RenderAll(Cut(text, r.0))) == Strip(text[p..r.1 + 1])
  {
    TilesStrip(text, r.0, p, r.1 + 1);
    ReadsMarked(Cut(text, r.0), Outside);
  }
}
