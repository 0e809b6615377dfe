/**
  The tokenizer: one pass of the cursor over the text that emits Newline, Indent and
  Dedent marks and hands each non-white character to a reader for words and
  punctuation, bracketed comments, quoted strings with `[...]` variables, or `(- ... -)`
  Inform6 blocks.

  Each reader's loop advances the cursor one character at a time and stops on the
  last character it consumed. The loops are written here over the index the cursor
  stands on, and return the spans of text they cut into tokens; `Place` then gives
  each token the line and column of the cursor at the span's first character, which
  is the state the source reads them from. What the readers produce is proved in
  module LexerFacts.
 */
module Lexer {

  import opened Outcomes
  import opened Chars
  import opened Tokens
  import opened Cursor

  /** What tokenizing and the parser's helpers can throw: a SyntaxException with its
      message, line and column, or an ArgumentOutOfRangeException, which a negative
      substring length raises for an empty `(-)` block and a list's indexer raises
      for an index outside the list. */
  datatype LexError = SyntaxError(message: string, line: int, column: int) | ArgumentOutOfRange

  /** How a reader fails, before the cursor puts a line and column on it: it ran off
      the end of the text, or it took a substring of negative length. */
  datatype Failure = Unterminated(message: string) | NegativeLength

  const UnterminatedComment: string := "Unterminated comment"
  const UnterminatedString: string := "Unterminated string literal"
  const UnterminatedInform6: string := "Unterminated Inform6 Block"

  /** What a reader returns: its tokens and the state on its last character. */
  datatype Scan = Scan(tokens: seq<Token>, last: State)

  /** The cursor stands on a character of the text. */
  predicate InText(s: State) {
    0 <= s.position < |s.text|
  }

  /** The error a reader throws once the cursor has run off the end from `s`: the
      line and column are those of the state on the last character. */
  function AtEnd(s: State, message: string): (e: LexError)
    requires -1 <= s.position <= |s.text| - 1 || s.position == -1
    ensures e.SyntaxError? && e.message == message
  {
    SyntaxError(message, EndFrom(s).line, EndFrom(s).column)
  }

  // ---------------------------------------------------------------------------
  // Spans and their placement.

  /** The run `text[from..to]` read as one token of kind `kind`; for an Inform6 block
      the run includes the `(-` and `-)` delimiters. */
  datatype Span = Span(kind: TokenType, from: int, to: int)

  predicate SpanIn(text: string, lo: int, sp: Span) {
    && lo <= sp.from
    && 0 <= sp.from <= sp.to <= |text|
    && (sp.kind == Inform6 ==> sp.from + 4 <= sp.to)
  }

  /** Every span lies in the text, at or after index `lo`. */
  predicate SpansIn(text: string, lo: int, spans: seq<Span>) {
    forall i :: 0 <= i < |spans| ==> SpanIn(text, lo, spans[i])
  }

  /** The surface of a span's token: its run, or for an Inform6 block the trimmed
      text between the delimiters. */
  function Surface(text: string, sp: Span): string
    requires SpanIn(text, 0, sp)
  {
    if sp.kind == Inform6 then Trim(text[sp.from + 2..sp.to - 2]) else text[sp.from..sp.to]
  }

  /** The token of a span, placed where the cursor stands on the span's first character. */
  function PlaceOne(s: State, sp: Span): (t: Token)
    requires -1 <= s.position && SpanIn(s.text, s.position, sp)
    ensures t.kind == sp.kind && t.surface == Surface(s.text, sp)
  {
    var at := At(s, sp.from);
    Token(Surface(s.text, sp), at.line, at.column, sp.kind)
  }

  function Place(s: State, spans: seq<Span>): (ts: seq<Token>)
    requires -1 <= s.position && SpansIn(s.text, s.position, spans)
    ensures |ts| == |spans|
    ensures forall i :: 0 <= i < |spans| ==> ts[i] == PlaceOne(s, spans[i])
  {
    seq(|spans|, i requires 0 <= i < |spans| => PlaceOne(s, spans[i]))
  }

  /** The one span of `text[from..to]`, or nothing when that run is empty. */
  function PendingSpan(from: int, to: int, kind: TokenType): (r: seq<Span>)
    ensures |r| == (if from < to then 1 else 0)
    ensures forall i :: 0 <= i < |r| ==> r[i] == Span(kind, from, to)
  {
    if to > from then [Span(kind, from, to)] else []
  }

  // ---------------------------------------------------------------------------
  // Words and punctuation.

  /** The characters a word continues with: letters, digits and the apostrophe. */
  predicate IsWordChar(c: char) {
    IsLetterOrDigit(c) || c == '\''
  }

  /** The loop of ReadWord: the index of the last word character that follows `i`
      without a break. */
  function WordEnd(text: string, i: int): (e: int)
    requires 0 <= i < |text|
    ensures i <= e < |text|
    ensures forall k :: i < k <= e ==> IsWordChar(text[k])
    ensures e + 1 < |text| ==> !IsWordChar(text[e + 1])
    decreases |text| - i
  {
    if i + 1 < |text| && IsWordChar(text[i + 1]) then WordEnd(text, i + 1) else i
  }

  /** ReadWord from index `p`: a single Punctuation token for a character that is not
      a letter or digit, else the longest run of word characters as one Word. */
  function ReadWord(text: string, p: int): (r: (seq<Span>, int))
    requires 0 <= p < |text|
    ensures p <= r.1 < |text| && SpansIn(text, p, r.0)
    ensures r.0 == [Span(if IsLetterOrDigit(text[p]) then Word else Punctuation, p, r.1 + 1)]
  {
    if !IsLetterOrDigit(text[p]) then ([Span(Punctuation, p, p + 1)], p)
    else
      var e := WordEnd(text, p);
      ([Span(Word, p, e + 1)], e)
  }

  // ---------------------------------------------------------------------------
  // Comments.

  /** The loop of ReadComment from index `i`, with `depth` brackets open: the index
      of the `]` that closes the first one, or None when the text ends first. */
  function CommentScan(text: string, i: int, depth: int): (r: Option<int>)
    requires 0 <= i < |text|
    ensures r.Some? ==> i < r.value < |text| && text[r.value] == ']'
    decreases |text| - i
  {
    if i + 1 >= |text| then None
    else
      var c := text[i + 1];
      var depth' := if c == '[' then depth + 1 else if c == ']' then depth - 1 else depth;
      if c == ']' && depth' == 0 then Some(i + 1) else CommentScan(text, i + 1, depth')
  }

  /** ReadComment from the `[` at `p`: everything up to the `]` that closes it, as one
      Comment. */
  function ReadComment(text: string, p: int): (r: Result<(seq<Span>, int), Failure>)
    requires 0 <= p < |text| && text[p] == '['
    ensures r.Ok? ==> p <= r.value.1 < |text| && SpansIn(text, p, r.value.0)
    ensures r.Ok? ==> r.value.0 == [Span(Comment, p, r.value.1 + 1)] && text[r.value.1] == ']'
    ensures r.Err? ==> r.error == Unterminated(UnterminatedComment)
  {
    var c := CommentScan(text, p, 1);
    if c.None? then Err(Unterminated(UnterminatedComment))
    else Ok(([Span(Comment, p, c.value + 1)], c.value))
  }

  // ---------------------------------------------------------------------------
  // Strings and their variables.

  /** The loop of ReadStringVariables from index `i`, with the pending word starting
      at `start`: the spans read and the index of the closing `]`. */
  function VariableScan(text: string, start: int, i: int): (r: Option<(seq<Span>, int)>)
    requires 0 <= i < |text| && 0 <= start <= i + 1
    ensures r.Some? ==> i < r.value.1 < |text| && text[r.value.1] == ']'
    ensures r.Some? ==> SpansIn(text, start, r.value.0)
    decreases |text| - i
  {
    if i + 1 >= |text| then None
    else
      var q := i + 1;
      if IsWhiteSpace(text[q]) then
        var rest := VariableScan(text, q + 1, q);
        if rest.None? then None else Some((PendingSpan(start, q, Word) + rest.value.0, rest.value.1))
      else if text[q] == ']' then
        Some((PendingSpan(start, q, Word) + [Span(StringVariableEnd, q, q + 1)], q))
      else
        VariableScan(text, start, q)
  }

  /** ReadStringVariables: from the `[` at `q` inside a string, the StringVariableStart
      mark, one Word per white-space separated run, and the StringVariableEnd mark;
      with the index of the closing `]`. */
  function ReadStringVariables(text: string, q: int): (r: Option<(seq<Span>, int)>)
    requires 0 <= q < |text| && text[q] == '['
    ensures r.Some? ==> q < r.value.1 < |text| && text[r.value.1] == ']'
    ensures r.Some? ==> SpansIn(text, q, r.value.0)
  {
    var v := VariableScan(text, q + 1, q);
    if v.None? then None else Some(([Span(StringVariableStart, q, q + 1)] + v.value.0, v.value.1))
  }

  /** The loop of ReadString from index `i`, with the pending literal starting at
      `start`: the spans read and the index of the closing `"`. */
  function StringScan(text: string, start: int, i: int): (r: Option<(seq<Span>, int)>)
    requires 0 <= i < |text| && 0 <= start <= i + 1
    ensures r.Some? ==> i < r.value.1 < |text| && text[r.value.1] == '"'
    ensures r.Some? ==> SpansIn(text, start, r.value.0)
    decreases |text| - i
  {
    if i + 1 >= |text| then None
    else
      var q := i + 1;
      if text[q] == '[' then
        var v := ReadStringVariables(text, q);
        if v.None? then None
        else
          var rest := StringScan(text, v.value.1 + 1, v.value.1);
          if rest.None? then None
          else Some((PendingSpan(start, q, StringLiteral) + (v.value.0 + rest.value.0), rest.value.1))
      else if text[q] == '"' then
        Some((PendingSpan(start, q, StringLiteral) + [Span(QuotesEnd, q, q + 1)], q))
      else
        StringScan(text, start, q)
  }

  /** ReadString from the `"` at `p`: the QuotesStart mark, the literal runs and
      variables up to the next `"` outside a variable, and the QuotesEnd mark. */
  function ReadString(text: string, p: int): (r: Result<(seq<Span>, int), Failure>)
    requires 0 <= p < |text| && text[p] == '"'
    ensures r.Ok? ==> p <= r.value.1 < |text| && SpansIn(text, p, r.value.0)
    ensures r.Ok? ==> text[r.value.1] == '"' && |r.value.0| > 0 && r.value.0[0] == Span(QuotesStart, p, p + 1)
    ensures r.Err? ==> r.error == Unterminated(UnterminatedString)
  {
    var v := StringScan(text, p + 1, p);
    if v.None? then Err(Unterminated(UnterminatedString))
    else Ok(([Span(QuotesStart, p, p + 1)] + v.value.0, v.value.1))
  }

  // ---------------------------------------------------------------------------
  // Inform6 blocks.

  /** An Inform6 block closes at `j`: `-)` starts there. */
  predicate CloseAt(text: string, j: int) {
    0 <= j && j + 1 < |text| && text[j] == '-' && text[j + 1] == ')'
  }

  /** An empty Inform6 block `(-)` starts at `j`. */
  predicate EmptyBlockAt(text: string, j: int) {
    0 <= j && j + 2 < |text| && text[j] == '(' && text[j + 1] == '-' && text[j + 2] == ')'
  }

  /** The loop of ReadInform6Block from index `i`: the first index after `i` where
      `-)` starts. */
  function Inform6Scan(text: string, i: int): (r: Option<int>)
    requires 0 <= i < |text|
    ensures r.Some? ==> i < r.value && CloseAt(text, r.value)
    decreases |text| - i
  {
    if i + 1 >= |text| then None
    else if CloseAt(text, i + 1) then Some(i + 1)
    else Inform6Scan(text, i + 1)
  }

  /** ReadInform6Block from the `(-` at `p`: the trimmed text between it and the first
      `-)` that starts after the `(`, as one Inform6 token. The substring taken has
      length `k - p - 2`, negative when that `-` is the one right after the `(`. */
  function ReadInform6Block(text: string, p: int): (r: Result<(seq<Span>, int), Failure>)
    requires 0 <= p < |text|
    ensures r.Ok? ==> p <= r.value.1 < |text| && SpansIn(text, p, r.value.0)
    ensures r.Ok? ==> r.value.0 == [Span(Inform6, p, r.value.1 + 1)] && CloseAt(text, r.value.1 - 1)
    ensures r.Err? ==> r.error == NegativeLength || r.error == Unterminated(UnterminatedInform6)
  {
    var c := Inform6Scan(text, p);
    if c.None? then Err(Unterminated(UnterminatedInform6))
    else if c.value - p - 2 < 0 then Err(NegativeLength)
    else Ok(([Span(Inform6, p, c.value + 2)], c.value + 1))
  }

  // ---------------------------------------------------------------------------
  // The main loop.

  /** The switch on the non-white character at `p`: the reader it selects. */
  function ReadAt(text: string, p: int): (r: Result<(seq<Span>, int), Failure>)
    requires 0 <= p < |text|
    ensures r.Ok? ==> p <= r.value.1 < |text| && SpansIn(text, p, r.value.0)
    ensures r.Err? ==> text[p] == '[' || text[p] == '"' || text[p] == '('
  {
    var c := text[p];
    if c == '[' then ReadComment(text, p)
    else if c == '"' then ReadString(text, p)
    else if c == '(' && p + 1 < |text| && text[p + 1] == '-' then ReadInform6Block(text, p)
    else Ok(ReadWord(text, p))
  }

  /** The reader's tokens, placed where the cursor stands on each one's first
      character, and the state on the reader's last character; a reader that runs
      off the text throws at the state on its last character. */
  function Dispatch(s: State): (r: Result<Scan, LexError>)
    requires InText(s)
    ensures r.Ok? ==> Follows(s, r.value.last)
    ensures r.Err? && !r.error.ArgumentOutOfRange? ==>
      r.error.message == UnterminatedComment || r.error.message == UnterminatedString || r.error.message == UnterminatedInform6
  {
    var r := ReadAt(s.text, s.position);
    if r.Err? then
      Err(if r.error.NegativeLength? then ArgumentOutOfRange else AtEnd(s, r.error.message))
    else
      AtFollows(s, r.value.1);
      Ok(Scan(Place(s, r.value.0), At(s, r.value.1)))
  }

  /** The Indent or Dedent mark for a line whose level differs from the level
      `indentation` reported last; nothing when they agree. */
  function Mark(s: State, indentation: int): (r: seq<Token>)
    ensures |r| <= 1
    ensures |r| == 1 <==> s.Indentation() != indentation
    ensures |r| == 1 ==> r[0].kind == (if s.Indentation() > indentation then Indent else Dedent)
    ensures forall i :: 0 <= i < |r| ==> r[i].surface == "" && r[i].line == s.line && r[i].column == 0
  {
    if s.Indentation() > indentation then [Token("", s.line, 0, Indent)]
    else if s.Indentation() < indentation then [Token("", s.line, 0, Dedent)]
    else []
  }

  /** The Newline mark for the line of `s` when `line` was the last line reported. */
  function NewlineMark(s: State, line: int): (r: seq<Token>)
    ensures |r| == (if s.line > line then 1 else 0)
    ensures forall i :: 0 <= i < |r| ==> r[i] == Token("", s.line, 0, Newline)
  {
    if s.line > line then [Token("", s.line, 0, Newline)] else []
  }

  /** The main loop, from the state before its next Advance, the last line reported
      and the last indentation level reported. */
  function Loop(s: State, line: int, indentation: int): (r: Result<seq<Token>, LexError>)
    requires -1 <= s.position && (s.position < |s.text| || s.position == -1)
    ensures s.position == |s.text| - 1 ==> r == Ok([])
    decreases |s.text| - s.position
  {
    var a := s.Advance();
    if !a.0 then
      Ok([])
    else
      var s1 := a.1;
      var nl := NewlineMark(s1, line);
      var line' := if s1.line > line then s1.line else line;
      if IsWhiteSpace(s1.Character()) then
        var rest := Loop(s1, line', indentation);
        if rest.Err? then Err(rest.error) else Ok(nl + rest.value)
      else
        var mark := Mark(s1, indentation);
        var body := Dispatch(s1);
        if body.Err? then Err(body.error)
        else
          var rest := Loop(body.value.last, line', s1.Indentation());
          if rest.Err? then Err(rest.error) else Ok(nl + (mark + body.value.tokens) + rest.value)
  }

  /** Tokenize: the whole text through the main loop from a fresh cursor. */
  function Tokenize(text: string): (r: Result<seq<Token>, LexError>)
    ensures text == [] ==> r == Ok([])
  {
    Loop(Init(text), 0, 0)
  }
}
