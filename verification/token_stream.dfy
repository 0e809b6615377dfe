/**
  Reference definitions for what a token stream produced by the lexer looks like:
  the shape of each kind of token, the order in which kinds may follow one another,
  and the text a stream stands for.
 */
module TokenStream {

  import opened Outcomes
  import opened Chars
  import opened Tokens

  /** Bracket depth after a run: opening brackets minus closing ones. */
  function Depth(run: string): int
  {
    if |run| == 0 then 0
    else
      var last := run[|run| - 1];
      Depth(run[..|run| - 1]) + (if last == '[' then 1 else if last == ']' then -1 else 0)
  }

  /** A bracketed comment: the depth is positive after every proper prefix and zero
      after the whole run, so the first bracket is closed exactly at the end. */
  predicate Balanced(run: string) {
    && |run| >= 2
    && Depth(run) == 0
    && forall k :: 0 < k < |run| ==> Depth(run[..k]) > 0
  }

  lemma BalancedDelimiters(run: string)
    requires Balanced(run)
    ensures run[0] == '[' && run[|run| - 1] == ']'
  {
    assert run[..1][..0] == [];
    assert Depth(run[..1]) > 0;
    assert Depth(run[..|run| - 1]) > 0;
  }

  /** What each kind of token looks like. */
  predicate WellShaped(t: Token) {
    match t.kind
    case Newline => t.surface == "" && t.column == 0
    case Indent => t.surface == "" && t.column == 0
    case Dedent => t.surface == "" && t.column == 0
    case Word => |t.surface| > 0 && NoWhiteSpace(t.surface)
    case Punctuation =>
      && |t.surface| == 1
      && !IsWhiteSpace(t.surface[0])
      && !IsLetterOrDigit(t.surface[0])
      && t.surface[0] != '['
      && t.surface[0] != '"'
    case Comment => Balanced(t.surface)
    case QuotesStart => t.surface == "\""
    case QuotesEnd => t.surface == "\""
    case StringLiteral =>
      && |t.surface| > 0
      && forall k :: 0 <= k < |t.surface| ==> t.surface[k] != '[' && t.surface[k] != '"'
    case StringVariableStart => t.surface == "["
    case StringVariableEnd => t.surface == "]"
    case Inform6 => Trimmed(t.surface)
    case Unknown => false
  }

  predicate AllWellShaped(ts: seq<Token>) {
    forall i {:trigger WellShaped(ts[i])} :: 0 <= i < |ts| ==> WellShaped(ts[i])
  }

  /** Where a reader of the stream stands: between sentences' tokens, just after an
      Indent or Dedent, inside a string (just after a literal run or not), or inside
      a string's `[...]` variable. */
  datatype Mode = Outside | Marked | InString(afterLiteral: bool) | InVariable

  /** The kinds that start the text of a non-white character outside strings. */
  function ContentMode(k: TokenType): Option<Mode>
  {
    if k == Word || k == Punctuation || k == Comment || k == Inform6 then Some(Outside)
    else if k == QuotesStart then Some(InString(false))
    else None
  }

  function NextMode(m: Mode, k: TokenType): Option<Mode>
  {
    match m
    case Outside =>
      if k == Newline then Some(Outside)
      else if k == Indent || k == Dedent then Some(Marked)
      else ContentMode(k)
    case Marked => ContentMode(k)
    case InString(afterLiteral) =>
      if k == StringLiteral && !afterLiteral then Some(InString(true))
      else if k == StringVariableStart then Some(InVariable)
      else if k == QuotesEnd then Some(Outside)
      else None
    case InVariable =>
      if k == Word then Some(InVariable)
      else if k == StringVariableEnd then Some(InString(false))
      else None
  }

  /** Runs the automaton over the kinds of `ts`; None when some kind may not follow. */
  function Run(m: Mode, ts: seq<Token>): Option<Mode>
    decreases |ts|
  {
    if |ts| == 0 then Some(m)
    else
      match NextMode(m, ts[0].kind)
      case None => None
      case Some(m') => Run(m', ts[1..])
  }

  /** The order of kinds in a complete stream: strings are closed, variables inside
      them are closed, two literal runs never touch, and an Indent or Dedent is
      followed directly by the token it announces. */
  predicate WellFormed(ts: seq<Token>) {
    Run(Outside, ts) == Some(Outside)
  }

  lemma {:induction false} RunConcat(m: Mode, a: seq<Token>, b: seq<Token>)
    ensures Run(m, a + b) == (if Run(m, a).None? then None else Run(Run(m, a).value, b))
    decreases |a|
  {
    if |a| > 0 {
      assert (a + b)[0] == a[0];
      assert (a + b)[1..] == a[1..] + b;
      match NextMode(m, a[0].kind)
      case None =>
      case Some(m') => RunConcat(m', a[1..], b);
    } else {
      assert a + b == b;
    }
  }

  /** The text a token stands for: its surface, with the delimiters an Inform6
      block's surface leaves out put back. */
  function Render(t: Token): string
  {
    if t.kind == Inform6 then "(-" + t.surface + "-)" else t.surface
  }

  function RenderAll(ts: seq<Token>): string
  {
    if |ts| == 0 then [] else Render(ts[0]) + RenderAll(ts[1..])
  }

  lemma {:induction false} RenderAllConcat(a: seq<Token>, b: seq<Token>)
    ensures RenderAll(a + b) == RenderAll(a) + RenderAll(b)
    decreases |a|
  {
    if |a| > 0 {
      assert (a + b)[0] == a[0];
      assert (a + b)[1..] == a[1..] + b;
      RenderAllConcat(a[1..], b);
    } else {
      assert a + b == b;
    }
  }

  /** The lines of the Newline tokens of `ts`, in order. */
  function NewlineLines(ts: seq<Token>): seq<int>
  {
    if |ts| == 0 then []
    else (if ts[0].kind == Newline then [ts[0].line] else []) + NewlineLines(ts[1..])
  }

  lemma {:induction false} NewlineLinesConcat(a: seq<Token>, b: seq<Token>)
    ensures NewlineLines(a + b) == NewlineLines(a) + NewlineLines(b)
    decreases |a|
  {
    if |a| > 0 {
      assert (a + b)[0] == a[0];
      assert (a + b)[1..] == a[1..] + b;
      NewlineLinesConcat(a[1..], b);
    } else {
      assert a + b == b;
    }
  }

  predicate StrictlyIncreasing(xs: seq<int>) {
    forall i, j :: 0 <= i < j < |xs| ==> xs[i] < xs[j]
  }

  /** Every element lies in the half-open interval (lo, hi]. */
  predicate Within(xs: seq<int>, lo: int, hi: int) {
    forall i :: 0 <= i < |xs| ==> lo < xs[i] <= hi
  }
}
