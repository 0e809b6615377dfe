/**
  The lexer's cursor: an immutable record over the source text that tracks the
  position, the line, the tab-expanded column and the indentation of the current
  line. `Advance` is the one step; every other state is reached from `Init` by it.
 */
module Cursor {

  import opened Chars

  const Nul: char := '\0'

  /** C#'s `%` on a positive divisor, which truncates toward zero. */
  function CsRem(a: int, b: int): (r: int)
    requires b > 0
    ensures a >= 0 ==> r == a % b
  {
    if a >= 0 then a % b else -((-a) % b)
  }

  /** C#'s `/` on a positive divisor, which truncates toward zero. */
  function CsDiv(a: int, b: int): (r: int)
    requires b > 0
    ensures a >= 0 ==> r == a / b
  {
    if a >= 0 then a / b else -((-a) / b)
  }

  /** One character of leading white space: a tab lifts the running total to the
      next multiple of four strictly above it, anything else adds one. */
  function IndentStep(total: int, c: char): (r: int)
    ensures total >= 0 ==> total < r <= total + 4
    ensures total >= 0 && c == '\t' ==> r % 4 == 0
  {
    if c == '\t' then total + (4 - CsRem(total, 4)) else total + 1
  }

  /** The raw indentation of the line whose leading white space starts at `i`: the
      scan stops at a line feed, a carriage return or the first non-white character. */
  function LeadingIndent(text: string, i: nat, total: int): (r: int)
    requires i <= |text|
    ensures total >= 0 ==> r >= total
    decreases |text| - i
  {
    if i == |text| || text[i] == '\n' || text[i] == '\r' || !IsWhiteSpace(text[i]) then total
    else LeadingIndent(text, i + 1, IndentStep(total, text[i]))
  }

  /** One column step over the character being left: one more, and for a tab up to
      the next multiple of four strictly above that. */
  function ColumnStep(column: int, c: char): int
  {
    var next := column + 1;
    if c == '\t' then next + (4 - CsRem(next, 4)) else next
  }

  datatype State = State(text: string, position: int, line: int, column: int, indentationSpaces: int) {

    /** The indentation level: the raw indentation divided by four, rounded up. */
    function Indentation(): (r: int)
      ensures indentationSpaces >= 0 ==> 0 <= r && 4 * r - 3 <= indentationSpaces <= 4 * r
    {
      CsDiv(indentationSpaces + 3, 4)
    }

    /** The character under the cursor, or Nul outside the text. */
    function Character(): (c: char)
      ensures 0 <= position < |text| ==> c == text[position]
      ensures !(0 <= position < |text|) ==> c == Nul
    {
      if position < 0 || position >= |text| then Nul else text[position]
    }

    /** The character after the cursor, or Nul when none follows. */
    function Peek(): (c: char)
      requires position >= -1
      ensures position < |text| - 1 ==> c == text[position + 1]
      ensures position >= |text| - 1 ==> c == Nul
    {
      if position >= |text| - 1 then Nul else text[position + 1]
    }

    /** True when the character being left ends a line. */
    predicate LeavesLine()
      requires position >= -1
    {
      Character() == '\n' || (Character() == '\r' && Peek() != '\n')
    }

    /** Moves one character forward if one follows; reports whether it moved. */
    function Advance(): (r: (bool, State))
      requires position >= -1
      ensures r.1.text == text
      ensures r.0 <==> position < |text| - 1
      ensures !r.0 ==> r.1 == this
      ensures r.0 ==> r.1.position == position + 1
      ensures r.0 ==> (r.1.line == line + 1 <==> 0 <= position && IsBreak(text, position))
      ensures r.0 ==> r.1.line == line || (r.1.line == line + 1 && r.1.column == 0)
      ensures r.0 && r.1.line == line ==> r.1.column > column
      ensures r.0 && r.1.line == line && Character() != '\t' ==> r.1.column == column + 1
      ensures r.0 && r.1.line == line ==> r.1.indentationSpaces == indentationSpaces
    {
      if position < |text| - 1 then
        var column' := ColumnStep(column, Character());
        if LeavesLine() then
          (true, State(text, position + 1, line + 1, 0, LeadingIndent(text, position + 1, 0)))
        else
          (true, State(text, position + 1, line, column', indentationSpaces))
      else
        (false, this)
    }

    /** Puts the cursor back before the first character, keeping the text. */
    function Reset(): (r: State)
      ensures r == Init(text)
    {
      State(text, -1, 0, -1, 0)
    }
  }

  /** A fresh cursor over `text`. */
  function Init(text: string): (s: State)
    ensures s.text == text
    ensures s.position == -1 && s.line == 0 && s.column == -1 && s.Indentation() == 0
    ensures s.Character() == Nul
    ensures s.Peek() == (if |text| > 0 then text[0] else Nul)
  {
    State(text, -1, 0, -1, 0)
  }

  /** The state after `n` calls of Advance. */
  function Steps(s: State, n: nat): (r: State)
    requires s.position >= -1
    ensures r.position >= s.position
    ensures r.text == s.text
    decreases n
  {
    if n == 0 then s else Steps(s.Advance().1, n - 1)
  }

  // ---------------------------------------------------------------------------
  // Reference definitions over the text alone.

  /** The character at `j` ends a line: a line feed, or a carriage return not
      followed by a line feed (a CR LF pair ends one line, at its LF). */
  predicate IsBreak(text: string, j: int)
    requires 0 <= j < |text|
  {
    text[j] == '\n' || (text[j] == '\r' && (j + 1 == |text| || text[j + 1] != '\n'))
  }

  /** Number of line ends strictly before index `p`. */
  function CountBreaks(text: string, p: nat): nat
    requires p <= |text|
  {
    if p == 0 then 0 else CountBreaks(text, p - 1) + (if IsBreak(text, p - 1) then 1 else 0)
  }

  /** Index of the first character of the line that holds index `p`. */
  function LineStart(text: string, p: nat): (r: nat)
    requires p <= |text|
    ensures r <= p
    ensures r == 0 <==> CountBreaks(text, p) == 0
  {
    if p == 0 then 0 else if IsBreak(text, p - 1) then p else LineStart(text, p - 1)
  }

  /** Tab-expanded width of a run of characters that holds no line end. */
  function Width(run: string): nat
  {
    if |run| == 0 then 0 else ColumnStep(Width(run[..|run| - 1]), run[|run| - 1])
  }

  /** The column of index `p`: the width of its line up to it. */
  function ColumnAt(text: string, p: nat): nat
    requires p <= |text|
  {
    Width(text[LineStart(text, p)..p])
  }

  /** The raw indentation in force at index `p`: none on the first line, else that of
      the leading white space of its line. */
  function IndentAt(text: string, p: nat): int
    requires p <= |text|
  {
    var start := LineStart(text, p);
    if start == 0 then 0 else LeadingIndent(text, start, 0)
  }

  // ---------------------------------------------------------------------------
  // Reachable states.

  lemma {:induction false} StepsLast(s: State, n: nat)
    requires s.position >= -1
    ensures Steps(s, n + 1) == Steps(s, n).Advance().1
    decreases n
  {
    if n > 0 {
      StepsLast(s.Advance().1, n - 1);
    }
  }

  lemma {:induction false} StepsAdd(s: State, a: nat, b: nat)
    requires s.position >= -1
    ensures Steps(Steps(s, a), b) == Steps(s, a + b)
    decreases a
  {
    if a > 0 {
      StepsAdd(s.Advance().1, a - 1, b);
    }
  }

  /** Line, column and indentation are those that the reference definitions compute
      from the text at the cursor's position. */
  predicate Tracks(s: State) {
    0 <= s.position < |s.text| ==>
      && s.line == CountBreaks(s.text, s.position)
      && s.column == ColumnAt(s.text, s.position)
      && s.indentationSpaces == IndentAt(s.text, s.position)
  }

  /** One step keeps a cursor in step with the reference definitions. */
  lemma TracksAdvance(s: State)
    requires -1 <= s.position < |s.text| && (s.position == -1 ==> s == Init(s.text))
    requires Tracks(s)
    ensures Tracks(s.Advance().1)
  {
    var text, p := s.text, s.position;
    if 0 <= p < |text| - 1 {
      var q := p + 1;
      if IsBreak(text, p) {
        assert LineStart(text, q) == q;
      } else {
        assert LineStart(text, q) == LineStart(text, p);
        var run := text[LineStart(text, p)..q];
        assert run[..|run| - 1] == text[LineStart(text, p)..p];
      }
    }
  }

  lemma {:induction false} FinalStateStays(s: State, n: nat)
    requires s.position >= -1 && s.position >= |s.text| - 1
    ensures Steps(s, n) == s
    decreases n
  {
    if n > 0 {
      FinalStateStays(s.Advance().1, n - 1);
    }
  }

  /** After `m` steps a fresh cursor stands at index `m - 1`, or at the last character
      once `m` exceeds the text, where further steps leave it. */
  lemma InitSteps(text: string, m: nat)
    ensures Steps(Init(text), m).position == (if m <= |text| then m else |text|) - 1
    ensures m > |text| ==> Steps(Init(text), m) == Steps(Init(text), |text|)
  {
    if m <= |text| {
      StepsPosition(Init(text), m);
    } else {
      StepsAdd(Init(text), |text|, m - |text|);
      StepsPosition(Init(text), |text|);
      FinalStateStays(Steps(Init(text), |text|), m - |text|);
    }
  }

  /** After `n` steps from a fresh cursor, position, line, column and indentation are
      those that the reference definitions compute from the text. */
  lemma {:induction false} StepsInvariant(text: string, n: nat)
    ensures Steps(Init(text), n).text == text
    ensures Steps(Init(text), n).position == (if n <= |text| then n else |text|) - 1
    ensures Steps(Init(text), n).position == -1 ==> Steps(Init(text), n) == Init(text)
    ensures Tracks(Steps(Init(text), n))
  {
    InitSteps(text, n);
    if n > 0 {
      StepsInvariant(text, n - 1);
      StepsLast(Init(text), n - 1);
      TracksAdvance(Steps(Init(text), n - 1));
    }
  }

  /** The state reached once every character has been stepped over. */
  function InputEnd(text: string): State
  {
    Steps(Init(text), |text|)
  }

  /** A state some number of Advance steps from a fresh cursor over its text. */
  ghost predicate Reachable(s: State) {
    s.position >= -1 && s == Steps(Init(s.text), s.position + 1)
  }

  lemma ReachableAdvance(s: State)
    requires Reachable(s)
    ensures Reachable(s.Advance().1)
  {
    var r := s.Advance();
    if r.0 {
      StepsLast(Init(s.text), s.position + 1);
    }
  }

  lemma ReachableSteps(s: State, n: nat)
    requires Reachable(s)
    ensures Reachable(Steps(s, n))
  {
    StepsAdd(Init(s.text), s.position + 1, n);
    InitSteps(s.text, s.position + 1 + n);
  }

  /** Facts every reachable state satisfies (the source's class invariant). */
  lemma ReachableFacts(s: State)
    requires Reachable(s)
    ensures -1 <= s.position <= (if |s.text| == 0 then -1 else |s.text| - 1)
    ensures s.position == -1 ==> s == Init(s.text)
    ensures s.position >= 0 ==> s.line == CountBreaks(s.text, s.position)
    ensures s.position >= 0 ==> s.column == ColumnAt(s.text, s.position)
    ensures s.position >= 0 ==> s.indentationSpaces == IndentAt(s.text, s.position)
    ensures s.position == |s.text| - 1 ==> s == InputEnd(s.text)
  {
    StepsInvariant(s.text, s.position + 1);
  }

  /** Advance returns false exactly at the end of the text, and keeps returning false. */
  lemma AdvanceAtEnd(s: State)
    requires Reachable(s)
    ensures !s.Advance().0 <==> s == InputEnd(s.text)
    ensures !s.Advance().0 ==> !s.Advance().1.Advance().0
  {
    ReachableFacts(s);
    StepsInvariant(s.text, |s.text|);
  }

  lemma ResetRestoresInit(s: State, n: nat)
    requires s.position >= -1
    ensures Steps(s, n).Reset() == Init(s.text)
  {
  }
  // ---------------------------------------------------------------------------
  // Runs of steps between two states.

  /** `e` is `s` after some number of Advance steps, still inside the text. */
  ghost predicate Follows(s: State, e: State) {
    && s.position >= -1
    && e.text == s.text
    && s.position <= e.position < |s.text|
    && e == Steps(s, e.position - s.position)
  }

  lemma FollowsAdvance(s: State)
    requires s.position >= -1
    requires s.position < |s.text| - 1
    ensures Follows(s, s.Advance().1)
  {
  }

  lemma FollowsTrans(a: State, b: State, c: State)
    requires Follows(a, b) && Follows(b, c)
    ensures Follows(a, c)
  {
    StepsAdd(a, b.position - a.position, c.position - b.position);
  }

  /** The state `s` reaches once it has stepped over the rest of the text. */
  function EndFrom(s: State): State
    requires -1 <= s.position <= |s.text| - 1 || s.position == -1
  {
    Steps(s, |s.text| - 1 - s.position)
  }

  lemma EndFromFollows(s: State, e: State)
    requires Follows(s, e)
    ensures EndFrom(e) == EndFrom(s)
  {
    StepsAdd(s, e.position - s.position, |s.text| - 1 - e.position);
  }

  lemma {:induction false} StepsLineMonotone(s: State, n: nat)
    requires s.position >= -1
    ensures Steps(s, n).line >= s.line
    decreases n
  {
    if n > 0 {
      StepsLineMonotone(s.Advance().1, n - 1);
    }
  }

  lemma FollowsLine(s: State, e: State)
    requires Follows(s, e)
    ensures s.line <= e.line <= EndFrom(s).line
  {
    StepsLineMonotone(s, e.position - s.position);
    EndFromFollows(s, e);
    StepsLineMonotone(e, |s.text| - 1 - e.position);
  }

  lemma EndFromInit(text: string)
    ensures EndFrom(Init(text)) == InputEnd(text)
  {
  }
  /** The state on the last character carries the line and column that the
      reference definitions give that character. */
  lemma InputEndTracks(text: string)
    requires |text| > 0
    ensures InputEnd(text).line == CountBreaks(text, |text| - 1)
    ensures InputEnd(text).column == ColumnAt(text, |text| - 1)
  {
    StepsInvariant(text, |text|);
  }

  /** The state the cursor reaches at index `j`, stepping from `s`. */
  function At(s: State, j: int): State
    requires -1 <= s.position <= j
  {
    Steps(s, j - s.position)
  }

  lemma {:induction false} StepsPosition(s: State, n: nat)
    requires -1 <= s.position && s.position + n <= |s.text| - 1
    ensures Steps(s, n).position == s.position + n
    decreases n
  {
    if n > 0 {
      StepsPosition(s.Advance().1, n - 1);
    }
  }

  lemma AtFollows(s: State, j: int)
    requires -1 <= s.position <= j < |s.text|
    ensures At(s, j).position == j && At(s, j).text == s.text
    ensures Follows(s, At(s, j))
  {
    StepsPosition(s, j - s.position);
  }
}
