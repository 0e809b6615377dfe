/**
  What ReadString reads, stated against the text alone: the string closes at the
  first `"` that lies outside every `[...]` variable, it fails exactly when there is
  none, and each StringLiteral is the verbatim run between its delimiters, with no
  character of the string skipped outside the variables. The main loop carries the
  last fact to every StringLiteral token of a run, and fails as soon as the first
  construct that opens in the text is left open.
 */
module LexerStrings {

  import opened Outcomes
  import opened Chars
  import opened Tokens
  import opened Cursor
  import opened TokenStream
  import opened Lexer
  import opened LexerFacts

  // ---------------------------------------------------------------------------
  // Reference definitions.

  /** The first `]` after index `i`: where a variable open at `i` closes. */
  function VariableClose(text: string, i: int): (r: Option<int>)
    requires 0 <= i < |text|
    ensures r.Some? ==> i < r.value < |text| && text[r.value] == ']'
    ensures r.Some? ==> forall k :: i < k < r.value ==> text[k] != ']'
    ensures r.None? ==> forall k :: i < k < |text| ==> text[k] != ']'
    decreases |text| - i
  {
    if i + 1 >= |text| then None
    else if text[i + 1] == ']' then Some(i + 1)
    else VariableClose(text, i + 1)
  }

  /** Where a string whose body follows index `i` closes: the first `"` after `i`
      that lies outside every variable, a variable running from a `[` to the first
      `]` after it; None when the text ends first, in a variable or not. */
  function StringClose(text: string, i: int): (r: Option<int>)
    requires 0 <= i < |text|
    ensures r.Some? ==> i < r.value < |text| && text[r.value] == '"'
    decreases |text| - i
  {
    if i + 1 >= |text| then None
    else if text[i + 1] == '"' then Some(i + 1)
    else if text[i + 1] == '[' then
      match VariableClose(text, i + 1)
      case None => None
      case Some(j) => StringClose(text, j)
    else StringClose(text, i + 1)
  }

  /** `text[a..b]` is a whole literal run of a string: it starts right after a `"` or
      a variable's `]`, holds no `[` or `"`, and ends right before one. */
  predicate LiteralRun(text: string, a: int, b: int) {
    && 1 <= a < b < |text|
    && (text[a - 1] == '"' || text[a - 1] == ']')
    && (text[b] == '[' || text[b] == '"')
    && forall k :: a <= k < b ==> text[k] != '[' && text[k] != '"'
  }

  /** Every StringLiteral span is a whole literal run. */
  predicate LiteralsExact(text: string, spans: seq<Span>) {
    forall j :: 0 <= j < |spans| && spans[j].kind == StringLiteral ==> LiteralRun(text, spans[j].from, spans[j].to)
  }

  /** Each span starts where the one before it ends, except after a variable's
      opening mark and after a word inside a variable, where white space may lie
      between. */
  predicate Tight(spans: seq<Span>) {
    forall j :: 0 <= j < |spans| - 1 && spans[j].kind != StringVariableStart && spans[j].kind != Word ==>
      spans[j + 1].from == spans[j].to
  }

  /** `text[a..b]` is a whole word of a variable: it starts right after the `[` or
      after white space, holds no white space and no `]`, and ends right before one. */
  predicate WordRun(text: string, a: int, b: int) {
    && 1 <= a < b < |text|
    && (text[a - 1] == '[' || IsWhiteSpace(text[a - 1]))
    && (text[b] == ']' || IsWhiteSpace(text[b]))
    && forall k :: a <= k < b ==> !IsWhiteSpace(text[k]) && text[k] != ']'
  }

  /** Every Word span is a whole word of a variable. */
  predicate WordsExact(text: string, spans: seq<Span>) {
    forall j :: 0 <= j < |spans| && spans[j].kind == Word ==> WordRun(text, spans[j].from, spans[j].to)
  }

  /** Every character from `lo` up to `hi` that is not white space lies in a Word span. */
  predicate WordsCover(text: string, spans: seq<Span>, lo: int, hi: int) {
    && 0 <= lo && hi <= |text|
    && forall k :: lo <= k < hi && !IsWhiteSpace(text[k]) ==>
         exists j :: 0 <= j < |spans| && spans[j].kind == Word && spans[j].from <= k < spans[j].to
  }

  // ---------------------------------------------------------------------------
  // Span sequences.

  lemma TightJoin(a: seq<Span>, b: seq<Span>)
    requires Tight(a) && Tight(b)
    requires |a| > 0 && |b| > 0 && a[|a| - 1].kind != StringVariableStart && a[|a| - 1].kind != Word ==>
      b[0].from == a[|a| - 1].to
    ensures Tight(a + b)
  {
    var s := a + b;
    forall j | 0 <= j < |s| - 1 && s[j].kind != StringVariableStart && s[j].kind != Word
      ensures s[j + 1].from == s[j].to
    {
      if j < |a| - 1 {
        assert s[j] == a[j] && s[j + 1] == a[j + 1];
      } else if j == |a| - 1 {
        assert s[j] == a[|a| - 1] && s[j + 1] == b[0];
      } else {
        assert s[j] == b[j - |a|] && s[j + 1] == b[j - |a| + 1];
      }
    }
  }

  lemma LiteralsJoin(text: string, a: seq<Span>, b: seq<Span>)
    requires LiteralsExact(text, a) && LiteralsExact(text, b)
    ensures LiteralsExact(text, a + b)
  {
    var s := a + b;
    forall j | 0 <= j < |s| && s[j].kind == StringLiteral ensures LiteralRun(text, s[j].from, s[j].to) {
      if j < |a| {
        assert s[j] == a[j];
      } else {
        assert s[j] == b[j - |a|];
      }
    }
  }

  lemma WordsJoin(text: string, a: seq<Span>, b: seq<Span>)
    requires WordsExact(text, a) && WordsExact(text, b)
    ensures WordsExact(text, a + b)
  {
    var s := a + b;
    forall j | 0 <= j < |s| && s[j].kind == Word ensures WordRun(text, s[j].from, s[j].to) {
      if j < |a| {
        assert s[j] == a[j];
      } else {
        assert s[j] == b[j - |a|];
      }
    }
  }

  lemma CoverJoin(text: string, a: seq<Span>, b: seq<Span>, lo: int, m: int, hi: int)
    requires WordsCover(text, a, lo, m) && WordsCover(text, b, m, hi)
    ensures WordsCover(text, a + b, lo, hi)
  {
    var s := a + b;
    forall k | lo <= k < hi && !IsWhiteSpace(text[k])
      ensures exists j :: 0 <= j < |s| && s[j].kind == Word && s[j].from <= k < s[j].to
    {
      if k < m {
        var j :| 0 <= j < |a| && a[j].kind == Word && a[j].from <= k < a[j].to;
        assert s[j] == a[j];
      } else {
        var j :| 0 <= j < |b| && b[j].kind == Word && b[j].from <= k < b[j].to;
        assert s[j + |a|] == b[j];
      }
    }
  }

  // ---------------------------------------------------------------------------
  // Variables.

  /** The variable loop closes exactly where the variable does. */
  lemma {:induction false} VariableScanCloses(text: string, start: int, i: int)
    requires 0 <= i < |text| && 0 <= start <= i + 1
    ensures VariableScan(text, start, i).None? <==> VariableClose(text, i).None?
    ensures VariableScan(text, start, i).Some? ==> VariableScan(text, start, i).value.1 == VariableClose(text, i).value
    decreases |text| - i
  {
    if i + 1 < |text| {
      var q := i + 1;
      if IsWhiteSpace(text[q]) {
        VariableScanCloses(text, q + 1, q);
      } else if text[q] != ']' {
        VariableScanCloses(text, start, q);
      }
    }
  }

  /** The variable loop reads words and ends on the StringVariableEnd mark of its
      closing `]`. */
  lemma {:induction false} VariableScanKinds(text: string, start: int, i: int)
    requires 0 <= i < |text| && 0 <= start <= i + 1
    ensures var r := VariableScan(text, start, i);
      r.Some? ==>
        && |r.value.0| > 0
        && r.value.0[|r.value.0| - 1] == Span(StringVariableEnd, r.value.1, r.value.1 + 1)
        && forall j :: 0 <= j < |r.value.0| - 1 ==> r.value.0[j].kind == Word
    decreases |text| - i
  {
    if i + 1 < |text| {
      var q := i + 1;
      if IsWhiteSpace(text[q]) {
        VariableScanKinds(text, q + 1, q);
        var rest := VariableScan(text, q + 1, q);
        if rest.Some? {
          WordsThen(PendingSpan(start, q, Word), rest.value.0);
        }
      } else if text[q] == ']' {
        WordsThen(PendingSpan(start, q, Word), [Span(StringVariableEnd, q, q + 1)]);
      } else {
        VariableScanKinds(text, start, q);
      }
    }
  }

  lemma WordsThen(w: seq<Span>, rest: seq<Span>)
    requires forall j :: 0 <= j < |w| ==> w[j].kind == Word
    requires |rest| > 0 && forall j :: 0 <= j < |rest| - 1 ==> rest[j].kind == Word
    ensures var s := w + rest;
      && s[|s| - 1] == rest[|rest| - 1]
      && forall j :: 0 <= j < |s| - 1 ==> s[j].kind == Word
  {
    var s := w + rest;
    forall j | 0 <= j < |s| - 1 ensures s[j].kind == Word {
      if j >= |w| {
        assert s[j] == rest[j - |w|];
      }
    }
  }

  /** The pending word of the variable loop, ended by the white space or `]` at `q`. */
  lemma PendingWord(text: string, start: int, q: int)
    requires 1 <= start <= q < |text|
    requires text[start - 1] == '[' || IsWhiteSpace(text[start - 1])
    requires text[q] == ']' || IsWhiteSpace(text[q])
    requires forall k :: start <= k < q ==> !IsWhiteSpace(text[k]) && text[k] != ']'
    ensures WordsExact(text, PendingSpan(start, q, Word))
    ensures WordsCover(text, PendingSpan(start, q, Word), start, q)
  {
    var w := PendingSpan(start, q, Word);
    forall k | start <= k < q && !IsWhiteSpace(text[k])
      ensures exists j :: 0 <= j < |w| && w[j].kind == Word && w[j].from <= k < w[j].to
    {
      assert w[0] == Span(Word, start, q);
    }
  }

  /** The pending word of the variable loop, at index `i`, started right after the
      `[` or white space and has met neither white space nor `]` yet. */
  predicate WordPending(text: string, start: int, i: int) {
    && 0 <= i < |text| && 1 <= start <= i + 1
    && (text[start - 1] == '[' || IsWhiteSpace(text[start - 1]))
    && forall k :: start <= k <= i ==> !IsWhiteSpace(text[k]) && text[k] != ']'
  }

  /** A variable loop's result, when it closes: whole words that cover every
      character from `start` to the `]` that is not white space. */
  predicate WordsRead(text: string, start: int, r: Option<(seq<Span>, int)>) {
    r.Some? ==> WordsExact(text, r.value.0) && WordsCover(text, r.value.0, start, r.value.1)
  }

  /** The variable loop cuts every white-space separated run into one whole word. */
  lemma {:induction false} VariableScanWords(text: string, start: int, i: int)
    requires WordPending(text, start, i)
    ensures WordsRead(text, start, VariableScan(text, start, i))
    decreases |text| - i
  {
    if i + 1 < |text| {
      var q := i + 1;
      if IsWhiteSpace(text[q]) {
        VariableScanWords(text, q + 1, q);
        var rest := VariableScan(text, q + 1, q);
        if rest.Some? {
          WordThenRest(text, start, q, rest.value.0, rest.value.1);
          assert VariableScan(text, start, i) == Some((PendingSpan(start, q, Word) + rest.value.0, rest.value.1));
        }
      } else if text[q] == ']' {
        WordThenRest(text, start, q, [Span(StringVariableEnd, q, q + 1)], q);
      } else {
        VariableScanWords(text, start, q);
      }
    }
  }

  /** The pending word ended by the white space or `]` at `q`, then spans whose words
      cover the rest of the variable up to `e`. */
  lemma WordThenRest(text: string, start: int, q: int, rest: seq<Span>, e: int)
    requires 1 <= start <= q < |text|
    requires text[start - 1] == '[' || IsWhiteSpace(text[start - 1])
    requires text[q] == ']' || IsWhiteSpace(text[q])
    requires forall k :: start <= k < q ==> !IsWhiteSpace(text[k]) && text[k] != ']'
    requires WordsExact(text, rest) && WordsCover(text, rest, q + 1, e)
    requires text[q] == ']' ==> e == q
    ensures WordsExact(text, PendingSpan(start, q, Word) + rest)
    ensures WordsCover(text, PendingSpan(start, q, Word) + rest, start, e)
  {
    var w := PendingSpan(start, q, Word);
    PendingWord(text, start, q);
    WordsJoin(text, w, rest);
    assert WordsCover(text, rest, q, e);
    CoverJoin(text, w, rest, start, q, e);
  }

  /** A variable read from the `[` at `q`, when it closes: its opening mark at the
      `[` and its closing mark at the `]`, no literal, a gap only after the opening
      mark or a word, each word a whole white-space separated run, and every
      character between the brackets that is not white space in a word. */
  predicate VariableShaped(text: string, q: int, v: Option<(seq<Span>, int)>) {
    v.Some? ==>
      && |v.value.0| > 0 && v.value.0[0] == Span(StringVariableStart, q, q + 1)
      && v.value.0[|v.value.0| - 1] == Span(StringVariableEnd, v.value.1, v.value.1 + 1)
      && Tight(v.value.0)
      && LiteralsExact(text, v.value.0)
      && WordsExact(text, v.value.0)
      && WordsCover(text, v.value.0, q + 1, v.value.1)
  }

  /** A variable closes at the first `]` after its `[`, and fails exactly when there
      is none; it is shaped as VariableShaped says. */
  lemma VariableShape(text: string, q: int)
    requires 0 <= q < |text| && text[q] == '['
    ensures var v := ReadStringVariables(text, q);
      v.Some? ==> v.value.1 == VariableClose(text, q).value
    ensures VariableShaped(text, q, ReadStringVariables(text, q))
    ensures ReadStringVariables(text, q).None? <==> VariableClose(text, q).None?
  {
    VariableScanCloses(text, q + 1, q);
    VariableScanKinds(text, q + 1, q);
    VariableScanWords(text, q + 1, q);
    var v := ReadStringVariables(text, q);
    if v.Some? {
      var open := [Span(StringVariableStart, q, q + 1)];
      var w := VariableScan(text, q + 1, q).value.0;
      assert v.value.0 == open + w;
      assert Tight(w) by {
        forall j | 0 <= j < |w| - 1 ensures w[j].kind == Word { }
      }
      TightJoin(open, w);
      WordsJoin(text, open, w);
      CoverJoin(text, open, w, q + 1, q + 1, v.value.1);
      var s := v.value.0;
      forall j | 0 <= j < |s| ensures s[j].kind != StringLiteral {
        if j > 0 {
          assert s[j] == w[j - 1];
        }
      }
    }
  }

  const Joined: string := "\"[ab]\""

  /** Whatever spans are shaped as a variable of `"[ab]"` closing at index 4, their
      only word is `ab`, whole: the contract leaves no room to cut it in two. */
  lemma JoinedIsOneWord(spans: seq<Span>)
    requires VariableShaped(Joined, 1, Some((spans, 4)))
    ensures forall j :: 0 <= j < |spans| && spans[j].kind == Word ==> spans[j] == Span(Word, 2, 4)
    ensures exists j :: 0 <= j < |spans| && spans[j] == Span(Word, 2, 4)
  {
    var t := Joined;
    assert t[0] == '"' && t[1] == '[' && t[2] == 'a' && t[3] == 'b' && t[4] == ']' && t[5] == '"';
    forall j | 0 <= j < |spans| && spans[j].kind == Word ensures spans[j] == Span(Word, 2, 4) {
      assert WordRun(t, spans[j].from, spans[j].to);
    }
    assert !IsWhiteSpace(t[2]);
    var j :| 0 <= j < |spans| && spans[j].kind == Word && spans[j].from <= 2 < spans[j].to;
    assert spans[j] == Span(Word, 2, 4);
  }

  // ---------------------------------------------------------------------------
  // Strings.

  /** The string loop closes exactly where the string does. */
  lemma {:induction false} StringScanCloses(text: string, start: int, i: int)
    requires 0 <= i < |text| && 0 <= start <= i + 1
    ensures StringScan(text, start, i).None? <==> StringClose(text, i).None?
    ensures StringScan(text, start, i).Some? ==> StringScan(text, start, i).value.1 == StringClose(text, i).value
    decreases |text| - i
  {
    if i + 1 < |text| {
      var q := i + 1;
      if text[q] == '[' {
        VariableScanCloses(text, q + 1, q);
        var v := ReadStringVariables(text, q);
        if v.Some? {
          StringScanCloses(text, v.value.1 + 1, v.value.1);
        }
      } else if text[q] != '"' {
        StringScanCloses(text, start, q);
      }
    }
  }

  /** A string loop's result, when the loop closes: spans that start at `start`, end
      on the QuotesEnd mark of the closing `"`, leave no gap outside the variables,
      and cut each literal and each word as a whole run. */
  predicate Shaped(text: string, start: int, r: Option<(seq<Span>, int)>) {
    r.Some? ==>
      && |r.value.0| > 0 && r.value.0[0].from == start
      && r.value.0[|r.value.0| - 1] == Span(QuotesEnd, r.value.1, r.value.1 + 1)
      && Tight(r.value.0)
      && LiteralsExact(text, r.value.0)
      && WordsExact(text, r.value.0)
  }

  /** The string loop's spans are shaped, given that the pending literal started
      right after a delimiter and has met none yet. */
  lemma {:induction false} StringScanShape(text: string, start: int, i: int)
    requires 0 <= i < |text| && 1 <= start <= i + 1
    requires text[start - 1] == '"' || text[start - 1] == ']'
    requires forall k :: start <= k <= i ==> text[k] != '[' && text[k] != '"'
    ensures Shaped(text, start, StringScan(text, start, i))
    decreases |text| - i
  {
    if i + 1 < |text| {
      var q := i + 1;
      if text[q] == '[' {
        var v := ReadStringVariables(text, q);
        if v.Some? {
          StringScanShape(text, v.value.1 + 1, v.value.1);
        }
        VariableStepShape(text, start, q);
      } else if text[q] == '"' {
        LiteralThenClose(text, start, q);
      } else {
        StringScanShape(text, start, q);
      }
    }
  }

  /** One step of the string loop onto a `[`, given the shape of the rest. */
  lemma VariableStepShape(text: string, start: int, q: int)
    requires 1 <= start <= q < |text| && text[q] == '['
    requires text[start - 1] == '"' || text[start - 1] == ']'
    requires forall k :: start <= k < q ==> text[k] != '[' && text[k] != '"'
    requires var v := ReadStringVariables(text, q);
      v.Some? ==> Shaped(text, v.value.1 + 1, StringScan(text, v.value.1 + 1, v.value.1))
    ensures Shaped(text, start, StringScan(text, start, q - 1))
  {
    VariableShape(text, q);
    var v := ReadStringVariables(text, q);
    if v.Some? {
      var k := v.value.1;
      var rest := StringScan(text, k + 1, k);
      if rest.Some? {
        VariableStepUnfolds(text, start, q);
        assert VariableShaped(text, q, v);
        LiteralThenVariable(text, start, q, v.value.0, k, rest.value.0, rest.value.1);
      }
    }
  }

  /** The string loop onto the `[` at `q`, with the variable and the rest closing. */
  lemma VariableStepUnfolds(text: string, start: int, q: int)
    requires 1 <= start <= q < |text| && text[q] == '['
    requires ReadStringVariables(text, q).Some?
    requires var k := ReadStringVariables(text, q).value.1; StringScan(text, k + 1, k).Some?
    ensures var v := ReadStringVariables(text, q).value;
      var rest := StringScan(text, v.1 + 1, v.1).value;
      StringScan(text, start, q - 1) == Some((PendingSpan(start, q, StringLiteral) + (v.0 + rest.0), rest.1))
  {
  }

  /** The pending literal, a variable closing at `k`, and the rest of the string. */
  lemma LiteralThenVariable(text: string, start: int, q: int, v: seq<Span>, k: int, rest: seq<Span>, e: int)
    requires 1 <= start <= q < |text| && text[q] == '['
    requires text[start - 1] == '"' || text[start - 1] == ']'
    requires forall k :: start <= k < q ==> text[k] != '[' && text[k] != '"'
    requires |v| > 0 && v[0].from == q && v[|v| - 1] == Span(StringVariableEnd, k, k + 1)
    requires Tight(v) && LiteralsExact(text, v) && WordsExact(text, v)
    requires |rest| > 0 && rest[0].from == k + 1 && rest[|rest| - 1] == Span(QuotesEnd, e, e + 1)
    requires Tight(rest) && LiteralsExact(text, rest) && WordsExact(text, rest)
    ensures var s := PendingSpan(start, q, StringLiteral) + (v + rest);
      && |s| > 0 && s[0].from == start && s[|s| - 1] == Span(QuotesEnd, e, e + 1)
      && Tight(s) && LiteralsExact(text, s) && WordsExact(text, s)
  {
    var p := PendingSpan(start, q, StringLiteral);
    TightJoin(v, rest);
    LiteralsJoin(text, v, rest);
    WordsJoin(text, v, rest);
    var vr := v + rest;
    assert vr[0] == v[0] && vr[|vr| - 1] == rest[|rest| - 1];
    TightJoin(p, vr);
    LiteralsJoin(text, p, vr);
    WordsJoin(text, p, vr);
    var s := p + vr;
    assert s[|s| - 1] == vr[|vr| - 1];
    assert s[0].from == start by {
      if |p| > 0 {
        assert s[0] == p[0];
      } else {
        assert s[0] == vr[0];
      }
    }
  }

  /** The pending literal and the QuotesEnd mark of the `"` at `q`. */
  lemma LiteralThenClose(text: string, start: int, q: int)
    requires 1 <= start <= q < |text| && text[q] == '"'
    requires text[start - 1] == '"' || text[start - 1] == ']'
    requires forall k :: start <= k < q ==> text[k] != '[' && text[k] != '"'
    ensures Shaped(text, start, Some((PendingSpan(start, q, StringLiteral) + [Span(QuotesEnd, q, q + 1)], q)))
  {
    var p := PendingSpan(start, q, StringLiteral);
    var c := [Span(QuotesEnd, q, q + 1)];
    TightJoin(p, c);
    LiteralsJoin(text, p, c);
    WordsJoin(text, p, c);
  }

  /** ReadString fails exactly when the string never closes; otherwise it ends on
      the closing `"`, runs from the QuotesStart mark to the QuotesEnd mark without
      skipping a character outside the variables, and cuts each literal as the whole
      run between its delimiters and each word of a variable as a whole white-space
      separated run. */
  lemma ReadStringExact(text: string, p: int)
    requires 0 <= p < |text| && text[p] == '"'
    ensures ReadString(text, p).Err? <==> StringClose(text, p).None?
    ensures var r := ReadString(text, p);
      r.Ok? ==>
        && r.value.1 == StringClose(text, p).value
        && r.value.0[0] == Span(QuotesStart, p, p + 1)
        && r.value.0[|r.value.0| - 1] == Span(QuotesEnd, r.value.1, r.value.1 + 1)
        && Tight(r.value.0)
        && LiteralsExact(text, r.value.0)
        && WordsExact(text, r.value.0)
  {
    StringScanCloses(text, p + 1, p);
    StringScanShape(text, p + 1, p);
    var v := StringScan(text, p + 1, p);
    if v.Some? {
      var open := [Span(QuotesStart, p, p + 1)];
      TightJoin(open, v.value.0);
      LiteralsJoin(text, open, v.value.0);
      WordsJoin(text, open, v.value.0);
      var s := open + v.value.0;
      assert s[|s| - 1] == v.value.0[|v.value.0| - 1];
    }
  }

  /** The string `"[a] [b]"` reads as its two variables with the one-space literal
      between them: the white space outside a variable is part of the string. */
  lemma SpaceBetweenVariables()
    ensures ReadString(Spaced, 0) == Ok(([
      Span(QuotesStart, 0, 1),
      Span(StringVariableStart, 1, 2), Span(Word, 2, 3), Span(StringVariableEnd, 3, 4),
      Span(StringLiteral, 4, 5),
      Span(StringVariableStart, 5, 6), Span(Word, 6, 7), Span(StringVariableEnd, 7, 8),
      Span(QuotesEnd, 8, 9)], 8))
  {
    var t := Spaced;
    var first := [Span(StringVariableStart, 1, 2), Span(Word, 2, 3), Span(StringVariableEnd, 3, 4)];
    var tail := [Span(StringLiteral, 4, 5),
      Span(StringVariableStart, 5, 6), Span(Word, 6, 7), Span(StringVariableEnd, 7, 8),
      Span(QuotesEnd, 8, 9)];
    SpacedVariable(1);
    SpacedTail();
    var body := first + tail;
    assert t[1] == '[' && PendingSpan(1, 1, StringLiteral) == [] && [] + body == body;
    assert StringScan(t, 1, 0) == Some((body, 8));
    assert [Span(QuotesStart, 0, 1)] + body == [
      Span(QuotesStart, 0, 1),
      Span(StringVariableStart, 1, 2), Span(Word, 2, 3), Span(StringVariableEnd, 3, 4),
      Span(StringLiteral, 4, 5),
      Span(StringVariableStart, 5, 6), Span(Word, 6, 7), Span(StringVariableEnd, 7, 8),
      Span(QuotesEnd, 8, 9)];
  }

  const Spaced: string := "\"[a] [b]\""

  /** The variables `[a]` at 1 and `[b]` at 5 of the example. */
  lemma SpacedVariable(q: int)
    requires q == 1 || q == 5
    ensures ReadStringVariables(Spaced, q) == Some(([
      Span(StringVariableStart, q, q + 1), Span(Word, q + 1, q + 2), Span(StringVariableEnd, q + 2, q + 3)], q + 2))
  {
    var t := Spaced;
    assert t[q] == '[' && t[q + 2] == ']' && !IsWhiteSpace(t[q + 2]) && !IsWhiteSpace(t[q + 1]);
    assert PendingSpan(q + 1, q + 2, Word) == [Span(Word, q + 1, q + 2)];
    assert VariableScan(t, q + 1, q + 1) == Some(([Span(Word, q + 1, q + 2)] + [Span(StringVariableEnd, q + 2, q + 3)], q + 2));
    assert VariableScan(t, q + 1, q) == VariableScan(t, q + 1, q + 1);
    assert [Span(StringVariableStart, q, q + 1)] + ([Span(Word, q + 1, q + 2)] + [Span(StringVariableEnd, q + 2, q + 3)])
      == [Span(StringVariableStart, q, q + 1), Span(Word, q + 1, q + 2), Span(StringVariableEnd, q + 2, q + 3)];
  }

  /** The example from the space after `[a]` to the closing quote. */
  lemma SpacedTail()
    ensures StringScan(Spaced, 4, 3) == Some(([Span(StringLiteral, 4, 5),
      Span(StringVariableStart, 5, 6), Span(Word, 6, 7), Span(StringVariableEnd, 7, 8),
      Span(QuotesEnd, 8, 9)], 8))
  {
    var t := Spaced;
    assert t[4] == ' ' && t[5] == '[' && t[8] == '"';
    SpacedVariable(5);
    var second := [Span(StringVariableStart, 5, 6), Span(Word, 6, 7), Span(StringVariableEnd, 7, 8)];
    var close := [Span(QuotesEnd, 8, 9)];
    assert PendingSpan(8, 8, StringLiteral) == [] && [] + close == close;
    assert StringScan(t, 8, 7) == Some((close, 8));
    assert PendingSpan(4, 5, StringLiteral) == [Span(StringLiteral, 4, 5)];
    assert StringScan(t, 4, 4) == Some(([Span(StringLiteral, 4, 5)] + (second + close), 8));
    assert StringScan(t, 4, 3) == StringScan(t, 4, 4);
    assert [Span(StringLiteral, 4, 5)] + (second + close) == [Span(StringLiteral, 4, 5),
      Span(StringVariableStart, 5, 6), Span(Word, 6, 7), Span(StringVariableEnd, 7, 8),
      Span(QuotesEnd, 8, 9)];
  }

  // ---------------------------------------------------------------------------
  // Tokens.

  /** `text[a..b]` is a word read outside a string: a letter or digit and the word
      characters after it, up to the first character that is not one. */
  predicate PlainWord(text: string, a: int, b: int) {
    && 0 <= a < b <= |text|
    && IsLetterOrDigit(text[a])
    && (forall k :: a < k < b ==> IsWordChar(text[k]))
    && (b < |text| ==> !IsWordChar(text[b]))
  }

  /** Every Word span is a plain word or a whole word of a variable. */
  predicate WordRuns(text: string, spans: seq<Span>) {
    forall j :: 0 <= j < |spans| && spans[j].kind == Word ==>
      WordRun(text, spans[j].from, spans[j].to) || PlainWord(text, spans[j].from, spans[j].to)
  }

  /** Every StringLiteral token's surface is the verbatim text of a whole literal run,
      and every Word token's surface that of a plain word or a whole word of a
      variable. */
  ghost predicate Verbatim(text: string, ts: seq<Token>) {
    && (forall i :: 0 <= i < |ts| && ts[i].kind == StringLiteral ==>
          exists a, b :: LiteralRun(text, a, b) && ts[i].surface == text[a..b])
    && (forall i :: 0 <= i < |ts| && ts[i].kind == Word ==>
          exists a, b :: (WordRun(text, a, b) || PlainWord(text, a, b)) && ts[i].surface == text[a..b])
  }

  lemma VerbatimJoin(text: string, a: seq<Token>, b: seq<Token>)
    requires Verbatim(text, a) && Verbatim(text, b)
    ensures Verbatim(text, a + b)
  {
    var s := a + b;
    forall i | 0 <= i < |s|
      ensures s[i] == if i < |a| then a[i] else b[i - |a|]
    {
    }
  }

  /** Whatever reader the character at `p` selects, its literals and words are whole
      runs; and only a comment, a string or an Inform6 block can fail. */
  lemma ReadAtRuns(text: string, p: int)
    requires 0 <= p < |text|
    ensures ReadAt(text, p).Ok? ==> LiteralsExact(text, ReadAt(text, p).value.0)
    ensures ReadAt(text, p).Ok? ==> WordRuns(text, ReadAt(text, p).value.0)
    ensures ReadAt(text, p).Err? ==> text[p] == '[' || text[p] == '"' || text[p] == '('
  {
    if text[p] == '"' {
      ReadStringExact(text, p);
    }
  }

  /** The placed tokens of the reader under the cursor are verbatim. */
  lemma DispatchVerbatim(s: State)
    requires InText(s)
    ensures Dispatch(s).Ok? ==> Verbatim(s.text, Dispatch(s).value.tokens)
  {
    var r := ReadAt(s.text, s.position);
    ReadAtRuns(s.text, s.position);
    if r.Ok? {
      var ts := Dispatch(s).value.tokens;
      assert ts == Place(s, r.value.0);
      forall i | 0 <= i < |ts| && ts[i].kind == StringLiteral
        ensures exists a, b :: LiteralRun(s.text, a, b) && ts[i].surface == s.text[a..b]
      {
        var sp := r.value.0[i];
        assert ts[i] == PlaceOne(s, sp);
        assert LiteralRun(s.text, sp.from, sp.to);
      }
      forall i | 0 <= i < |ts| && ts[i].kind == Word
        ensures exists a, b :: (WordRun(s.text, a, b) || PlainWord(s.text, a, b)) && ts[i].surface == s.text[a..b]
      {
        var sp := r.value.0[i];
        assert ts[i] == PlaceOne(s, sp);
        assert WordRun(s.text, sp.from, sp.to) || PlainWord(s.text, sp.from, sp.to);
      }
    }
  }

  /** Marks carry no literal and no word. */
  lemma MarksVerbatim(text: string, s1: State, line: int, indentation: int)
    ensures Verbatim(text, NewlineMark(s1, line))
    ensures Verbatim(text, Mark(s1, indentation))
  {
  }

  lemma BodyStepVerbatim(text: string, nl: seq<Token>, mark: seq<Token>, body: seq<Token>, rest: seq<Token>)
    requires Verbatim(text, nl) && Verbatim(text, mark)
    requires Verbatim(text, body) && Verbatim(text, rest)
    ensures Verbatim(text, nl + (mark + body) + rest)
  {
    VerbatimJoin(text, mark, body);
    VerbatimJoin(text, nl, mark + body);
    VerbatimJoin(text, nl + (mark + body), rest);
  }

  /** Every StringLiteral and Word token the loop emits from `s` is the verbatim text
      of a whole run. */
  lemma {:induction false} LoopVerbatim(s: State, line: int, indentation: int)
    requires -1 <= s.position && (s.position < |s.text| || s.position == -1)
    ensures var r := Loop(s, line, indentation);
      r.Err? || Verbatim(s.text, r.value)
    decreases |s.text| - s.position
  {
    var a := s.Advance();
    if a.0 {
      var s1 := a.1;
      var nl := NewlineMark(s1, line);
      var line' := if s1.line > line then s1.line else line;
      MarksVerbatim(s.text, s1, line, indentation);
      if IsWhiteSpace(s1.Character()) {
        LoopVerbatim(s1, line', indentation);
        var rest := Loop(s1, line', indentation);
        if rest.Ok? {
          VerbatimJoin(s.text, nl, rest.value);
        }
      } else {
        var mark := Mark(s1, indentation);
        var body := Dispatch(s1);
        DispatchVerbatim(s1);
        if body.Ok? {
          var last := body.value.last;
          LoopVerbatim(last, line', s1.Indentation());
          var rest := Loop(last, line', s1.Indentation());
          if rest.Ok? {
            BodyStepVerbatim(s.text, nl, mark, body.value.tokens, rest.value);
          }
        }
      }
    }
  }

  /** Every StringLiteral token of a successful run has the text of some whole run
      between a `"` or `]` and the next `[` or `"` as its surface, and every Word token
      that of some plain word or some whole white-space separated run of a variable. */
  lemma TokenizeVerbatim(text: string)
    ensures var r := Tokenize(text);
      r.Err? || Verbatim(text, r.value)
  {
    LoopVerbatim(Init(text), 0, 0);
  }

  // ---------------------------------------------------------------------------
  // The first construct that opens.

  /** No character strictly between `lo` and `hi` opens a comment, a string or an
      Inform6 block. */
  predicate PlainBetween(text: string, lo: int, hi: int) {
    forall k :: lo < k < hi && 0 <= k < |text| ==> text[k] != '[' && text[k] != '"' && text[k] != '('
  }

  /** The error the loop reports for a reader's failure. */
  predicate Reports(e: LexError, f: Failure) {
    if f.NegativeLength? then e == ArgumentOutOfRange else e.SyntaxError? && e.message == f.message
  }

  /** A word or punctuation mark read from a plain character ends before the next
      character that opens a construct. */
  lemma WordStops(text: string, p: int, j: int)
    requires 0 <= p < j < |text| && PlainBetween(text, p - 1, j)
    requires text[j] == '[' || text[j] == '"' || text[j] == '('
    ensures ReadAt(text, p) == Ok(ReadWord(text, p))
    ensures ReadWord(text, p).1 < j
  {
  }

  /** When the reader at `j` fails and nothing before it opens a construct, the loop
      from before `j` fails with that reader's error. */
  lemma {:induction false} LoopFailsAt(s: State, line: int, indentation: int, j: int)
    requires -1 <= s.position < j < |s.text|
    requires PlainBetween(s.text, s.position, j)
    requires ReadAt(s.text, j).Err?
    ensures Loop(s, line, indentation).Err?
    ensures Reports(Loop(s, line, indentation).error, ReadAt(s.text, j).error)
    decreases |s.text| - s.position
  {
    var a := s.Advance();
    var s1 := a.1;
    var line' := if s1.line > line then s1.line else line;
    ReadAtRuns(s.text, j);
    if s1.position == j {
      assert !IsWhiteSpace(s1.Character());
    } else if IsWhiteSpace(s1.Character()) {
      LoopFailsAt(s1, line', indentation, j);
    } else {
      WordStops(s.text, s1.position, j);
      var k := ReadWord(s.text, s1.position).1;
      AtFollows(s1, k);
      var last := Dispatch(s1).value.last;
      assert last == At(s1, k);
      LoopFailsAt(last, line', s1.Indentation(), j);
    }
  }

  /** When the first character that opens a comment, a string or an Inform6 block
      starts one its reader cannot finish, the whole run fails with that reader's
      error. */
  lemma TokenizeFailsAt(text: string, j: int)
    requires 0 <= j < |text| && PlainBetween(text, -1, j)
    requires ReadAt(text, j).Err?
    ensures Tokenize(text).Err?
    ensures Reports(Tokenize(text).error, ReadAt(text, j).error)
  {
    LoopFailsAt(Init(text), 0, 0, j);
  }

  /** The four ways the first construct of a text can be left open, each failing the
      whole run: a string that never closes, a comment whose brackets never balance,
      an Inform6 block with no `-)` after its `(`, and the empty block `(-)`. */
  lemma TokenizeFailsOpen(text: string, j: int)
    requires 0 <= j < |text| && PlainBetween(text, -1, j)
    ensures text[j] == '"' && StringClose(text, j).None? ==>
      Tokenize(text).Err? && Tokenize(text).error.SyntaxError? && Tokenize(text).error.message == UnterminatedString
    ensures text[j] == '[' && (forall k :: j < k <= |text| ==> Depth(text[j..k]) > 0) ==>
      Tokenize(text).Err? && Tokenize(text).error.SyntaxError? && Tokenize(text).error.message == UnterminatedComment
    ensures j + 1 < |text| && text[j] == '(' && text[j + 1] == '-' && (forall i :: j < i < |text| ==> !CloseAt(text, i)) ==>
      Tokenize(text).Err? && Tokenize(text).error.SyntaxError? && Tokenize(text).error.message == UnterminatedInform6
    ensures EmptyBlockAt(text, j) ==> Tokenize(text) == Err(ArgumentOutOfRange)
  {
    if text[j] == '"' {
      ReadStringExact(text, j);
      ReadStringFacts(text, j);
    } else if text[j] == '[' {
      ReadCommentFacts(text, j);
    } else if j + 1 < |text| && text[j] == '(' && text[j + 1] == '-' {
      ReadInform6BlockFacts(text, j);
    }
    if ReadAt(text, j).Err? {
      TokenizeFailsAt(text, j);
    }
  }
}
