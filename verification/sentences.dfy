/**
  The parser's helpers over a token list: dropping comments, cutting the tokens into
  sentences at "." and ";" with line breaks ignored, and taking a quoted string's
  tokens from its opening quote up to its closing one.
 */
module Sentences {

  import opened Outcomes
  import opened Tokens
  import Lexer

  // ---------------------------------------------------------------------------
  // FilterComments.

  /** The tokens in order, without the Comment tokens. */
  function FilterComments(tokens: seq<Token>): (r: seq<Token>)
    ensures |r| <= |tokens|
    ensures forall k :: 0 <= k < |r| ==> r[k].kind != Comment
  {
    if |tokens| == 0 then []
    else (if tokens[0].kind != Comment then [tokens[0]] else []) + FilterComments(tokens[1..])
  }

  /** Filtering a concatenation filters each part: together with the single-token
      case below this says the filter keeps the order of what it keeps. */
  lemma {:induction false} FilterConcat(a: seq<Token>, b: seq<Token>)
    ensures FilterComments(a + b) == FilterComments(a) + FilterComments(b)
    decreases |a|
  {
    if |a| == 0 {
      assert a + b == b;
    } else {
      assert (a + b)[1..] == a[1..] + b;
      FilterConcat(a[1..], b);
    }
  }

  /** A single token is kept exactly when it is not a comment. */
  lemma FilterSingle(token: Token)
    ensures FilterComments([token]) == if token.kind == Comment then [] else [token]
  {
    assert [token][1..] == [];
  }

  /** Every token that is not a comment survives as often as it occurs; comments are
      gone. */
  lemma {:induction false} FilterCounts(tokens: seq<Token>)
    ensures forall x :: multiset(FilterComments(tokens))[x] == if x.kind == Comment then 0 else multiset(tokens)[x]
    decreases |tokens|
  {
    if |tokens| > 0 {
      FilterCounts(tokens[1..]);
      assert tokens == [tokens[0]] + tokens[1..];
    }
  }

  /** A list without comments passes unchanged, so filtering twice filters once. */
  lemma {:induction false} FilterNoComments(tokens: seq<Token>)
    requires forall k :: 0 <= k < |tokens| ==> tokens[k].kind != Comment
    ensures FilterComments(tokens) == tokens
    decreases |tokens|
  {
    if |tokens| > 0 {
      FilterNoComments(tokens[1..]);
    }
  }

  lemma FilterIdempotent(tokens: seq<Token>)
    ensures FilterComments(FilterComments(tokens)) == FilterComments(tokens)
  {
    FilterNoComments(FilterComments(tokens));
  }

  // ---------------------------------------------------------------------------
  // SplitSentences.

  /** A token that ends a sentence: Punctuation spelled exactly "." or ";". */
  predicate Terminator(token: Token) {
    token.kind == Punctuation && (token.surface == "." || token.surface == ";")
  }

  /** The tokens without the Newline tokens. */
  function DropNewlines(tokens: seq<Token>): (r: seq<Token>)
    ensures |r| <= |tokens|
    ensures forall k :: 0 <= k < |r| ==> r[k].kind != Newline
  {
    if |tokens| == 0 then []
    else (if tokens[0].kind == Newline then [] else [tokens[0]]) + DropNewlines(tokens[1..])
  }

  /** The sentences laid end to end. */
  function Concat(sentences: seq<seq<Token>>): seq<Token>
  {
    if |sentences| == 0 then [] else sentences[0] + Concat(sentences[1..])
  }

  /** Tokens a sentence under construction may hold: no Newline and no terminator. */
  predicate Open(list: seq<Token>) {
    forall k :: 0 <= k < |list| ==> list[k].kind != Newline && !Terminator(list[k])
  }

  /** One emitted sentence: not empty, no Newline, and no terminator but possibly the
      last token. */
  predicate Sentence(s: seq<Token>) {
    && |s| > 0
    && (forall k :: 0 <= k < |s| ==> s[k].kind != Newline)
    && (forall k :: 0 <= k < |s| - 1 ==> !Terminator(s[k]))
  }

  /** A list of sentences as the split emits them: each is a sentence, and each but
      the last ends with a terminator. */
  predicate WellSplit(sentences: seq<seq<Token>>) {
    && (forall i :: 0 <= i < |sentences| ==> Sentence(sentences[i]))
    && (forall i :: 0 <= i < |sentences| - 1 ==> Terminator(sentences[i][|sentences[i]| - 1]))
  }

  /** The loop of SplitSentences from the current list on: skip a Newline, add any
      other token, and emit the list after a terminator; at the end emit what is left
      unless it is empty. */
  function SplitFrom(tokens: seq<Token>, list: seq<Token>): (r: seq<seq<Token>>)
    ensures forall i :: 0 <= i < |r| ==> |r[i]| > 0
    ensures |list| > 0 ==> |r| > 0 && list <= r[0]
    ensures |r| <= |tokens| + (if |list| > 0 then 1 else 0)
    decreases |tokens|
  {
    if |tokens| == 0 then (if |list| > 0 then [list] else [])
    else if tokens[0].kind == Newline then SplitFrom(tokens[1..], list)
    else
      var grown := list + [tokens[0]];
      if Terminator(tokens[0]) then [grown] + SplitFrom(tokens[1..], [])
      else SplitFrom(tokens[1..], grown)
  }

  function SplitSentences(tokens: seq<Token>): (r: seq<seq<Token>>)
    ensures forall i :: 0 <= i < |r| ==> |r[i]| > 0
    ensures |r| <= |tokens|
  {
    SplitFrom(tokens, [])
  }

  lemma ConsWellSplit(s: seq<Token>, rest: seq<seq<Token>>)
    requires Sentence(s) && WellSplit(rest)
    requires |rest| > 0 ==> Terminator(s[|s| - 1])
    ensures WellSplit([s] + rest)
  {
    var all := [s] + rest;
    forall i | 0 <= i < |all|
      ensures Sentence(all[i])
    {
      if i > 0 {
        assert all[i] == rest[i - 1];
      }
    }
    forall i | 0 <= i < |all| - 1
      ensures Terminator(all[i][|all[i]| - 1])
    {
      if i > 0 {
        assert all[i] == rest[i - 1];
      }
    }
  }

  /** From an open list, the loop emits well-split sentences. */
  lemma {:induction false} SplitFromWell(tokens: seq<Token>, list: seq<Token>)
    requires Open(list)
    ensures WellSplit(SplitFrom(tokens, list))
    decreases |tokens|
  {
    if |tokens| > 0 && tokens[0].kind == Newline {
      SplitFromWell(tokens[1..], list);
    } else if |tokens| > 0 {
      var grown := list + [tokens[0]];
      if Terminator(tokens[0]) {
        SplitFromWell(tokens[1..], []);
        ConsWellSplit(grown, SplitFrom(tokens[1..], []));
      } else {
        SplitFromWell(tokens[1..], grown);
      }
    }
  }

  /** Laid end to end, the sentences the loop emits hold the list and then the
      remaining tokens without line breaks. */
  lemma {:induction false} SplitFromKeeps(tokens: seq<Token>, list: seq<Token>)
    ensures Concat(SplitFrom(tokens, list)) == list + DropNewlines(tokens)
    decreases |tokens|
  {
    if |tokens| == 0 {
      assert list + [] == list;
    } else if tokens[0].kind == Newline {
      SplitFromKeeps(tokens[1..], list);
    } else {
      var d := DropNewlines(tokens[1..]);
      var grown := list + [tokens[0]];
      assert DropNewlines(tokens) == [tokens[0]] + d;
      assert list + ([tokens[0]] + d) == grown + d;
      if Terminator(tokens[0]) {
        SplitFromKeeps(tokens[1..], []);
        EmitKeeps(grown, SplitFrom(tokens[1..], []), d);
      } else {
        SplitFromKeeps(tokens[1..], grown);
      }
    }
  }

  lemma EmitKeeps(s: seq<Token>, rest: seq<seq<Token>>, d: seq<Token>)
    requires Concat(rest) == [] + d
    ensures Concat([s] + rest) == s + d
  {
    assert ([s] + rest)[1..] == rest;
  }

  /** SplitSentences emits no Newline, only non-empty sentences, a terminator only as a
      sentence's last token and at the end of every sentence but the last; laid end to
      end, the sentences are the input without its line breaks. */
  lemma SplitSentencesFacts(tokens: seq<Token>)
    ensures WellSplit(SplitSentences(tokens))
    ensures Concat(SplitSentences(tokens)) == DropNewlines(tokens)
  {
    SplitFromWell(tokens, []);
    SplitFromKeeps(tokens, []);
  }

  /** Two well-split lists with the same tokens are the same list. */
  lemma {:induction false} WellSplitUnique(a: seq<seq<Token>>, b: seq<seq<Token>>)
    requires WellSplit(a) && WellSplit(b) && Concat(a) == Concat(b)
    ensures a == b
    decreases |a|
  {
    NoneEmpty(a);
    NoneEmpty(b);
    if |a| > 0 && |b| > 0 {
      HeadsAgree(a, b);
      HeadsAgree(b, a);
      var n := |a[0]|;
      assert a[0] == Concat(a)[..n] && b[0] == Concat(b)[..n];
      assert Concat(a[1..]) == Concat(a)[n..] && Concat(b[1..]) == Concat(b)[n..];
      TailWellSplit(a);
      TailWellSplit(b);
      WellSplitUnique(a[1..], b[1..]);
      assert a == [a[0]] + a[1..] && b == [b[0]] + b[1..];
    }
  }

  /** A well-split list holds no tokens only when it holds no sentences. */
  lemma NoneEmpty(a: seq<seq<Token>>)
    requires WellSplit(a)
    ensures Concat(a) == [] <==> |a| == 0
  {
    if |a| > 0 {
      assert Sentence(a[0]);
    }
  }

  /** The first sentence of a well-split list cannot be shorter than that of another
      with the same tokens: it would end on a terminator the other holds before its
      last token, or, being the only one, hold fewer tokens than the other's first. */
  lemma HeadsAgree(a: seq<seq<Token>>, b: seq<seq<Token>>)
    requires WellSplit(a) && WellSplit(b) && Concat(a) == Concat(b) && |a| > 0 && |b| > 0
    ensures |a[0]| >= |b[0]|
  {
    assert Concat(a) == a[0] + Concat(a[1..]);
    assert Concat(b) == b[0] + Concat(b[1..]);
    CommonPrefix(a[0], Concat(a[1..]), b[0], Concat(b[1..]));
    assert Sentence(a[0]) && Sentence(b[0]);
    assert |a| > 1 ==> Terminator(a[0][|a[0]| - 1]);
    assert |a| == 1 ==> a[1..] == [];
  }

  /** Two ways of writing one sequence agree where both first parts reach. */
  lemma CommonPrefix(p: seq<Token>, u: seq<Token>, q: seq<Token>, v: seq<Token>)
    requires p + u == q + v
    ensures forall k :: 0 <= k < |p| && k < |q| ==> p[k] == q[k]
  {
    forall k | 0 <= k < |p| && k < |q|
      ensures p[k] == q[k]
    {
      assert (p + u)[k] == p[k] && (q + v)[k] == q[k];
    }
  }

  lemma TailWellSplit(a: seq<seq<Token>>)
    requires WellSplit(a) && |a| > 0
    ensures WellSplit(a[1..])
  {
    forall i | 0 <= i < |a| - 1
      ensures a[1..][i] == a[i + 1]
    {
    }
  }

  /** SplitSentences is the only well-split list of the input's tokens without line
      breaks. */
  lemma SplitSentencesUnique(tokens: seq<Token>, sentences: seq<seq<Token>>)
    requires WellSplit(sentences) && Concat(sentences) == DropNewlines(tokens)
    ensures sentences == SplitSentences(tokens)
  {
    SplitSentencesFacts(tokens);
    WellSplitUnique(sentences, SplitSentences(tokens));
  }

  /** Only "." and ";" Punctuation ends a sentence: ":" does not. */
  lemma ColonDoesNotSplit(a: Token, colon: Token, b: Token)
    requires a.kind == Word && b.kind == Word && colon == Token(":", colon.line, colon.column, Punctuation)
    ensures SplitSentences([a, colon, b]) == [[a, colon, b]]
  {
    assert !Terminator(colon) by {
      assert |colon.surface| == 1 && colon.surface[0] == ':';
      assert colon.surface != "." && colon.surface != ";";
    }
    calc {
      SplitFrom([a, colon, b], []);
      { assert [a, colon, b][1..] == [colon, b]; assert [] + [a] == [a]; }
      SplitFrom([colon, b], [a]);
      { assert [colon, b][1..] == [b]; assert [a] + [colon] == [a, colon]; }
      SplitFrom([b], [a, colon]);
      { assert [b][1..] == []; assert [a, colon] + [b] == [a, colon, b]; }
      SplitFrom([], [a, colon, b]);
    }
  }

  // ---------------------------------------------------------------------------
  // StringBuilder.

  /** From the opening quote at `offset`, the tokens up to and excluding the first
      later QuotesEnd; None when the token at `offset` does not open a string; an
      unclosed string is a syntax error at the opening quote, and an offset outside the
      list is the indexer's range error. */
  method StringBuilder(tokens: seq<Token>, offset: int) returns (r: Result<Option<seq<Token>>, Lexer.LexError>)
    ensures !(0 <= offset < |tokens|) ==> r == Err(Lexer.ArgumentOutOfRange)
    ensures 0 <= offset < |tokens| && tokens[offset].kind != QuotesStart ==> r == Ok(None)
    ensures 0 <= offset < |tokens| && tokens[offset].kind == QuotesStart ==>
      (r.Err? <==> forall j :: offset < j < |tokens| ==> tokens[j].kind != QuotesEnd)
    ensures 0 <= offset < |tokens| && r.Ok? ==> (r.value.Some? <==> tokens[offset].kind == QuotesStart)
    ensures 0 <= offset < |tokens| && r.Err? ==>
      r.error == Lexer.SyntaxError("Unclosed string", tokens[offset].line, tokens[offset].column)
    ensures r.Ok? && r.value.Some? ==>
      && 0 <= offset && offset + |r.value.value| < |tokens|
      && r.value.value == tokens[offset..offset + |r.value.value|]
      && tokens[offset + |r.value.value|].kind == QuotesEnd
      && forall j :: offset < j < offset + |r.value.value| ==> tokens[j].kind != QuotesEnd
  {
    if !(0 <= offset < |tokens|) {
      return Err(Lexer.ArgumentOutOfRange);
    }
    if tokens[offset].kind != QuotesStart {
      return Ok(None);
    }
    var i := offset + 1;
    while i < |tokens|
      invariant offset < i <= |tokens|
      invariant forall j :: offset < j < i ==> tokens[j].kind != QuotesEnd
    {
      if tokens[i].kind == QuotesEnd {
        return Ok(Some(tokens[offset..i]));
      }
      i := i + 1;
    }
    return Err(Lexer.SyntaxError("Unclosed string", tokens[offset].line, tokens[offset].column));
  }
}
