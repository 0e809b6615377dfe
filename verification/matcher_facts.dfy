/**
  What the matcher's search finds, stated against reference definitions: a
  partition of the tokens into one fitting group per rule, and an overrun, a split
  of a prefix of the tokens over a prefix of the rules after which exactly one of
  the two lists is used up. The search fails exactly when some overrun exists;
  otherwise it returns every partition once, the longer group first at the first
  group where two results differ.
 */
module MatcherFacts {

  import opened Outcomes
  import opened Tokens
  import opened Rules
  import opened Matching
  import Matches

  // ---------------------------------------------------------------------------
  // Reference definitions.

  /** The groups laid end to end. */
  function Flatten(groups: seq<seq<Token>>): seq<Token>
  {
    if |groups| == 0 then [] else Flatten(groups[..|groups| - 1]) + groups[|groups| - 1]
  }

  /** A group a rule accepts: not empty, a single token unless the rule repeats, and
      every token satisfying the rule. */
  predicate GroupFits(group: seq<Token>, rule: Rule) {
    && |group| > 0
    && (|group| > 1 ==> rule.Repeatable())
    && forall k :: 0 <= k < |group| ==> Satisfies(group[k], rule)
  }

  /** Each group fits the rule at its index; there may be fewer groups than rules. */
  predicate Fits(groups: seq<seq<Token>>, rules: seq<Rule>) {
    && |groups| <= |rules|
    && forall i :: 0 <= i < |groups| ==> GroupFits(groups[i], rules[i])
  }

  /** A split of all the tokens into one fitting group per rule. */
  predicate Partition(groups: seq<seq<Token>>, tokens: seq<Token>, rules: seq<Rule>) {
    && |groups| == |rules|
    && Fits(groups, rules)
    && Flatten(groups) == tokens
  }

  /** A split of a prefix of the tokens over a prefix of the rules that uses up exactly
      one of the two lists: the search, having matched its last token, reads the
      index after the end of the other list. */
  predicate Overrun(groups: seq<seq<Token>>, tokens: seq<Token>, rules: seq<Rule>) {
    && 0 < |groups|
    && Fits(groups, rules)
    && |Flatten(groups)| <= |tokens|
    && Flatten(groups) == tokens[..|Flatten(groups)|]
    && ((|Flatten(groups)| == |tokens|) != (|groups| == |rules|))
  }

  /** `groups` continues a branch whose finished groups are `done` and whose open
      group holds `cur`: it keeps them and adds at least one token to the open group. */
  predicate Extends(groups: seq<seq<Token>>, done: seq<seq<Token>>, cur: seq<Token>) {
    && |groups| > |done|
    && groups[..|done|] == done
    && |groups[|done|]| > |cur|
    && groups[|done|][..|cur|] == cur
  }

  /** Discovery order: at the first group where they differ, `a`'s group is longer. */
  predicate Before(a: seq<seq<Token>>, b: seq<seq<Token>>) {
    exists k :: 0 <= k < |a| && k < |b| && a[..k] == b[..k] && |a[k]| > |b[k]|
  }

  predicate Sorted(ms: seq<Matches.Match>) {
    forall i, j :: 0 <= i < j < |ms| ==> Before(ms[i].groups, ms[j].groups)
  }

  // ---------------------------------------------------------------------------
  // Flattening.

  lemma FlattenSnoc(groups: seq<seq<Token>>, g: seq<Token>)
    ensures Flatten(groups + [g]) == Flatten(groups) + g
  {
    assert (groups + [g])[..|groups|] == groups;
  }

  lemma {:induction false} FlattenConcat(a: seq<seq<Token>>, b: seq<seq<Token>>)
    ensures Flatten(a + b) == Flatten(a) + Flatten(b)
    decreases |b|
  {
    if |b| == 0 {
      assert a + b == a;
    } else {
      var b' := b[..|b| - 1];
      var g := b[|b| - 1];
      assert a + b == (a + b') + [g];
      assert b == b' + [g];
      FlattenSnoc(a + b', g);
      FlattenSnoc(b', g);
      FlattenConcat(a, b');
    }
  }

  lemma {:induction false} FlattenLength(groups: seq<seq<Token>>)
    requires forall i :: 0 <= i < |groups| ==> |groups[i]| > 0
    ensures |Flatten(groups)| >= |groups|
    decreases |groups|
  {
    if |groups| > 0 {
      FlattenLength(groups[..|groups| - 1]);
    }
  }

  // ---------------------------------------------------------------------------
  // The search's state.

  /** The search at token `t` and rule `r`, on the branch whose finished groups are
      `done` and whose open group holds `cur`. */
  function Search(tokens: seq<Token>, rules: seq<Rule>, t: nat, r: nat, done: seq<seq<Token>>, cur: seq<Token>)
    : Result<seq<Matches.Match>, Matches.MatchFailure>
  {
    Recurse(tokens, rules, t, r, Matches.Match(done + [cur], []))
  }

  /** What holds of every branch the search is called on: the finished groups fit
      their rules, the branch holds exactly the tokens before `t`, and a non-empty open
      group belongs to a repeatable rule it satisfies. */
  predicate Searching(tokens: seq<Token>, rules: seq<Rule>, t: nat, r: nat, done: seq<seq<Token>>, cur: seq<Token>) {
    && t <= |tokens| && r <= |rules| && |done| == r
    && Fits(done, rules)
    && Flatten(done) + cur == tokens[..t]
    && (|cur| > 0 ==> r < |rules| && rules[r].Repeatable())
    && (r < |rules| ==> forall k :: 0 <= k < |cur| ==> Satisfies(cur[k], rules[r]))
  }

  /** Both lists are used up by the token just added. */
  predicate Last(tokens: seq<Token>, rules: seq<Rule>, t: nat, r: nat) {
    t == |tokens| - 1 && r == |rules| - 1
  }

  /** The search on a token that satisfies its rule is the step on the branch with
      the token added to the open group. */
  lemma SearchSteps(tokens: seq<Token>, rules: seq<Rule>, t: nat, r: nat, done: seq<seq<Token>>, cur: seq<Token>)
    requires t < |tokens| && r < |rules| && Satisfies(tokens[t], rules[r])
    ensures Search(tokens, rules, t, r, done, cur)
      == Step(tokens, rules, t, r, Matches.Match(done + [cur + [tokens[t]]], []))
  {
    var b := Matches.AddToLast(Matches.Match(done + [cur], []), tokens[t]);
    assert b.groups == done + [cur + [tokens[t]]];
  }

  /** A step that does not end the search: the copy that keeps the group open runs
      first when the rule repeats, then the branch that moves on; the first failure is
      the step's failure, else the results come in that order. */
  lemma StepParts(tokens: seq<Token>, rules: seq<Rule>, t: nat, r: nat, done: seq<seq<Token>>, cur: seq<Token>)
    requires t < |tokens| && r < |rules| && !Last(tokens, rules, t, r)
    ensures var longer := if rules[r].Repeatable() then Search(tokens, rules, t + 1, r, done, cur) else Ok([]);
      var next := Search(tokens, rules, t + 1, r + 1, done + [cur], []);
      var res := Step(tokens, rules, t, r, Matches.Match(done + [cur], []));
      && (res.Err? <==> longer.Err? || next.Err?)
      && (res.Err? ==> res.error == if longer.Err? then longer.error else next.error)
      && (res.Ok? ==> res.value == longer.value + next.value)
  {
    var b := Matches.Match(done + [cur], []);
    assert Matches.Duplicate(b) == b;
    assert Matches.Append(b, []) == Matches.Match((done + [cur]) + [[]], []);
  }

  /** The states the step hands on: the copy that keeps the group open, and the branch
      that closes it and opens an empty one. */
  lemma StepState(tokens: seq<Token>, rules: seq<Rule>, t: nat, r: nat, done: seq<seq<Token>>, cur: seq<Token>)
    requires Searching(tokens, rules, t, r, done, cur)
    requires t < |tokens| && r < |rules| && Satisfies(tokens[t], rules[r])
    ensures rules[r].Repeatable() ==> Searching(tokens, rules, t + 1, r, done, cur + [tokens[t]])
    ensures Searching(tokens, rules, t + 1, r + 1, done + [cur + [tokens[t]]], [])
    ensures Fits(done + [cur + [tokens[t]]], rules)
    ensures Flatten(done + [cur + [tokens[t]]]) == tokens[..t + 1]
  {
    var cur' := cur + [tokens[t]];
    var g0 := done + [cur'];
    assert tokens[..t + 1] == tokens[..t] + [tokens[t]];
    assert Flatten(done) + cur' == tokens[..t + 1];
    FlattenSnoc(done, cur');
    assert GroupFits(cur', rules[r]) by {
      assert forall k :: 0 <= k < |cur| ==> cur'[k] == cur[k];
    }
    forall i | 0 <= i < |g0|
      ensures GroupFits(g0[i], rules[i])
    {
      if i < r {
        assert g0[i] == done[i];
      }
    }
    assert g0 + [] == g0;
  }

  // ---------------------------------------------------------------------------
  // How a continuation of the branch relates to the continuations of its children.

  /** A continuation of the branch that keeps the tokens before `t` also holds token
      `t` at the next place of the open group, and is at least that long. */
  lemma GroupAt(tokens: seq<Token>, t: nat, done: seq<seq<Token>>, cur: seq<Token>, groups: seq<seq<Token>>)
    requires t < |tokens| && Flatten(done) + cur == tokens[..t]
    requires Extends(groups, done, cur)
    requires |Flatten(groups)| <= |tokens| && Flatten(groups) == tokens[..|Flatten(groups)|]
    requires forall i :: 0 <= i < |groups| ==> |groups[i]| > 0
    ensures groups[|done|][|cur|] == tokens[t]
    ensures |Flatten(groups)| >= t + (|groups[|done|]| - |cur|) + (|groups| - |done| - 1)
  {
    var r := |done|;
    var g := groups[r];
    var post := groups[r + 1..];
    assert groups == (done + [g]) + post;
    FlattenConcat(done + [g], post);
    FlattenSnoc(done, g);
    assert |Flatten(done)| == t - |cur|;
    FlattenLength(post) by {
      forall i | 0 <= i < |post|
        ensures |post[i]| > 0
      {
        assert post[i] == groups[r + 1 + i];
      }
    }
    assert (Flatten(done) + g)[t] == g[|cur|];
    assert Flatten(groups)[t] == tokens[..|Flatten(groups)|][t];
  }

  /** A continuation of the branch, given the token it adds to the open group: it ends
      with that group, or continues the branch that closes it, or continues the
      branch that keeps it open. */
  lemma ExtendsCases(groups: seq<seq<Token>>, done: seq<seq<Token>>, cur: seq<Token>, token: Token)
    requires Extends(groups, done, cur) && groups[|done|][|cur|] == token
    requires forall i :: 0 <= i < |groups| ==> |groups[i]| > 0
    ensures var r := |done|;
      || (|groups[r]| == |cur| + 1 && |groups| == r + 1 && groups == done + [cur + [token]])
      || (|groups[r]| == |cur| + 1 && |groups| > r + 1 && Extends(groups, done + [cur + [token]], []))
      || (|groups[r]| > |cur| + 1 && Extends(groups, done, cur + [token]))
  {
    var r := |done|;
    var cur' := cur + [token];
    assert groups[r][..|cur'|] == cur' by {
      assert groups[r][..|cur'|] == groups[r][..|cur|] + [groups[r][|cur|]];
    }
    if |groups[r]| == |cur'| {
      assert groups[r] == cur';
      if |groups| == r + 1 {
        assert groups == groups[..r] + [groups[r]];
      } else {
        assert groups[..r + 1] == groups[..r] + [groups[r]];
      }
    }
  }

  /** The children's continuations continue the branch, and so does the branch with
      the token added and closed. */
  lemma ExtendsBack(groups: seq<seq<Token>>, done: seq<seq<Token>>, cur: seq<Token>, token: Token)
    ensures Extends(groups, done, cur + [token]) ==> Extends(groups, done, cur)
    ensures Extends(groups, done + [cur + [token]], []) ==> Extends(groups, done, cur)
    ensures Extends(done + [cur + [token]], done, cur)
  {
    var r := |done|;
    var cur' := cur + [token];
    if Extends(groups, done, cur') {
      assert groups[r][..|cur|] == groups[r][..|cur'|][..|cur|];
      assert cur'[..|cur|] == cur;
    }
    if Extends(groups, done + [cur'], []) {
      assert groups[..r] == groups[..r + 1][..r];
      assert groups[r] == groups[..r + 1][r];
      assert cur'[..|cur|] == cur;
    }
    assert (done + [cur'])[..r] == done;
    assert cur'[..|cur|] == cur;
  }

  // ---------------------------------------------------------------------------
  // When the search fails.

  /** Some overrun continues the branch. */
  ghost predicate Overruns(tokens: seq<Token>, rules: seq<Rule>, done: seq<seq<Token>>, cur: seq<Token>) {
    exists groups :: Extends(groups, done, cur) && Overrun(groups, tokens, rules)
  }

  /** An overrun that continues the branch adds token `t` to the open group, so the
      token satisfies the rule, the step does not end the search, and the overrun is
      the closed branch itself or continues one of the children. */
  lemma OverrunsToChild(tokens: seq<Token>, rules: seq<Rule>, t: nat, r: nat, done: seq<seq<Token>>, cur: seq<Token>)
    requires Searching(tokens, rules, t, r, done, cur) && t < |tokens| && r < |rules|
    requires Overruns(tokens, rules, done, cur)
    ensures Satisfies(tokens[t], rules[r]) && !Last(tokens, rules, t, r)
    ensures || (rules[r].Repeatable() && Overruns(tokens, rules, done, cur + [tokens[t]]))
            || Overruns(tokens, rules, done + [cur + [tokens[t]]], [])
            || t + 1 == |tokens| || r + 1 == |rules|
  {
    var groups :| Extends(groups, done, cur) && Overrun(groups, tokens, rules);
    assert forall i :: 0 <= i < |groups| ==> |groups[i]| > 0 by {
      assert forall i :: 0 <= i < |groups| ==> GroupFits(groups[i], rules[i]);
    }
    GroupAt(tokens, t, done, cur, groups);
    assert GroupFits(groups[r], rules[r]);
    ExtendsCases(groups, done, cur, tokens[t]);
  }

  /** An overrun that continues a child, or the closed branch when it uses up exactly
      one list, continues the branch. */
  lemma OverrunsFromChild(tokens: seq<Token>, rules: seq<Rule>, t: nat, r: nat, done: seq<seq<Token>>, cur: seq<Token>)
    requires Searching(tokens, rules, t, r, done, cur) && t < |tokens| && r < |rules|
    requires Satisfies(tokens[t], rules[r]) && !Last(tokens, rules, t, r)
    ensures Overruns(tokens, rules, done, cur + [tokens[t]]) ==> Overruns(tokens, rules, done, cur)
    ensures Overruns(tokens, rules, done + [cur + [tokens[t]]], []) ==> Overruns(tokens, rules, done, cur)
    ensures t + 1 == |tokens| || r + 1 == |rules| ==> Overruns(tokens, rules, done, cur)
  {
    var cur' := cur + [tokens[t]];
    var g0 := done + [cur'];
    if Overruns(tokens, rules, done, cur') {
      var groups :| Extends(groups, done, cur') && Overrun(groups, tokens, rules);
      ExtendsBack(groups, done, cur, tokens[t]);
    }
    if Overruns(tokens, rules, g0, []) {
      var groups :| Extends(groups, g0, []) && Overrun(groups, tokens, rules);
      ExtendsBack(groups, done, cur, tokens[t]);
    }
    if t + 1 == |tokens| || r + 1 == |rules| {
      StepState(tokens, rules, t, r, done, cur);
      ExtendsBack(g0, done, cur, tokens[t]);
      assert Overrun(g0, tokens, rules);
    }
  }

  /** No overrun continues a branch whose next token fails its rule. */
  lemma UnmatchedNoOverrun(tokens: seq<Token>, rules: seq<Rule>, t: nat, r: nat, done: seq<seq<Token>>, cur: seq<Token>)
    requires Searching(tokens, rules, t, r, done, cur) && t < |tokens| && r < |rules|
    requires !Satisfies(tokens[t], rules[r])
    ensures !Overruns(tokens, rules, done, cur)
  {
    if Overruns(tokens, rules, done, cur) {
      OverrunsToChild(tokens, rules, t, r, done, cur);
    }
  }

  /** The search fails, with ArgumentOutOfRange, exactly when the branch already ran past
      an end or some overrun continues it. */
  lemma {:induction false} SearchErrs(tokens: seq<Token>, rules: seq<Rule>, t: nat, r: nat, done: seq<seq<Token>>, cur: seq<Token>)
    requires Searching(tokens, rules, t, r, done, cur)
    ensures Search(tokens, rules, t, r, done, cur).Err? ==> Search(tokens, rules, t, r, done, cur).error == Matches.ArgumentOutOfRange
    ensures Search(tokens, rules, t, r, done, cur).Err?
      <==> t == |tokens| || r == |rules| || Overruns(tokens, rules, done, cur)
    decreases |tokens| - t
  {
    if t == |tokens| || r == |rules| {
    } else if !Satisfies(tokens[t], rules[r]) {
      UnmatchedNoOverrun(tokens, rules, t, r, done, cur);
    } else {
      var cur' := cur + [tokens[t]];
      SearchSteps(tokens, rules, t, r, done, cur);
      if Last(tokens, rules, t, r) {
        if Overruns(tokens, rules, done, cur) {
          OverrunsToChild(tokens, rules, t, r, done, cur);
        }
      } else {
        StepState(tokens, rules, t, r, done, cur);
        StepParts(tokens, rules, t, r, done, cur');
        if rules[r].Repeatable() {
          SearchErrs(tokens, rules, t + 1, r, done, cur');
        }
        SearchErrs(tokens, rules, t + 1, r + 1, done + [cur'], []);
        OverrunsFromChild(tokens, rules, t, r, done, cur);
        if Overruns(tokens, rules, done, cur) {
          OverrunsToChild(tokens, rules, t, r, done, cur);
        }
      }
    }
  }

  // ---------------------------------------------------------------------------
  // What the search returns.

  /** A result the search on the branch should return: an unnamed partition of the
      tokens that continues the branch. */
  predicate Complete(m: Matches.Match, tokens: seq<Token>, rules: seq<Rule>, done: seq<seq<Token>>, cur: seq<Token>) {
    m.names == [] && Partition(m.groups, tokens, rules) && Extends(m.groups, done, cur)
  }

  /** A partition that continues the branch adds token `t` to the open group; when
      both lists end there it is the closed branch, otherwise it continues a child. */
  lemma CompleteToChild(tokens: seq<Token>, rules: seq<Rule>, t: nat, r: nat, done: seq<seq<Token>>, cur: seq<Token>, m: Matches.Match)
    requires Searching(tokens, rules, t, r, done, cur) && t < |tokens| && r < |rules|
    requires Complete(m, tokens, rules, done, cur)
    ensures Satisfies(tokens[t], rules[r])
    ensures Last(tokens, rules, t, r) ==> m == Matches.Match(done + [cur + [tokens[t]]], [])
    ensures !Last(tokens, rules, t, r) ==>
      || (rules[r].Repeatable() && Complete(m, tokens, rules, done, cur + [tokens[t]]))
      || Complete(m, tokens, rules, done + [cur + [tokens[t]]], [])
  {
    var groups := m.groups;
    assert tokens[..|tokens|] == tokens;
    assert forall i :: 0 <= i < |groups| ==> |groups[i]| > 0 by {
      assert forall i :: 0 <= i < |groups| ==> GroupFits(groups[i], rules[i]);
    }
    GroupAt(tokens, t, done, cur, groups);
    assert GroupFits(groups[r], rules[r]);
    ExtendsCases(groups, done, cur, tokens[t]);
    StepState(tokens, rules, t, r, done, cur);
  }

  /** A partition that continues a child continues the branch, and so does the closed
      branch when both lists end at the token just added. */
  lemma CompleteFromChild(tokens: seq<Token>, rules: seq<Rule>, t: nat, r: nat, done: seq<seq<Token>>, cur: seq<Token>, m: Matches.Match)
    requires Searching(tokens, rules, t, r, done, cur) && t < |tokens| && r < |rules|
    requires Satisfies(tokens[t], rules[r])
    ensures Complete(m, tokens, rules, done, cur + [tokens[t]]) ==> Complete(m, tokens, rules, done, cur)
    ensures Complete(m, tokens, rules, done + [cur + [tokens[t]]], []) ==> Complete(m, tokens, rules, done, cur)
    ensures Last(tokens, rules, t, r) ==> Complete(Matches.Match(done + [cur + [tokens[t]]], []), tokens, rules, done, cur)
  {
    ExtendsBack(m.groups, done, cur, tokens[t]);
    ExtendsBack(m.groups, done, cur, tokens[t]);
    if Last(tokens, rules, t, r) {
      StepState(tokens, rules, t, r, done, cur);
      assert tokens[..t + 1] == tokens;
    }
  }

  /** The partitions that continue the branch, in terms of the closed branch and the
      children. */
  lemma CompleteIff(tokens: seq<Token>, rules: seq<Rule>, t: nat, r: nat, done: seq<seq<Token>>, cur: seq<Token>, m: Matches.Match)
    requires Searching(tokens, rules, t, r, done, cur) && t < |tokens| && r < |rules|
    requires Satisfies(tokens[t], rules[r])
    ensures Last(tokens, rules, t, r) ==>
      (Complete(m, tokens, rules, done, cur) <==> m == Matches.Match(done + [cur + [tokens[t]]], []))
    ensures !Last(tokens, rules, t, r) ==>
      (Complete(m, tokens, rules, done, cur) <==>
        || (rules[r].Repeatable() && Complete(m, tokens, rules, done, cur + [tokens[t]]))
        || Complete(m, tokens, rules, done + [cur + [tokens[t]]], []))
  {
    CompleteFromChild(tokens, rules, t, r, done, cur, m);
    if Complete(m, tokens, rules, done, cur) {
      CompleteToChild(tokens, rules, t, r, done, cur, m);
    }
  }

  /** A successful search returns exactly the unnamed partitions that continue the
      branch. */
  lemma {:induction false} SearchFinds(tokens: seq<Token>, rules: seq<Rule>, t: nat, r: nat, done: seq<seq<Token>>, cur: seq<Token>)
    requires Searching(tokens, rules, t, r, done, cur)
    ensures Search(tokens, rules, t, r, done, cur).Ok? ==>
      forall m :: m in Search(tokens, rules, t, r, done, cur).value <==> Complete(m, tokens, rules, done, cur)
    decreases |tokens| - t
  {
    if t == |tokens| || r == |rules| {
    } else if !Satisfies(tokens[t], rules[r]) {
      forall m | Complete(m, tokens, rules, done, cur)
        ensures false
      {
        CompleteToChild(tokens, rules, t, r, done, cur, m);
      }
    } else {
      var cur' := cur + [tokens[t]];
      SearchSteps(tokens, rules, t, r, done, cur);
      if !Last(tokens, rules, t, r) {
        StepState(tokens, rules, t, r, done, cur);
        StepParts(tokens, rules, t, r, done, cur');
        if rules[r].Repeatable() {
          SearchFinds(tokens, rules, t + 1, r, done, cur');
        }
        SearchFinds(tokens, rules, t + 1, r + 1, done + [cur'], []);
      }
      if Search(tokens, rules, t, r, done, cur).Ok? {
        forall m
          ensures m in Search(tokens, rules, t, r, done, cur).value <==> Complete(m, tokens, rules, done, cur)
        {
          CompleteIff(tokens, rules, t, r, done, cur, m);
        }
      }
    }
  }

  /** Every result that keeps the open group open comes before every result that
      closes it. */
  lemma BeforeAcross(a: seq<seq<Token>>, b: seq<seq<Token>>, done: seq<seq<Token>>, cur: seq<Token>)
    requires Extends(a, done, cur) && Extends(b, done + [cur], [])
    ensures Before(a, b)
  {
    var k := |done|;
    assert b[..k] == b[..k + 1][..k];
    assert b[k] == b[..k + 1][k];
  }

  /** The results of the copy that keeps the group open, then those of the branch that
      closes it, are in discovery order when each list is. */
  lemma JoinSorted(xs: seq<Matches.Match>, ys: seq<Matches.Match>, tokens: seq<Token>, rules: seq<Rule>, done: seq<seq<Token>>, cur: seq<Token>)
    requires Sorted(xs) && Sorted(ys)
    requires forall m :: m in xs ==> Complete(m, tokens, rules, done, cur)
    requires forall m :: m in ys ==> Complete(m, tokens, rules, done + [cur], [])
    ensures Sorted(xs + ys)
  {
    forall i, j | 0 <= i < |xs| && 0 <= j < |ys|
      ensures Before(xs[i].groups, ys[j].groups)
    {
      assert xs[i] in xs && ys[j] in ys;
      BeforeAcross(xs[i].groups, ys[j].groups, done, cur);
    }
    SortedConcat(xs, ys);
  }

  lemma SortedConcat(xs: seq<Matches.Match>, ys: seq<Matches.Match>)
    requires Sorted(xs) && Sorted(ys)
    requires forall i, j :: 0 <= i < |xs| && 0 <= j < |ys| ==> Before(xs[i].groups, ys[j].groups)
    ensures Sorted(xs + ys)
  {
    forall i, j | 0 <= i < j < |xs + ys|
      ensures Before((xs + ys)[i].groups, (xs + ys)[j].groups)
    {
      if j < |xs| {
        assert (xs + ys)[i] == xs[i] && (xs + ys)[j] == xs[j];
      } else if i < |xs| {
        assert (xs + ys)[i] == xs[i] && (xs + ys)[j] == ys[j - |xs|];
      } else {
        assert (xs + ys)[i] == ys[i - |xs|] && (xs + ys)[j] == ys[j - |xs|];
      }
    }
  }

  /** A successful search returns its results in discovery order. */
  lemma {:induction false} SearchOrders(tokens: seq<Token>, rules: seq<Rule>, t: nat, r: nat, done: seq<seq<Token>>, cur: seq<Token>)
    requires Searching(tokens, rules, t, r, done, cur)
    ensures Search(tokens, rules, t, r, done, cur).Ok? ==> Sorted(Search(tokens, rules, t, r, done, cur).value)
    decreases |tokens| - t
  {
    if t < |tokens| && r < |rules| && Satisfies(tokens[t], rules[r]) {
      var cur' := cur + [tokens[t]];
      SearchSteps(tokens, rules, t, r, done, cur);
      if !Last(tokens, rules, t, r) {
        StepState(tokens, rules, t, r, done, cur);
        StepParts(tokens, rules, t, r, done, cur');
        var longer := if rules[r].Repeatable() then Search(tokens, rules, t + 1, r, done, cur') else Ok([]);
        var next := Search(tokens, rules, t + 1, r + 1, done + [cur'], []);
        if longer.Ok? && next.Ok? {
          if rules[r].Repeatable() {
            SearchOrders(tokens, rules, t + 1, r, done, cur');
            SearchFinds(tokens, rules, t + 1, r, done, cur');
          }
          SearchOrders(tokens, rules, t + 1, r + 1, done + [cur'], []);
          SearchFinds(tokens, rules, t + 1, r + 1, done + [cur'], []);
          JoinSorted(longer.value, next.value, tokens, rules, done, cur');
        }
      }
    }
  }

  /** Results in discovery order are pairwise distinct. */
  lemma SortedDistinct(ms: seq<Matches.Match>)
    requires Sorted(ms)
    ensures forall i, j :: 0 <= i < j < |ms| ==> ms[i] != ms[j]
  {
    forall i, j | 0 <= i < j < |ms|
      ensures ms[i] != ms[j]
    {
      var k :| 0 <= k < |ms[i].groups| && k < |ms[j].groups| && ms[i].groups[..k] == ms[j].groups[..k]
        && |ms[i].groups[k]| > |ms[j].groups[k]|;
    }
  }

  // ---------------------------------------------------------------------------
  // The matcher.

  /** A non-empty token list starts the search from the first token and rule with a
      single empty group. */
  lemma MatchStarts(matcher: Matcher, tokens: seq<Token>)
    requires |tokens| > 0
    ensures matcher.Match(Some(tokens)) == Search(tokens, matcher.rules, 0, 0, [], [])
    ensures Searching(tokens, matcher.rules, 0, 0, [], [])
  {
    var none: seq<seq<Token>> := [];
    assert none + [[]] == [[]];
    assert tokens[..0] == [];
  }

  /** Every overrun starts the first group with the first token. */
  lemma OverrunsFromStart(tokens: seq<Token>, rules: seq<Rule>)
    ensures Overruns(tokens, rules, [], []) <==> exists groups :: Overrun(groups, tokens, rules)
  {
    if groups: seq<seq<Token>> :| Overrun(groups, tokens, rules) {
      assert GroupFits(groups[0], rules[0]);
      assert Extends(groups, [], []);
    }
  }

  /** The call fails exactly when there are no rules or some overrun exists, and then
      with ArgumentOutOfRange. */
  lemma MatchFails(matcher: Matcher, tokens: seq<Token>)
    requires |tokens| > 0
    ensures matcher.Match(Some(tokens)).Err? ==> matcher.Match(Some(tokens)).error == Matches.ArgumentOutOfRange
    ensures matcher.Match(Some(tokens)).Err? <==>
      |matcher.rules| == 0 || exists groups :: Overrun(groups, tokens, matcher.rules)
  {
    MatchStarts(matcher, tokens);
    SearchErrs(tokens, matcher.rules, 0, 0, [], []);
    OverrunsFromStart(tokens, matcher.rules);
  }

  /** A successful call returns exactly the partitions of the tokens, with no names
      bound; an empty list means there is none. */
  lemma MatchFinds(matcher: Matcher, tokens: seq<Token>)
    requires |tokens| > 0
    ensures matcher.Match(Some(tokens)).Ok? ==>
      forall m :: m in matcher.Match(Some(tokens)).value <==> m.names == [] && Partition(m.groups, tokens, matcher.rules)
  {
    MatchStarts(matcher, tokens);
    MatchFails(matcher, tokens);
    SearchFinds(tokens, matcher.rules, 0, 0, [], []);
    if matcher.Match(Some(tokens)).Ok? {
      forall m: Matches.Match | Partition(m.groups, tokens, matcher.rules)
        ensures Extends(m.groups, [], [])
      {
        assert GroupFits(m.groups[0], matcher.rules[0]);
      }
    }
  }

  /** A successful call returns its results in discovery order, so each partition
      only once. */
  lemma MatchOrders(matcher: Matcher, tokens: seq<Token>)
    requires |tokens| > 0
    ensures matcher.Match(Some(tokens)).Ok? ==> Sorted(matcher.Match(Some(tokens)).value)
    ensures matcher.Match(Some(tokens)).Ok? ==>
      forall i, j :: 0 <= i < j < |matcher.Match(Some(tokens)).value| ==>
        matcher.Match(Some(tokens)).value[i] != matcher.Match(Some(tokens)).value[j]
  {
    MatchStarts(matcher, tokens);
    SearchOrders(tokens, matcher.rules, 0, 0, [], []);
    if matcher.Match(Some(tokens)).Ok? {
      SortedDistinct(matcher.Match(Some(tokens)).value);
    }
  }

  /** A pattern ending in a repeatable rule fails on any input where that rule could
      take a token before the last: with one repeatable Word rule, two words fail. */
  lemma RepeatingLastOverruns(a: Token, b: Token)
    requires a.kind == Word && b.kind == Word
    ensures Matcher([Repeating(Word, true)]).Match(Some([a, b])) == Err(Matches.ArgumentOutOfRange)
  {
    var rules := [Repeating(Word, true)];
    var groups := [[a]];
    assert Flatten(groups) == [a] by {
      assert groups[..0] == [];
    }
    assert [a, b][..1] == [a];
    assert Overrun(groups, [a, b], rules);
    MatchFails(Matcher(rules), [a, b]);
  }
}
