/**
  The backtracking matcher: splits a token list into one contiguous group per rule,
  trying every split. A rule's group holds one token, or several when the rule is
  repeatable; every token of a group satisfies its rule. At each token the branch
  that keeps extending a repeatable rule's group is explored, on a copy, before the
  branch that moves on to the next rule. Neither the token index nor the rule index
  is checked before use, so a branch that runs past either end fails the whole call.
 */
module Matching {

  import opened Outcomes
  import opened Tokens
  import opened Rules
  import Matches

  /** MatchRule: the kind must be the wanted one and, when the rule names a surface,
      the surface must equal it exactly. The except kind is never consulted. */
  function Satisfies(token: Token, rule: Rule): (b: bool)
    ensures rule.RuleGroup? ==> (b <==> token.kind == Unknown)
    ensures rule.Rule? ==> (b <==> token.kind == rule.wanted && (rule.wantedSurface.None? || token.surface == rule.wantedSurface.value))
  {
    && token.kind == rule.WantedType()
    && (rule.WantedSurface().None? || token.surface == rule.WantedSurface().value)
  }

  /** The except kind a Rule carries plays no part in matching. */
  lemma SatisfiesIgnoresExcept(token: Token, rule: Rule, except: TokenType)
    requires rule.Rule?
    ensures Satisfies(token, rule) == Satisfies(token, rule.(except := except))
  {
  }

  /** The rules of a `params` array, or None when one of them is null. */
  function Present(rules: seq<Option<Rule>>): (r: Option<seq<Rule>>)
    ensures r.Some? <==> forall i :: 0 <= i < |rules| ==> rules[i].Some?
    ensures r.Some? ==> |r.value| == |rules| && forall i :: 0 <= i < |rules| ==> r.value[i] == rules[i].value
  {
    if |rules| == 0 then Some([])
    else if rules[0].None? then None
    else
      match Present(rules[1..])
      case None => None
      case Some(rest) => Some([rules[0].value] + rest)
  }

  datatype Matcher = Matcher(rules: seq<Rule>)
  {
    /** Match: null and empty token lists are refused; otherwise the search from the
        first token and the first rule, with one empty group to fill. */
    function Match(tokens: Option<seq<Token>>): (r: Result<seq<Matches.Match>, Matches.MatchFailure>)
      ensures tokens.None? ==> r == Err(Matches.ArgumentNull("tokens"))
      ensures tokens == Some([]) ==> r == Err(Matches.Argument(Matches.EmptyTokensMessage))
    {
      if tokens.None? then Err(Matches.ArgumentNull("tokens"))
      else if |tokens.value| == 0 then Err(Matches.Argument(Matches.EmptyTokensMessage))
      else Recurse(tokens.value, rules, 0, 0, Matches.Match([[]], []))
    }
  }

  /** The constructor: the first rule, then the others in order; a null first rule, a
      null array or a null element is refused. */
  function NewMatcher(firstRule: Option<Rule>, otherRules: Option<seq<Option<Rule>>>): (r: Result<Matcher, Matches.MatchFailure>)
    ensures r.Ok? <==> firstRule.Some? && otherRules.Some? && forall i :: 0 <= i < |otherRules.value| ==> otherRules.value[i].Some?
    ensures r.Err? ==> r.error == Matches.ArgumentNull(if firstRule.None? then "firstRule" else "otherRules")
    ensures r.Ok? ==> |r.value.rules| == |otherRules.value| + 1 && r.value.rules[0] == firstRule.value
    ensures r.Ok? ==> forall i :: 0 <= i < |otherRules.value| ==> r.value.rules[i + 1] == otherRules.value[i].value
  {
    if firstRule.None? then Err(Matches.ArgumentNull("firstRule"))
    else if otherRules.None? then Err(Matches.ArgumentNull("otherRules"))
    else
      match Present(otherRules.value)
      case None => Err(Matches.ArgumentNull("otherRules"))
      case Some(others) => Ok(Matcher([firstRule.value] + others))
  }

  /** Every match keeps the first `r` groups of the branch it grew from and holds one
      group per rule. */
  predicate Completes(ms: seq<Matches.Match>, branch: Matches.Match, r: nat, n: nat)
    requires r <= |branch.groups|
  {
    forall i :: 0 <= i < |ms| ==> |ms[i].groups| == n && r <= n && ms[i].groups[..r] == branch.groups[..r]
  }

  /** No match binds a name. */
  predicate Unnamed(ms: seq<Matches.Match>) {
    forall i :: 0 <= i < |ms| ==> ms[i].names == []
  }

  /** Recurse at token `t` and rule `r`: read both (either index may be past the end),
      give up the branch when the token does not satisfy the rule, else add the token
      to the branch's last group and go on. */
  function Recurse(tokens: seq<Token>, rules: seq<Rule>, t: nat, r: nat, branch: Matches.Match)
    : (res: Result<seq<Matches.Match>, Matches.MatchFailure>)
    requires |branch.groups| > 0
    ensures res.Err? ==> res.error == Matches.ArgumentOutOfRange
    ensures res.Ok? && |branch.groups| == r + 1 ==> Completes(res.value, branch, r, |rules|)
    ensures res.Ok? && branch.names == [] ==> Unnamed(res.value)
    decreases |tokens| - t, 1
  {
    if t >= |tokens| || r >= |rules| then Err(Matches.ArgumentOutOfRange)
    else if !Satisfies(tokens[t], rules[r]) then Ok([])
    else Step(tokens, rules, t, r, Matches.AddToLast(branch, tokens[t]))
  }

  /** After a token joined the branch: the branch is a result when both lists are used
      up; otherwise a repeatable rule first tries a copy that keeps the group open, and
      then the branch itself moves on to the next rule with a new empty group. */
  function Step(tokens: seq<Token>, rules: seq<Rule>, t: nat, r: nat, branch: Matches.Match)
    : (res: Result<seq<Matches.Match>, Matches.MatchFailure>)
    requires t < |tokens| && r < |rules| && |branch.groups| > 0
    ensures res.Err? ==> res.error == Matches.ArgumentOutOfRange
    ensures res.Ok? && |branch.groups| == r + 1 ==> Completes(res.value, branch, r, |rules|)
    ensures res.Ok? && branch.names == [] ==> Unnamed(res.value)
    decreases |tokens| - t, 0
  {
    if t == |tokens| - 1 && r == |rules| - 1 then Ok([branch])
    else
      var longer := if rules[r].Repeatable() then Recurse(tokens, rules, t + 1, r, Matches.Duplicate(branch)) else Ok([]);
      if longer.Err? then longer
      else
        var next := Recurse(tokens, rules, t + 1, r + 1, Matches.Append(branch, []));
        if next.Err? then next else Ok(longer.value + next.value)
  }
}
