/**
  A Match: the token groups a matcher found, one per rule, and the capture names
  bound to group indices. The names live in a Dictionary that is only ever added to,
  so they are modelled as a list of bindings in insertion order, where rebinding a
  name keeps its place.
 */
module Matches {

  import opened Outcomes
  import opened Chars
  import opened Tokens

  /** The exceptions the matcher and its Match may throw; ArgumentOutOfRange is what a
      List's indexer throws for an index outside the list. */
  datatype MatchFailure =
    | ArgumentNull(paramName: string)
    | Argument(message: string)
    | ArgumentOutOfRange

  const EmptyTokensMessage: string := "Tokens cannot be empty"
  const DuplicateKeyMessage: string := "An item with the same key has already been added"

  type Bindings = seq<(string, int)>

  /** The Dictionary's invariant: no name is bound twice. */
  predicate DistinctNames(names: Bindings) {
    forall i, j :: 0 <= i < j < |names| ==> names[i].0 != names[j].0
  }

  /** Where `name` is bound in the list, or |names| when it is not. */
  function NameSlot(names: Bindings, name: string): (k: nat)
    ensures k <= |names|
    ensures k < |names| ==> names[k].0 == name
    ensures forall i :: 0 <= i < k ==> names[i].0 != name
  {
    if |names| == 0 || names[0].0 == name then 0 else 1 + NameSlot(names[1..], name)
  }

  /** The index `name` is bound to, if any. */
  function Bound(names: Bindings, name: string): (r: Option<int>)
  {
    var k := NameSlot(names, name);
    if k < |names| then Some(names[k].1) else None
  }

  datatype Match = Match(groups: seq<seq<Token>>, names: Bindings)

  /** List.Add: one more group, no binding changed. */
  function Append(m: Match, group: seq<Token>): Match
  {
    Match(m.groups + [group], m.names)
  }

  /** `Last().Add(token)`: the token joins the last group. */
  function AddToLast(m: Match, token: Token): (r: Match)
    requires |m.groups| > 0
    ensures |r.groups| == |m.groups| && r.names == m.names
    ensures r.groups[..|m.groups| - 1] == m.groups[..|m.groups| - 1]
    ensures r.groups[|m.groups| - 1] == m.groups[|m.groups| - 1] + [token]
  {
    var n := |m.groups|;
    Match(m.groups[..n - 1] + [m.groups[n - 1] + [token]], m.names)
  }

  /** SetName: binds `name` to `index`, overwriting an existing binding in place. */
  function SetName(m: Match, index: int, name: string): (r: Match)
    ensures r.groups == m.groups
    ensures Bound(r.names, name) == Some(index)
    ensures forall other :: other != name ==> Bound(r.names, other) == Bound(m.names, other)
    ensures DistinctNames(m.names) ==> DistinctNames(r.names)
  {
    var k := NameSlot(m.names, name);
    var names := if k < |m.names| then m.names[k := (name, index)] else m.names + [(name, index)];
    SetNameSlots(m.names, name, index, names);
    Match(m.groups, names)
  }

  /** The list SetName builds: the name's slot overwritten, or one binding appended. */
  predicate Rebound(names: Bindings, name: string, index: int, names': Bindings) {
    names' == if NameSlot(names, name) < |names| then names[NameSlot(names, name) := (name, index)]
      else names + [(name, index)]
  }

  lemma SetNameSlots(names: Bindings, name: string, index: int, names': Bindings)
    requires Rebound(names, name, index, names')
    ensures Bound(names', name) == Some(index)
    ensures forall other :: other != name ==> Bound(names', other) == Bound(names, other)
    ensures DistinctNames(names) ==> DistinctNames(names')
  {
    SlotAt(names', NameSlot(names, name), name);
    forall other | other != name
      ensures Bound(names', other) == Bound(names, other)
    {
      ReboundKeeps(names, name, index, names', other);
    }
  }

  lemma ReboundKeeps(names: Bindings, name: string, index: int, names': Bindings, other: string)
    requires Rebound(names, name, index, names') && other != name
    ensures Bound(names', other) == Bound(names, other)
  {
    var j := NameSlot(names, other);
    if j < |names| {
      SlotAt(names', j, other);
    } else {
      SlotAbsent(names', other);
    }
  }

  /** The first binding of a name is its slot. */
  lemma {:induction false} SlotAt(names: Bindings, k: nat, name: string)
    requires k < |names| && names[k].0 == name
    requires forall i :: 0 <= i < k ==> names[i].0 != name
    ensures NameSlot(names, name) == k
    decreases k
  {
    if k > 0 {
      SlotAt(names[1..], k - 1, name);
    }
  }

  lemma {:induction false} SlotAbsent(names: Bindings, name: string)
    requires forall i :: 0 <= i < |names| ==> names[i].0 != name
    ensures NameSlot(names, name) == |names|
    decreases |names|
  {
    if |names| > 0 {
      SlotAbsent(names[1..], name);
    }
  }

  // ---------------------------------------------------------------------------
  // Lookup by name and Add(name, group).

  /** The string indexer: null for an unbound name, else the group at the bound index,
      which SetName never checks, so the list's indexer may throw. */
  function Lookup(m: Match, name: string): (r: Result<Option<seq<Token>>, MatchFailure>)
    ensures r == Ok(None) <==> forall k :: 0 <= k < |m.names| ==> m.names[k].0 != name
    ensures r.Ok? && r.value.Some? ==> r.value.value in m.groups
    ensures DistinctNames(m.names) ==> forall k :: 0 <= k < |m.names| && m.names[k].0 == name ==>
      r == if 0 <= m.names[k].1 < |m.groups| then Ok(Some(m.groups[m.names[k].1])) else Err(ArgumentOutOfRange)
  {
    match Bound(m.names, name)
    case None => Ok(None)
    case Some(i) => if 0 <= i < |m.groups| then Ok(Some(m.groups[i])) else Err(ArgumentOutOfRange)
  }

  /** Add(name, group): appends the group and binds the name to its index; the
      Dictionary refuses a name that is already bound. */
  function AddNamed(m: Match, name: string, group: seq<Token>): (r: Result<Match, MatchFailure>)
    ensures r.Err? <==> Bound(m.names, name).Some?
    ensures r.Err? ==> r.error == Argument(DuplicateKeyMessage)
    ensures r.Ok? ==> r.value.groups == m.groups + [group]
    ensures r.Ok? ==> Bound(r.value.names, name) == Some(|m.groups|)
    ensures r.Ok? ==> forall other :: other != name ==> Bound(r.value.names, other) == Bound(m.names, other)
    ensures r.Ok? && DistinctNames(m.names) ==> DistinctNames(r.value.names)
  {
    if NameSlot(m.names, name) < |m.names| then Err(Argument(DuplicateKeyMessage))
    else
      var names := m.names + [(name, |m.groups|)];
      SetNameSlots(m.names, name, |m.groups|, names);
      Ok(Match(m.groups + [group], names))
  }

  /** After SetName the name looks up the group at its new index; other names look up
      what they did before. */
  lemma LookupAfterSetName(m: Match, index: int, name: string, other: string)
    ensures Lookup(SetName(m, index, name), other)
      == if other == name then (if 0 <= index < |m.groups| then Ok(Some(m.groups[index])) else Err(ArgumentOutOfRange))
        else Lookup(m, other)
  {
  }

  /** After Add(name, group) the name looks up the new group. Another name keeps its
      lookup, except one bound by SetName to the index the new group takes: it now
      finds that group instead of failing. */
  lemma LookupAfterAddNamed(m: Match, name: string, group: seq<Token>, other: string)
    requires AddNamed(m, name, group).Ok?
    ensures Lookup(AddNamed(m, name, group).value, name) == Ok(Some(group))
    ensures other != name ==>
      (Lookup(AddNamed(m, name, group).value, other)
        == if Bound(m.names, other) == Some(|m.groups|) then Ok(Some(group)) else Lookup(m, other))
  {
    var r := AddNamed(m, name, group).value;
    assert r.groups[|m.groups|] == group;
    if other != name {
      match Bound(m.names, other)
      case None =>
      case Some(i) =>
        if 0 <= i < |m.groups| {
          assert r.groups[i] == m.groups[i];
        }
    }
  }

  // ---------------------------------------------------------------------------
  // Duplicate.

  /** The loop of Duplicate that replays the bindings, in order, onto the copy. */
  function Rebind(acc: Match, names: Bindings): (r: Match)
    ensures r.groups == acc.groups
    decreases |names|
  {
    if |names| == 0 then acc else Rebind(SetName(acc, names[0].1, names[0].0), names[1..])
  }

  /** Duplicate: a copy of every group, then every binding in the Dictionary's order. */
  function Duplicate(m: Match): (r: Match)
    ensures r.groups == m.groups
  {
    Rebind(Match(m.groups, []), m.names)
  }

  /** Replaying distinct bindings onto a prefix of them appends them in order. */
  lemma {:induction false} RebindAppends(groups: seq<seq<Token>>, done: Bindings, rest: Bindings)
    requires DistinctNames(done + rest)
    ensures Rebind(Match(groups, done), rest) == Match(groups, done + rest)
    decreases |rest|
  {
    if |rest| > 0 {
      var (name, index) := rest[0];
      forall i | 0 <= i < |done|
        ensures done[i].0 != name
      {
        assert (done + rest)[i] == done[i];
        assert (done + rest)[|done|] == rest[0];
      }
      SlotAbsent(done, name);
      assert SetName(Match(groups, done), index, name) == Match(groups, done + [rest[0]]);
      assert done + [rest[0]] + rest[1..] == done + rest;
      RebindAppends(groups, done + [rest[0]], rest[1..]);
    } else {
      assert done + rest == done;
    }
  }

  /** A duplicate has the same groups and the same bindings in the same order. */
  lemma DuplicateIsCopy(m: Match)
    requires DistinctNames(m.names)
    ensures Duplicate(m) == m
  {
    RebindAppends(m.groups, [], m.names);
    assert [] + m.names == m.names;
  }

  // ---------------------------------------------------------------------------
  // Equality and rendering.

  /** Equals: false for null, for another group count, for other bindings (compared in
      order) or for any token that differs; true otherwise. */
  method Equals(m: Match, other: Option<Match>) returns (eq: bool)
    ensures eq <==> other == Some(m)
  {
    if other.None? {
      return false;
    }
    var o := other.value;
    if |m.groups| != |o.groups| {
      return false;
    }
    if m.names != o.names {
      return false;
    }
    var i := 0;
    while i < |m.groups|
      invariant 0 <= i <= |m.groups|
      invariant forall k :: 0 <= k < i ==> m.groups[k] == o.groups[k]
    {
      if |m.groups[i]| != |o.groups[i]| {
        return false;
      }
      var j := 0;
      while j < |m.groups[i]|
        invariant 0 <= j <= |m.groups[i]|
        invariant forall l :: 0 <= l < j ==> m.groups[i][l] == o.groups[i][l]
      {
        if !m.groups[i][j].Equals(Some(o.groups[i][j])) {
          return false;
        }
        j := j + 1;
      }
      assert m.groups[i] == o.groups[i];
      i := i + 1;
    }
    assert m.groups == o.groups;
    return true;
  }

  function Surfaces(group: seq<Token>): (r: seq<string>)
    ensures |r| == |group|
  {
    if |group| == 0 then [] else Surfaces(group[..|group| - 1]) + [group[|group| - 1].surface]
  }

  /** A group's surfaces joined with single spaces. */
  function Spaced(group: seq<Token>): string
  {
    Join(" ", Surfaces(group))
  }

  function GroupStrings(groups: seq<seq<Token>>): (r: seq<string>)
    ensures |r| == |groups|
  {
    if |groups| == 0 then [] else GroupStrings(groups[..|groups| - 1]) + [Spaced(groups[|groups| - 1])]
  }

  /** ToString: every group's surfaces in brackets, the groups separated by a space. */
  function MatchString(m: Match): (s: string)
    ensures |s| >= 2 && s[0] == '[' && s[|s| - 1] == ']'
    ensures |m.groups| == 0 ==> s == "[]"
  {
    "[" + Join("] [", GroupStrings(m.groups)) + "]"
  }

  lemma MatchStringSmall(names: Bindings, group: seq<Token>)
    ensures MatchString(Match([], names)) == "[]"
    ensures MatchString(Match([group], names)) == "[" + Spaced(group) + "]"
  {
    assert [group][..0] == [];
  }

  /** One more group reopens the closing bracket: "] [", its surfaces, "]". */
  lemma MatchStringAppend(m: Match, group: seq<Token>)
    requires |m.groups| > 0
    ensures var s := MatchString(m);
      MatchString(Append(m, group)) == s[..|s| - 1] + "] [" + Spaced(group) + "]"
  {
    var parts := GroupStrings(m.groups);
    assert (m.groups + [group])[..|m.groups|] == m.groups;
    assert GroupStrings(m.groups + [group]) == parts + [Spaced(group)];
    JoinSnoc("] [", parts, Spaced(group));
    var s := "[" + Join("] [", parts) + "]";
    assert s[..|s| - 1] == "[" + Join("] [", parts);
  }

  /** One more token in a group adds a space and its surface. */
  lemma SpacedAppend(group: seq<Token>, t: Token)
    requires |group| > 0
    ensures Spaced(group + [t]) == Spaced(group) + " " + t.surface
  {
    assert (group + [t])[..|group|] == group;
    assert Surfaces(group + [t]) == Surfaces(group) + [t.surface];
    JoinSnoc(" ", Surfaces(group), t.surface);
  }
}
