/**
  The matcher's rules: a Rule asks for one token kind and, optionally, one exact
  surface, may repeat, and may carry a capture name; a RuleGroup gathers rules under
  the kind Unknown. Both render themselves for debugging.
 */
module Rules {

  import opened Outcomes
  import opened Chars
  import opened Tokens

  /** Rule and its subclass RuleGroup. A null string is None. A RuleGroup's inherited
      properties are those its base constructor sets: kind Unknown, nothing else. */
  datatype Rule =
    | Rule(wanted: TokenType, wantedSurface: Option<string>, repeat: bool, ruleName: Option<string>, except: TokenType)
    | RuleGroup(rules: seq<Rule>)
  {
    function WantedType(): TokenType {
      if RuleGroup? then Unknown else wanted
    }

    function WantedSurface(): Option<string> {
      if RuleGroup? then None else wantedSurface
    }

    predicate Repeatable() {
      Rule? && repeat
    }

    function Name(): Option<string> {
      if RuleGroup? then None else ruleName
    }

    function ExceptType(): TokenType {
      if RuleGroup? then Unknown else except
    }
  }

  // ---------------------------------------------------------------------------
  // The short constructors, each delegating to the full one with defaults.

  function OfType(kind: TokenType): (r: Rule)
    ensures r.Rule? && r.WantedType() == kind && r.WantedSurface() == None
    ensures !r.Repeatable() && r.Name() == None && r.ExceptType() == Unknown
  {
    Rule(kind, None, false, None, Unknown)
  }

  function WithSurface(kind: TokenType, surface: Option<string>): (r: Rule)
    ensures r.Rule? && r.WantedType() == kind && r.WantedSurface() == surface
    ensures !r.Repeatable() && r.Name() == None && r.ExceptType() == Unknown
  {
    Rule(kind, surface, false, None, Unknown)
  }

  function WithSurfaceNamed(kind: TokenType, surface: Option<string>, name: Option<string>): (r: Rule)
    ensures r.Rule? && r.WantedType() == kind && r.WantedSurface() == surface
    ensures !r.Repeatable() && r.Name() == name && r.ExceptType() == Unknown
  {
    Rule(kind, surface, false, name, Unknown)
  }

  function Repeating(kind: TokenType, repeat: bool): (r: Rule)
    ensures r.Rule? && r.WantedType() == kind && r.WantedSurface() == None
    ensures r.Repeatable() == repeat && r.Name() == None && r.ExceptType() == Unknown
  {
    Rule(kind, None, repeat, None, Unknown)
  }

  function RepeatingNamed(kind: TokenType, repeat: bool, name: Option<string>): (r: Rule)
    ensures r.Rule? && r.WantedType() == kind && r.WantedSurface() == None
    ensures r.Repeatable() == repeat && r.Name() == name && r.ExceptType() == Unknown
  {
    Rule(kind, None, repeat, name, Unknown)
  }

  /** Rule.Optional: a RuleGroup holding the given rules, in order. */
  function Optional(rules: seq<Rule>): (r: Rule)
    ensures r.RuleGroup? && r.rules == rules
    ensures r.WantedType() == Unknown && r.WantedSurface() == None
    ensures !r.Repeatable() && r.Name() == None && r.ExceptType() == Unknown
  {
    RuleGroup(rules)
  }

  // ---------------------------------------------------------------------------
  // Rendering.

  function SurfacePart(surface: Option<string>): string {
    if surface.Some? then ", \"" + surface.value + "\"" else ""
  }

  function RepeatPart(repeat: bool): string {
    if repeat then ", Repeatable" else ""
  }

  function NamePart(name: Option<string>): string {
    if name.Some? then ", Name=\"" + name.value + "\"" else ""
  }

  function ExceptPart(wanted: TokenType, except: TokenType): string {
    if wanted == Unknown && except != Unknown then ", Not " + TypeName(except) else ""
  }

  /** ToString of either class: a Rule lists its kind and then only the parts it has;
      a RuleGroup appends each member and ", ", then cuts the last two characters. */
  function RuleString(r: Rule): (s: string)
    ensures |s| > 0 && s[|s| - 1] == ']'
    ensures r.Rule? ==> |s| > 5 && s[..5] == "Rule["
    ensures r.RuleGroup? && |r.rules| > 0 ==> |s| > 10 && s[..10] == "RuleGroup["
    decreases r, 1
  {
    match r
    case Rule(wanted, surface, repeat, name, except) =>
      "Rule[" + (TypeName(wanted) + (SurfacePart(surface) + (RepeatPart(repeat) + (NamePart(name)
        + (ExceptPart(wanted, except) + "]")))))
    case RuleGroup(rules) =>
      var built := "RuleGroup[" + Items(r, rules);
      built[..|built| - 2] + "]"
  }

  /** The members' strings, each followed by ", ". */
  function Items(owner: Rule, rules: seq<Rule>): (s: string)
    requires forall i :: 0 <= i < |rules| ==> rules[i] < owner
    ensures |rules| > 0 ==> |s| > 2
    decreases owner, 0, |rules|
  {
    if |rules| == 0 then "" else RuleString(rules[0]) + ", " + Items(owner, rules[1..])
  }

  function MemberStrings(rules: seq<Rule>): (r: seq<string>)
    ensures |r| == |rules|
  {
    if |rules| == 0 then [] else [RuleString(rules[0])] + MemberStrings(rules[1..])
  }

  lemma {:induction false} ItemsJoin(owner: Rule, rules: seq<Rule>)
    requires |rules| > 0
    requires forall i :: 0 <= i < |rules| ==> rules[i] < owner
    ensures Items(owner, rules) == Join(", ", MemberStrings(rules)) + ", "
    decreases |rules|
  {
    if |rules| > 1 {
      ItemsJoin(owner, rules[1..]);
      assert MemberStrings(rules)[1..] == MemberStrings(rules[1..]);
    } else {
      assert rules[1..] == [];
    }
  }

  /** A non-empty group renders as its members' strings joined with ", " in brackets:
      the two characters cut are exactly the separator after the last member. */
  lemma GroupString(rules: seq<Rule>)
    requires |rules| > 0
    ensures RuleString(RuleGroup(rules)) == "RuleGroup[" + Join(", ", MemberStrings(rules)) + "]"
  {
    var g := RuleGroup(rules);
    ItemsJoin(g, rules);
    var body := "RuleGroup[" + Join(", ", MemberStrings(rules));
    assert "RuleGroup[" + Items(g, rules) == body + ", ";
    assert (body + ", ")[..|body + ", "| - 2] == body;
  }

  /** The empty group: the cut eats into its own header. */
  lemma EmptyGroupString()
    ensures RuleString(Optional([])) == "RuleGrou]"
  {
    assert "RuleGroup["[..8] == "RuleGrou";
  }

  // ---------------------------------------------------------------------------
  // Reading a Rule's string back: the string determines every field it shows.

  /** What a Rule's string shows: the except kind only when the wanted kind is
      Unknown (and Unknown otherwise). */
  datatype Shown = Shown(wanted: TokenType, surface: Option<string>, repeat: bool, name: Option<string>, except: TokenType)

  function ShownOf(r: Rule): Shown
    requires r.Rule?
  {
    Shown(r.wanted, r.wantedSurface, r.repeat, r.ruleName, if r.wanted == Unknown then r.except else Unknown)
  }

  predicate QuoteFree(s: string) {
    forall i :: 0 <= i < |s| ==> s[i] != '"'
  }

  /** A Rule whose surface and name hold no double quote, so that its string can be
      read back unambiguously. */
  predicate Readable(r: Rule) {
    && r.Rule?
    && (r.wantedSurface.Some? ==> QuoteFree(r.wantedSurface.value))
    && (r.ruleName.Some? ==> QuoteFree(r.ruleName.value))
  }

  /** Index of the first character of `s` that is in `stops`, or |s| when none is. */
  function IndexOfAny(s: string, stops: set<char>): (n: nat)
    ensures n <= |s|
  {
    if |s| == 0 || s[0] in stops then 0 else 1 + IndexOfAny(s[1..], stops)
  }

  lemma {:induction false} IndexOfAnyAfter(x: string, rest: string, stops: set<char>)
    requires forall i :: 0 <= i < |x| ==> x[i] !in stops
    requires |rest| > 0 && rest[0] in stops
    ensures IndexOfAny(x + rest, stops) == |x|
  {
    if |x| > 0 {
      assert (x + rest)[1..] == x[1..] + rest;
      IndexOfAnyAfter(x[1..], rest, stops);
    }
  }

  /** Enum.Parse over the names TypeName gives. */
  function KindNamed(name: string): (r: Option<TokenType>)
  {
    if name == "Unknown" then Some(Unknown)
    else if name == "Word" then Some(Word)
    else if name == "Punctuation" then Some(Punctuation)
    else if name == "Newline" then Some(Newline)
    else if name == "Indent" then Some(Indent)
    else if name == "Dedent" then Some(Dedent)
    else if name == "QuotesStart" then Some(QuotesStart)
    else if name == "QuotesEnd" then Some(QuotesEnd)
    else if name == "StringLiteral" then Some(StringLiteral)
    else if name == "StringVariableStart" then Some(StringVariableStart)
    else if name == "StringVariableEnd" then Some(StringVariableEnd)
    else if name == "Comment" then Some(Comment)
    else if name == "Inform6" then Some(Inform6)
    else None
  }

  lemma KindNamedTypeName(k: TokenType)
    ensures KindNamed(TypeName(k)) == Some(k)
    ensures forall i :: 0 <= i < |TypeName(k)| ==> TypeName(k)[i] != ']'
  {
    KindNamedInverts(k);
    TypeNameUnbracketed(k);
  }

  lemma KindNamedInverts(k: TokenType)
    ensures KindNamed(TypeName(k)) == Some(k)
  {
  }

  lemma TypeNameUnbracketed(k: TokenType)
    ensures forall i :: 0 <= i < |TypeName(k)| ==> TypeName(k)[i] != ']'
  {
  }

  function TakeSurface(s: string): (Option<string>, string)
  {
    if |s| >= 3 && s[..3] == ", \"" then
      var inner := s[3..];
      var q := IndexOfAny(inner, {'"'});
      if q < |inner| then (Some(inner[..q]), inner[q + 1..]) else (None, s)
    else (None, s)
  }

  function TakeRepeat(s: string): (bool, string)
  {
    if |s| >= 12 && s[..12] == ", Repeatable" then (true, s[12..]) else (false, s)
  }

  function TakeName(s: string): (Option<string>, string)
  {
    if |s| >= 8 && s[..8] == ", Name=\"" then
      var inner := s[8..];
      var q := IndexOfAny(inner, {'"'});
      if q < |inner| then (Some(inner[..q]), inner[q + 1..]) else (None, s)
    else (None, s)
  }

  /** The except kind, Unknown when the part is absent, None when it names no kind. */
  function TakeExcept(s: string): (Option<TokenType>, string)
  {
    if |s| >= 6 && s[..6] == ", Not " then
      var inner := s[6..];
      var q := IndexOfAny(inner, {']'});
      (KindNamed(inner[..q]), inner[q..])
    else (Some(Unknown), s)
  }

  /** Reads a Rule's string back into the fields it shows. */
  function ParseRuleString(s: string): Option<Shown>
  {
    if |s| < 5 || s[..5] != "Rule[" then None
    else
      var body := s[5..];
      var n := IndexOfAny(body, {',', ']'});
      var kind := KindNamed(body[..n]);
      var tail := ParseParts(body[n..]);
      if kind.None? || tail.None? then None
      else Some(Shown(kind.value, tail.value.surface, tail.value.repeat, tail.value.name, tail.value.except))
  }

  /** The fields shown after the kind. */
  function ParseParts(s: string): (r: Option<Shown>)
    ensures r.Some? ==> r.value.wanted == Unknown
  {
    var surface := TakeSurface(s);
    var repeat := TakeRepeat(surface.1);
    var name := TakeName(repeat.1);
    var except := TakeExcept(name.1);
    if except.0.None? || except.1 != "]" then None
    else Some(Shown(Unknown, surface.0, repeat.0, name.0, except.0.value))
  }

  /** A quoted value followed by `rest`: the first quote after the opening one is the
      closing one. */
  lemma QuotedSplit(v: string, rest: string)
    requires QuoteFree(v)
    ensures var inner := v + "\"" + rest;
      IndexOfAny(inner, {'"'}) == |v| && inner[..|v|] == v && inner[|v| + 1..] == rest
  {
    IndexOfAnyAfter(v, "\"" + rest, {'"'});
    assert v + "\"" + rest == v + ("\"" + rest);
  }

  lemma TakeExceptOf(wanted: TokenType, except: TokenType)
    ensures TakeExcept(ExceptPart(wanted, except) + "]")
      == (Some(if wanted == Unknown then except else Unknown), "]")
  {
    if wanted == Unknown && except != Unknown {
      var s := ", Not " + TypeName(except) + "]";
      assert s[..6] == ", Not ";
      assert s[6..] == TypeName(except) + "]";
      KindNamedTypeName(except);
      IndexOfAnyAfter(TypeName(except), "]", {']'});
      assert (TypeName(except) + "]")[..|TypeName(except)|] == TypeName(except);
      assert (TypeName(except) + "]")[|TypeName(except)|..] == "]";
    } else {
      assert ExceptPart(wanted, except) + "]" == "]";
    }
  }

  /** What may follow a part: the closing bracket, or the next part, which opens with
      ", " and a letter that tells the parts apart. */
  predicate NextPart(rest: string, letters: set<char>) {
    rest == "]" || (|rest| >= 3 && rest[..2] == ", " && rest[2] in letters)
  }

  lemma ExceptNext(wanted: TokenType, except: TokenType)
    ensures NextPart(ExceptPart(wanted, except) + "]", {'N'})
    ensures var x := ExceptPart(wanted, except) + "]"; x == "]" || (|x| >= 6 && x[..6] == ", Not ")
  {
    if wanted == Unknown && except != Unknown {
      var x := ", Not " + TypeName(except) + "]";
      assert x[..6] == ", Not ";
      assert x[..2] == ", " && x[2] == 'N';
    }
  }

  lemma NameNext(name: Option<string>, rest: string)
    requires NextPart(rest, {'N'})
    ensures NextPart(NamePart(name) + rest, {'N'})
  {
    if name.Some? {
      var s := ", Name=\"" + name.value + "\"" + rest;
      assert s[..2] == ", ";
    }
  }

  lemma RepeatNext(repeat: bool, rest: string)
    requires NextPart(rest, {'N'})
    ensures NextPart(RepeatPart(repeat) + rest, {'R', 'N'})
  {
    if repeat {
      var s := ", Repeatable" + rest;
      assert s[..2] == ", ";
    }
  }

  lemma TakeNameOf(name: Option<string>, rest: string)
    requires name.Some? ==> QuoteFree(name.value)
    requires rest == "]" || (|rest| >= 6 && rest[..6] == ", Not ")
    ensures TakeName(NamePart(name) + rest) == (name, rest)
  {
    if name.Some? {
      var s := ", Name=\"" + name.value + "\"" + rest;
      assert s[..8] == ", Name=\"";
      assert s[8..] == name.value + "\"" + rest;
      QuotedSplit(name.value, rest);
    } else {
      assert NamePart(name) + rest == rest;
      if |rest| >= 8 {
        assert rest[..8][3] == rest[..6][3] == 'o';
      }
    }
  }

  lemma TakeRepeatOf(repeat: bool, rest: string)
    requires NextPart(rest, {'N'})
    ensures TakeRepeat(RepeatPart(repeat) + rest) == (repeat, rest)
  {
    if repeat {
      var s := ", Repeatable" + rest;
      assert s[..12] == ", Repeatable";
      assert s[12..] == rest;
    } else {
      assert RepeatPart(repeat) + rest == rest;
      if |rest| >= 12 {
        assert rest[..12][2] == rest[2] == 'N';
      }
    }
  }

  lemma TakeSurfaceOf(surface: Option<string>, rest: string)
    requires surface.Some? ==> QuoteFree(surface.value)
    requires NextPart(rest, {'R', 'N'})
    ensures TakeSurface(SurfacePart(surface) + rest) == (surface, rest)
  {
    if surface.Some? {
      var s := ", \"" + surface.value + "\"" + rest;
      assert s[..3] == ", \"";
      assert s[3..] == surface.value + "\"" + rest;
      QuotedSplit(surface.value, rest);
    } else {
      assert SurfacePart(surface) + rest == rest;
      if |rest| >= 3 {
        assert rest[..3][2] == rest[2];
      }
    }
  }

  /** The parts after the kind, each read back by its own reader. */
  lemma PartsTake(r: Rule, x: string, n: string, p: string, tail: string)
    requires Readable(r)
    requires x == ExceptPart(r.wanted, r.except) + "]"
    requires n == NamePart(r.ruleName) + x
    requires p == RepeatPart(r.repeat) + n
    requires tail == SurfacePart(r.wantedSurface) + p
    ensures TakeExcept(x) == (Some(if r.wanted == Unknown then r.except else Unknown), "]")
    ensures TakeName(n) == (r.ruleName, x)
    ensures TakeRepeat(p) == (r.repeat, n)
    ensures TakeSurface(tail) == (r.wantedSurface, p)
    ensures tail == "]" || tail[0] == ','
  {
    TakeExceptOf(r.wanted, r.except);
    ExceptNext(r.wanted, r.except);
    TakeNameOf(r.ruleName, x);
    NameNext(r.ruleName, x);
    TakeRepeatOf(r.repeat, n);
    RepeatNext(r.repeat, n);
    TakeSurfaceOf(r.wantedSurface, p);
    if r.wantedSurface.Some? {
      assert tail[0] == ',';
    }
  }

  /** The parts after the kind read back into the fields they show. */
  lemma PartsRead(r: Rule, x: string, n: string, p: string, tail: string)
    requires Readable(r)
    requires x == ExceptPart(r.wanted, r.except) + "]"
    requires n == NamePart(r.ruleName) + x
    requires p == RepeatPart(r.repeat) + n
    requires tail == SurfacePart(r.wantedSurface) + p
    ensures ParseParts(tail) == Some(ShownOf(r).(wanted := Unknown))
  {
    PartsTake(r, x, n, p, tail);
  }

  /** A string made of "Rule[", a kind's name and parts reads back as that kind and
      whatever the parts read back as. */
  lemma ParseRuleStringOf(name: string, tail: string)
    requires KindNamed(name).Some?
    requires forall i :: 0 <= i < |name| ==> name[i] != ',' && name[i] != ']'
    requires tail == "]" || (|tail| > 0 && tail[0] == ',')
    requires ParseParts(tail).Some?
    ensures ParseRuleString("Rule[" + (name + tail)) == Some(ParseParts(tail).value.(wanted := KindNamed(name).value))
  {
    SplitAt("Rule[", name + tail);
    IndexOfAnyAfter(name, tail, {',', ']'});
    SplitAt(name, tail);
  }

  lemma SplitAt(a: string, b: string)
    ensures (a + b)[..|a|] == a && (a + b)[|a|..] == b
  {
  }

  /** Reading a Rule's string gives back every field it shows. */
  lemma ParseRuleStringRoundTrip(r: Rule)
    requires Readable(r)
    ensures ParseRuleString(RuleString(r)) == Some(ShownOf(r))
  {
    var x := ExceptPart(r.wanted, r.except) + "]";
    var n := NamePart(r.ruleName) + x;
    var p := RepeatPart(r.repeat) + n;
    var tail := SurfacePart(r.wantedSurface) + p;
    PartsRead(r, x, n, p, tail);
    PartsTake(r, x, n, p, tail);
    assert RuleString(r) == "Rule[" + (TypeName(r.wanted) + tail);
    KindNamedTypeName(r.wanted);
    ParseRuleStringOf(TypeName(r.wanted), tail);
  }

  /** Two readable Rules with the same string agree on every field it shows. */
  lemma RuleStringInjective(a: Rule, b: Rule)
    requires Readable(a) && Readable(b)
    requires RuleString(a) == RuleString(b)
    ensures ShownOf(a) == ShownOf(b)
  {
    ParseRuleStringRoundTrip(a);
    ParseRuleStringRoundTrip(b);
  }
}
