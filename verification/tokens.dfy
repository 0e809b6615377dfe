/**
  The lexer's value types: the TokenType enumeration and the immutable Token record
  with its value equality, hash code and textual rendering.
 */
module Tokens {

  import opened Outcomes
  import opened Chars

  /** The token kinds, in declaration order (the order fixes the enum's integer values). */
  datatype TokenType =
    | Unknown
    | Word
    | Punctuation
    | Newline
    | Indent
    | Dedent
    | QuotesStart
    | QuotesEnd
    | StringLiteral
    | StringVariableStart
    | StringVariableEnd
    | Comment
    | Inform6

  /** Enum.ToString: the member's name. */
  function TypeName(k: TokenType): (r: string)
    ensures |r| > 0
    ensures forall i :: 0 <= i < |r| ==> r[i] != ',' && r[i] != '"'
  {
    match k
    case Unknown => "Unknown"
    case Word => "Word"
    case Punctuation => "Punctuation"
    case Newline => "Newline"
    case Indent => "Indent"
    case Dedent => "Dedent"
    case QuotesStart => "QuotesStart"
    case QuotesEnd => "QuotesEnd"
    case StringLiteral => "StringLiteral"
    case StringVariableStart => "StringVariableStart"
    case StringVariableEnd => "StringVariableEnd"
    case Comment => "Comment"
    case Inform6 => "Inform6"
  }

  /** The enum's underlying integer, which is also its hash code. */
  function Ordinal(k: TokenType): (r: int)
    ensures 0 <= r < 13
  {
    match k
    case Unknown => 0
    case Word => 1
    case Punctuation => 2
    case Newline => 3
    case Indent => 4
    case Dedent => 5
    case QuotesStart => 6
    case QuotesEnd => 7
    case StringLiteral => 8
    case StringVariableStart => 9
    case StringVariableEnd => 10
    case Comment => 11
    case Inform6 => 12
  }

  /** Distinct kinds have distinct underlying integers. */
  lemma OrdinalInjective(a: TokenType, b: TokenType)
    requires Ordinal(a) == Ordinal(b)
    ensures a == b
  {
  }

  lemma TypeNameInjective(a: TokenType, b: TokenType)
    requires TypeName(a) == TypeName(b)
    ensures a == b
  {
  }

  // ---------------------------------------------------------------------------
  // 32-bit arithmetic of the hash fold (C# arithmetic is unchecked by default).

  const TwoTo32: int := 0x1_0000_0000
  const TwoTo31: int := 0x8000_0000

  predicate IsInt32(x: int) {
    -TwoTo31 <= x < TwoTo31
  }

  /** Reduces `x` to the Int32 that two's-complement wrap-around yields. */
  function Wrap32(x: int): (r: int)
    ensures IsInt32(r)
    ensures (x - r) % TwoTo32 == 0
  {
    (x + TwoTo31) % TwoTo32 - TwoTo31
  }

  lemma WrapFoldStep(h: int, p: int, x: int)
    requires (h - p) % TwoTo32 == 0
    ensures (Wrap32(h * 31 + x) - (p * 31 + x)) % TwoTo32 == 0
  {
    var k := (h - p) / TwoTo32;
    assert h == p + k * TwoTo32;
    var y := h * 31 + x;
    var j := (y - Wrap32(y)) / TwoTo32;
    assert Wrap32(y) == y - j * TwoTo32;
    assert y == p * 31 + x + (k * 31) * TwoTo32;
    assert Wrap32(y) - (p * 31 + x) == (k * 31 - j) * TwoTo32;
  }

  /** What `Equals(object)` may be handed: null, a Token, or an object of another class. */
  datatype Value = NullRef | TokenRef(token: Token) | OtherRef

  datatype Token = Token(surface: string, line: int, column: int, kind: TokenType) {

    /** IEquatable<Token>.Equals: false for null, else field-by-field comparison. */
    predicate Equals(other: Option<Token>)
      ensures Equals(other) <==> other == Some(this)
    {
      && other.Some?
      && other.value.surface == surface
      && other.value.line == line
      && other.value.column == column
      && other.value.kind == kind
    }

    /** Equals(object): the `as Token` cast turns anything but a Token into null. */
    predicate EqualsObject(other: Value)
      ensures EqualsObject(other) <==> other == TokenRef(this)
    {
      Equals(if other.TokenRef? then Some(other.token) else None)
    }

    /** GetHashCode: the fold 23, then `hash * 31 + field` over the surface's hash,
        the line, the column and the kind's integer, each step wrapped to 32 bits.
        String hashing is runtime-defined, so the surface's hash is a parameter. */
    function HashCode(surfaceHash: int): (h: int)
      requires IsInt32(surfaceHash)
      ensures IsInt32(h)
      ensures (h - (((23 * 31 + surfaceHash) * 31 + Wrap32(line)) * 31 + Wrap32(column)) * 31 - Ordinal(kind)) % TwoTo32 == 0
    {
      var h0 := 23;
      var h1 := Wrap32(h0 * 31 + surfaceHash);
      var h2 := Wrap32(h1 * 31 + Wrap32(line));
      var h3 := Wrap32(h2 * 31 + Wrap32(column));
      var h4 := Wrap32(h3 * 31 + Ordinal(kind));
      WrapFoldStep(h0, 23, surfaceHash);
      WrapFoldStep(h1, 23 * 31 + surfaceHash, Wrap32(line));
      WrapFoldStep(h2, (23 * 31 + surfaceHash) * 31 + Wrap32(line), Wrap32(column));
      WrapFoldStep(h3, ((23 * 31 + surfaceHash) * 31 + Wrap32(line)) * 31 + Wrap32(column), Ordinal(kind));
      h4
    }

    /** ToString: `Token[<Type>, Line=<l>, Column=<c>, Surface="<s>"]`. */
    function ToString(): (s: string)
      ensures |s| > 6 && s[..6] == "Token[" && s[|s| - 2..] == "\"]"
    {
      "Token[" + (TypeName(kind) + (", Line=" + (IntToString(line) + (", Column=" + (IntToString(column)
        + (", Surface=\"" + (surface + "\"]")))))))
    }
  }

  lemma EqualsReflexive(t: Token)
    ensures t.Equals(Some(t))
  {
  }

  lemma EqualsSymmetric(a: Token, b: Token)
    ensures a.Equals(Some(b)) <==> b.Equals(Some(a))
  {
  }

  /** Equal tokens hash equally, whatever hash the runtime gives their common surface. */
  lemma HashAgreesWithEquals(a: Token, b: Token, surfaceHash: int)
    requires IsInt32(surfaceHash)
    requires a.Equals(Some(b))
    ensures a.HashCode(surfaceHash) == b.HashCode(surfaceHash)
  {
  }

  // ---------------------------------------------------------------------------
  // The rendering determines the token.

  lemma StripPrefix(p: string, u: string, v: string)
    requires p + u == p + v
    ensures u == v
  {
    assert u == (p + u)[|p|..];
    assert v == (p + v)[|p|..];
  }

  /** Two concatenations whose comma-free heads are each followed by a comma split alike. */
  lemma SplitAtComma(x1: string, r1: string, x2: string, r2: string)
    requires x1 + r1 == x2 + r2
    requires forall i :: 0 <= i < |x1| ==> x1[i] != ','
    requires forall i :: 0 <= i < |x2| ==> x2[i] != ','
    requires |r1| > 0 && r1[0] == ','
    requires |r2| > 0 && r2[0] == ','
    ensures x1 == x2 && r1 == r2
  {
    FirstCommaAfter(x1, r1);
    FirstCommaAfter(x2, r2);
    assert x1 == (x1 + r1)[..|x1|];
    assert x2 == (x2 + r2)[..|x2|];
    StripPrefix(x1, r1, r2);
  }

  /** Index of the first comma of `s`, or |s| when there is none. */
  function FirstComma(s: string): (n: nat)
    ensures n <= |s|
  {
    if |s| == 0 || s[0] == ',' then 0 else 1 + FirstComma(s[1..])
  }

  lemma {:induction false} FirstCommaAfter(x: string, r: string)
    requires forall i :: 0 <= i < |x| ==> x[i] != ','
    requires |r| > 0 && r[0] == ','
    ensures FirstComma(x + r) == |x|
  {
    if |x| > 0 {
      assert (x + r)[1..] == x[1..] + r;
      FirstCommaAfter(x[1..], r);
    }
  }

  lemma NumberHasNoComma(i: int)
    ensures forall k :: 0 <= k < |IntToString(i)| ==> IntToString(i)[k] != ','
  {
    var r := IntToString(i);
    if i < 0 {
      assert forall k :: 1 <= k < |r| ==> r[k] == NatToString(-i)[k - 1];
    }
  }

  /** Distinct tokens render distinctly: ToString loses no field. */
  lemma ToStringInjective(a: Token, b: Token)
    requires a.ToString() == b.ToString()
    ensures a == b
  {
    var tailA := ", Line=" + (IntToString(a.line) + (", Column=" + (IntToString(a.column)
      + (", Surface=\"" + (a.surface + "\"]")))));
    var tailB := ", Line=" + (IntToString(b.line) + (", Column=" + (IntToString(b.column)
      + (", Surface=\"" + (b.surface + "\"]")))));
    StripPrefix("Token[", TypeName(a.kind) + tailA, TypeName(b.kind) + tailB);
    SplitAtComma(TypeName(a.kind), tailA, TypeName(b.kind), tailB);
    TypeNameInjective(a.kind, b.kind);

    var colA := ", Column=" + (IntToString(a.column) + (", Surface=\"" + (a.surface + "\"]")));
    var colB := ", Column=" + (IntToString(b.column) + (", Surface=\"" + (b.surface + "\"]")));
    StripPrefix(", Line=", IntToString(a.line) + colA, IntToString(b.line) + colB);
    NumberHasNoComma(a.line);
    NumberHasNoComma(b.line);
    SplitAtComma(IntToString(a.line), colA, IntToString(b.line), colB);
    IntToStringInjective(a.line, b.line);

    var surA := ", Surface=\"" + (a.surface + "\"]");
    var surB := ", Surface=\"" + (b.surface + "\"]");
    StripPrefix(", Column=", IntToString(a.column) + surA, IntToString(b.column) + surB);
    NumberHasNoComma(a.column);
    NumberHasNoComma(b.column);
    SplitAtComma(IntToString(a.column), surA, IntToString(b.column), surB);
    IntToStringInjective(a.column, b.column);

    StripPrefix(", Surface=\"", a.surface + "\"]", b.surface + "\"]");
    assert a.surface == (a.surface + "\"]")[..|a.surface|];
    assert b.surface == (b.surface + "\"]")[..|b.surface|];
  }
}
