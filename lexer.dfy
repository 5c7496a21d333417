/**
 * The tokenizer of `SpdxLicense::isValidLicenseString`: the `$next` closure,
 * which tries a fixed, ordered table of patterns at the current offset and
 * takes the first one whose match starts exactly there.
 */
module SpdxLicenseLexer {
  import opened Common

  /** The token names of the pattern table. */
  datatype Kind =
    | Po    // `\(`
    | Pc    // `\)`
    | Op    // `(?:or|OR|and|AND)`
    | Wi    // `(?:with|WITH)`
    | Lix   // `(?:NONE|NOASSERTION)`
    | Lir   // `LicenseRef-\d+`
    | Lic   // `[-_.a-zA-Z0-9]{3,}\+?`
    | Ws    // `\s+`
    | Any   // `.`

  /** The order in which the patterns are tried. */
  const Order: seq<Kind> := [Po, Pc, Op, Wi, Lix, Lir, Lic, Ws, Any]

  /** Position of a token name in `Order`. */
  function Rank(k: Kind): (r: nat)
    ensures r < |Order| && Order[r] == k
  {
    match k
    case Po => 0
    case Pc => 1
    case Op => 2
    case Wi => 3
    case Lix => 4
    case Lir => 5
    case Lic => 6
    case Ws => 7
    case Any => 8
  }

  datatype Token = Token(kind: Kind, text: string)

  /** The character class of the `lic` pattern. */
  predicate IsLicChar(c: char) {
    c == '-' || c == '_' || c == '.' || IsAsciiLetter(c) || IsDigit(c)
  }

  datatype CharClass = LicChars | Digits | Spaces

  predicate InClass(cc: CharClass, c: char) {
    match cc
    case LicChars => IsLicChar(c)
    case Digits => IsDigit(c)
    case Spaces => IsSpace(c)
  }

  /** Length of the longest run of `cc` characters from `i` on: what a greedy repetition takes. */
  function RunLength(s: string, i: nat, cc: CharClass): (n: nat)
    requires i <= |s|
    ensures i + n <= |s|
    ensures forall k :: i <= k < i + n ==> InClass(cc, s[k])
    ensures i + n == |s| || !InClass(cc, s[i + n])
    decreases |s| - i
  {
    if i < |s| && InClass(cc, s[i]) then 1 + RunLength(s, i + 1, cc) else 0
  }

  /** `s` holds `word` at offset `o`. */
  predicate LiteralAt(s: string, o: nat, word: string) {
    o + |word| <= |s| && s[o..o + |word|] == word
  }

  /** Length of the match of pattern `k` that starts exactly at offset `o`, if there is one. */
  function MatchAt(k: Kind, s: string, o: nat): (m: Option<nat>)
    requires o < |s|
    ensures m.Some? ==> 0 < m.value && o + m.value <= |s|
  {
    match k
    case Po => if s[o] == '(' then Some(1) else None
    case Pc => if s[o] == ')' then Some(1) else None
    case Op =>
      if LiteralAt(s, o, "or") || LiteralAt(s, o, "OR") then Some(2)
      else if LiteralAt(s, o, "and") || LiteralAt(s, o, "AND") then Some(3)
      else None
    case Wi => if LiteralAt(s, o, "with") || LiteralAt(s, o, "WITH") then Some(4) else None
    case Lix =>
      if LiteralAt(s, o, "NONE") then Some(4)
      else if LiteralAt(s, o, "NOASSERTION") then Some(11)
      else None
    case Lir =>
      if LiteralAt(s, o, "LicenseRef-") && RunLength(s, o + 11, Digits) > 0
      then Some(11 + RunLength(s, o + 11, Digits))
      else None
    case Lic =>
      var n := RunLength(s, o, LicChars);
      if n < 3 then None
      else if o + n < |s| && s[o + n] == '+' then Some(n + 1)
      else Some(n)
    case Ws =>
      var n := RunLength(s, o, Spaces);
      if n == 0 then None else Some(n)
    case Any => if s[o] != '\n' then Some(1) else None
  }

  /** The catch-all `.` or, on a line feed, `\s+` always matches: some pattern matches at every offset. */
  lemma SpaceOrAnyMatches(s: string, o: nat)
    requires o < |s|
    ensures MatchAt(Ws, s, o).Some? || MatchAt(Any, s, o).Some?
    ensures MatchAt(Order[7], s, o).Some? || MatchAt(Order[8], s, o).Some?
  {
    assert Order[7] == Ws && Order[8] == Any;
  }

  /**
   * The tokens the closure produces from offset `o` until it returns null:
   * nothing at the end of the input, otherwise the walk over the pattern table.
   */
  function TokensFrom(s: string, o: nat): seq<Token>
    requires o <= |s|
    decreases |s| - o, 1, 0
  {
    if o == |s| then [] else Scan(s, o, 0)
  }

  /**
   * The `foreach` over the pattern table from position `i`, at an offset
   * inside the input: the first pattern that matches exactly at `o` gives
   * the token, and the later calls go on after its text. Running off the end
   * of the table (the second RuntimeException) gives nothing; it never
   * happens, by `SpaceOrAnyMatches`.
   */
  function Scan(s: string, o: nat, i: nat): seq<Token>
    requires o < |s| && i <= |Order|
    decreases |s| - o, 0, |Order| - i
  {
    if i == |Order| then []
    else
      match MatchAt(Order[i], s, o)
      case Some(n) => [Token(Order[i], s[o..o + n])] + TokensFrom(s, o + n)
      case None => Scan(s, o, i + 1)
  }

  function Tokens(s: string): seq<Token> {
    TokensFrom(s, 0)
  }

  /** The walk from position `i` yields nothing exactly when no pattern from `i` on matches at `o`. */
  lemma {:induction false} ScanEmpty(s: string, o: nat, i: nat)
    requires o < |s| && i <= |Order|
    ensures Scan(s, o, i) == [] <==> forall j :: i <= j < |Order| ==> MatchAt(Order[j], s, o).None?
    decreases |Order| - i
  {
    if i < |Order| && MatchAt(Order[i], s, o).None? {
      ScanEmpty(s, o, i + 1);
    }
  }

  /**
   * A token of the walk from position `i` is the match of a pattern from `i`
   * on, and the tokens after it are those from the end of its text.
   */
  lemma {:induction false} ScanFirst(s: string, o: nat, i: nat)
    requires o < |s| && i <= |Order| && Scan(s, o, i) != []
    ensures var t := Scan(s, o, i)[0];
      && i <= Rank(t.kind)
      && MatchAt(t.kind, s, o) == Some(|t.text|)
      && t.text == s[o..o + |t.text|]
      && Scan(s, o, i)[1..] == TokensFrom(s, o + |t.text|)
    decreases |Order| - i
  {
    assert Rank(Order[i]) == i;
    if MatchAt(Order[i], s, o).None? {
      ScanFirst(s, o, i + 1);
    }
  }

  /** Every pattern tried before the one that gives the token fails at `o`. */
  lemma {:induction false} ScanSkipped(s: string, o: nat, i: nat)
    requires o < |s| && i <= |Order| && Scan(s, o, i) != []
    ensures forall j :: i <= j < Rank(Scan(s, o, i)[0].kind) ==> MatchAt(Order[j], s, o).None?
    decreases |Order| - i
  {
    assert Rank(Order[i]) == i;
    if MatchAt(Order[i], s, o).None? {
      ScanSkipped(s, o, i + 1);
    }
  }

  /** Some pattern matches at every offset inside the input, so the walk from the start of the table yields a token. */
  lemma ScanYields(s: string, o: nat)
    requires o < |s|
    ensures Scan(s, o, 0) != []
  {
    ScanEmpty(s, o, 0);
    SpaceOrAnyMatches(s, o);
  }

  /**
   * One call of `$next`: nothing at the end of the input; otherwise the
   * first of the tokens from `o`.
   */
  function NextToken(s: string, o: nat): (t: Option<Token>)
    requires o <= |s|
    ensures t.None? <==> o == |s|
    ensures t.Some? ==>
      && 0 < |t.value.text|
      && o + |t.value.text| <= |s|
      && t.value.text == s[o..o + |t.value.text|]
  {
    if o == |s| then None
    else
      ScanYields(s, o);
      ScanFirst(s, o, 0);
      Some(Scan(s, o, 0)[0])
  }

  /**
   * The token `$next` returns is the match of the first pattern in the table
   * that matches exactly at `o`: every pattern before it fails there.
   */
  lemma NextTokenMatches(s: string, o: nat)
    requires o < |s|
    ensures var t := NextToken(s, o).value;
      && MatchAt(t.kind, s, o) == Some(|t.text|)
      && forall k :: Rank(k) < Rank(t.kind) ==> MatchAt(k, s, o).None?
  {
    ScanYields(s, o);
    ScanFirst(s, o, 0);
    ScanSkipped(s, o, 0);
    forall k | Rank(k) < Rank(NextToken(s, o).value.kind) ensures MatchAt(k, s, o).None? {
      assert Order[Rank(k)] == k;
    }
  }

  /** The tokens from `o` are the token `$next` returns, then the tokens from the end of its text. */
  lemma TokensFromNext(s: string, o: nat)
    requires o <= |s|
    ensures NextToken(s, o).None? ==> TokensFrom(s, o) == []
    ensures NextToken(s, o).Some? ==>
      TokensFrom(s, o) == [NextToken(s, o).value] + TokensFrom(s, o + |NextToken(s, o).value.text|)
  {
    if o < |s| {
      ScanYields(s, o);
      ScanFirst(s, o, 0);
      var ts := Scan(s, o, 0);
      assert ts == [ts[0]] + ts[1..];
    }
  }

  /** When every pattern from `j` up to `i` fails and the one at `i` matches, that one gives the token. */
  lemma {:induction false} ScanAt(s: string, o: nat, j: nat, i: nat)
    requires o < |s| && j <= i < |Order|
    requires forall r :: j <= r < i ==> MatchAt(Order[r], s, o).None?
    requires MatchAt(Order[i], s, o).Some?
    ensures Scan(s, o, j) != [] && Scan(s, o, j)[0] == Token(Order[i], s[o..o + MatchAt(Order[i], s, o).value])
    decreases i - j
  {
    if j < i {
      ScanAt(s, o, j + 1, i);
    }
  }

  /** The texts of `ts`, concatenated. */
  function Texts(ts: seq<Token>): string {
    if ts == [] then "" else ts[0].text + Texts(ts[1..])
  }

  /**
   * The offset only moves forward, by the length of each match, so the
   * tokens spell out the input exactly and there are at most |s| of them.
   */
  lemma {:induction false} TokensCoverInput(s: string, o: nat)
    requires o <= |s|
    ensures Texts(TokensFrom(s, o)) == s[o..]
    ensures |TokensFrom(s, o)| <= |s| - o
    ensures forall k :: 0 <= k < |TokensFrom(s, o)| ==> |TokensFrom(s, o)[k].text| > 0
    decreases |s| - o
  {
    TokensFromNext(s, o);
    match NextToken(s, o)
    case None =>
    case Some(t) =>
      var o' := o + |t.text|;
      TokensCoverInput(s, o');
      var ts := TokensFrom(s, o);
      assert ts[1..] == TokensFrom(s, o');
      assert s[o..] == t.text + s[o'..];
  }

  predicate NoParen(w: string) {
    forall k :: 0 <= k < |w| ==> w[k] != '(' && w[k] != ')'
  }

  /** The text a pattern other than `\(`, `\)` and `.` matches holds no parenthesis. */
  lemma {:induction false} MatchHasNoParen(k: Kind, s: string, o: nat)
    requires o < |s| && k != Po && k != Pc && k != Any
    requires MatchAt(k, s, o).Some?
    ensures NoParen(s[o..o + MatchAt(k, s, o).value])
  {
    var n := MatchAt(k, s, o).value;
    var w := s[o..o + n];
    match k {
      case Op => assert w in {"or", "OR", "and", "AND"};
      case Wi => assert w in {"with", "WITH"};
      case Lix => assert w in {"NONE", "NOASSERTION"};
      case Lir => LicenseRefHasNoParen(s, o);
      case Lic => LicHasNoParen(s, o);
      case Ws =>
        forall j | 0 <= j < n ensures w[j] != '(' && w[j] != ')' {
          assert w[j] == s[o + j] && IsSpace(s[o + j]);
        }
    }
  }

  lemma LicenseRefHasNoParen(s: string, o: nat)
    requires o < |s| && MatchAt(Lir, s, o).Some?
    ensures NoParen(s[o..o + MatchAt(Lir, s, o).value])
  {
    var n := MatchAt(Lir, s, o).value;
    var w := s[o..o + n];
    assert w[..11] == "LicenseRef-";
    forall j | 0 <= j < n ensures w[j] != '(' && w[j] != ')' {
      if j < 11 {
        assert w[j] == "LicenseRef-"[j];
      } else {
        assert w[j] == s[o + j] && IsDigit(s[o + j]);
      }
    }
  }

  lemma LicHasNoParen(s: string, o: nat)
    requires o < |s| && MatchAt(Lic, s, o).Some?
    ensures NoParen(s[o..o + MatchAt(Lic, s, o).value])
  {
    var n := MatchAt(Lic, s, o).value;
    var run := RunLength(s, o, LicChars);
    var w := s[o..o + n];
    forall j | 0 <= j < n ensures w[j] != '(' && w[j] != ')' {
      assert w[j] == s[o + j];
      if j < run {
        assert InClass(LicChars, s[o + j]);
      } else {
        assert s[o + j] == '+';
      }
    }
  }

  /** `(` and `)` are tokens of their own: no other token contains a parenthesis. */
  lemma TokenParens(s: string, o: nat)
    requires o < |s|
    ensures var t := NextToken(s, o).value;
      && CountChar(t.text, '(') == (if t.kind == Po then 1 else 0)
      && CountChar(t.text, ')') == (if t.kind == Pc then 1 else 0)
  {
    var t := NextToken(s, o).value;
    NextTokenMatches(s, o);
    if t.kind == Po {
      assert t.text == "(";
    } else if t.kind == Pc {
      assert t.text == ")";
    } else {
      if t.kind == Any {
        assert Rank(Po) < Rank(Any) && Rank(Pc) < Rank(Any);
        assert t.text == [s[o]];
      } else {
        MatchHasNoParen(t.kind, s, o);
      }
      assert NoParen(t.text);
      CountCharAbsent(t.text, '(');
      CountCharAbsent(t.text, ')');
    }
  }

  /**
   * The Lexer holds the closure's captured input and its `static $offset`
   * (a fresh lexer starts at offset 0, as a fresh call of the method does).
   */
  class Lexer {
    const input: string
    var offset: nat

    constructor (input: string)
      ensures this.input == input && offset == 0
    {
      this.input := input;
      offset := 0;
    }

    /** `$next()`: returns the next token and advances the offset past it. */
    method Next() returns (t: Option<Token>)
      requires offset <= |input|
      modifies this
      ensures t == NextToken(input, old(offset))
      ensures offset == old(offset) + (if t.Some? then |t.value.text| else 0)
    {
      if offset >= |input| {
        return None;
      }
      var i := 0;
      while i < |Order|
        invariant 0 <= i <= |Order|
        invariant offset == old(offset) < |input|
        invariant forall r :: 0 <= r < i ==> MatchAt(Order[r], input, offset).None?
      {
        var name := Order[i];
        var m := MatchAt(name, input, offset);
        if m.Some? {
          t := Some(Token(name, input[offset..offset + m.value]));
          ScanAt(input, offset, 0, i);
          offset := offset + m.value;
          return;
        }
        i := i + 1;
      }
      // "At least the last pattern needs to match": unreachable.
      SpaceOrAnyMatches(input, offset);
      assert false;
    }
  }
}
