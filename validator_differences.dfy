/**
 * Strings on which `SpdxLicense::isValidLicenseString` and the grammar of
 * `SpdxLicenses::isValidLicenseString` disagree, lexed token by token: the
 * `wi` case sets `$with` whatever came before, and an exception id
 * satisfies the operand check even where no license precedes it.
 */
module SpdxLicenseDifferences {
  import opened Common
  import opened Store
  import opened SpdxLicenseLexer
  import opened SpdxLicense
  import Grammar = SpdxLicenses
  import SpdxLicensesParser
  import SpdxLicensesLaws

  // The lexing lemmas below each read one token at an offset from a few
  // character facts; the literal facts are kept in lemmas of their own so
  // that no proof holds a whole string's characters and its tokens at once.

  /** `$next` returns the match of `k` when every pattern before `k` fails at `o`. */
  lemma NextIs(s: string, o: nat, k: Kind, n: nat)
    requires o < |s| && forall r :: 0 <= r < Rank(k) ==> MatchAt(Order[r], s, o).None?
    requires MatchAt(k, s, o) == Some(n)
    ensures o + n <= |s|
    ensures TokensFrom(s, o) == [Token(k, s[o..o + n])] + TokensFrom(s, o + n)
  {
    ScanAt(s, o, 0, Rank(k));
    TokensFromNext(s, o);
  }

  /** A keyword pattern fails where the input differs from it in the first two characters. */
  lemma NoLiteral(s: string, o: nat, w: string)
    requires |w| >= 2 && o + 1 < |s| && (s[o] != w[0] || s[o + 1] != w[1])
    ensures !LiteralAt(s, o, w)
  {
  }

  lemma WithAt(s: string, o: nat)
    requires o + 4 <= |s| && s[o..o + 4] == "WITH"
    ensures TokensFrom(s, o) == [Token(Wi, "WITH")] + TokensFrom(s, o + 4)
  {
    assert s[o] == s[o..o + 4][0] == 'W' && s[o + 1] == s[o..o + 4][1] == 'I';
    NoLiteral(s, o, "or");
    NoLiteral(s, o, "OR");
    NoLiteral(s, o, "and");
    NoLiteral(s, o, "AND");
    assert Order[0] == Po && Order[1] == Pc && Order[2] == Op;
    NextIs(s, o, Wi, 4);
  }

  lemma NoneAt(s: string, o: nat)
    requires o + 4 <= |s| && s[o..o + 4] == "NONE"
    ensures TokensFrom(s, o) == [Token(Lix, "NONE")] + TokensFrom(s, o + 4)
  {
    assert s[o] == s[o..o + 4][0] == 'N' && s[o + 1] == s[o..o + 4][1] == 'O';
    NoLiteral(s, o, "or");
    NoLiteral(s, o, "OR");
    NoLiteral(s, o, "and");
    NoLiteral(s, o, "AND");
    NoLiteral(s, o, "with");
    NoLiteral(s, o, "WITH");
    assert Order[0] == Po && Order[1] == Pc && Order[2] == Op && Order[3] == Wi;
    NextIs(s, o, Lix, 4);
  }

  lemma SpaceAt(s: string, o: nat)
    requires o + 1 < |s| && s[o] == ' ' && !IsSpace(s[o + 1])
    ensures TokensFrom(s, o) == [Token(Ws, " ")] + TokensFrom(s, o + 1)
  {
    assert s[o..o + 1] == " ";
    assert RunLength(s, o, Spaces) == 1 && RunLength(s, o, LicChars) == 0;
    assert Order[0] == Po && Order[1] == Pc && Order[2] == Op && Order[3] == Wi && Order[4] == Lix && Order[5] == Lir && Order[6] == Lic;
    NextIs(s, o, Ws, 1);
  }

  lemma RefAt(s: string, o: nat)
    requires o + 12 < |s| && s[o..o + 11] == "LicenseRef-" && IsDigit(s[o + 11]) && !IsDigit(s[o + 12])
    ensures TokensFrom(s, o) == [Token(Lir, s[o..o + 12])] + TokensFrom(s, o + 12)
  {
    assert s[o] == s[o..o + 11][0] == 'L' && s[o + 1] == s[o..o + 11][1] == 'i';
    KeywordsFailAtL(s, o);
    assert RunLength(s, o + 11, Digits) == 1;
    NextIs(s, o, Lir, 12);
  }

  /** No pattern before `LicenseRef-\d+` matches where the input reads `Li`. */
  lemma KeywordsFailAtL(s: string, o: nat)
    requires o + 1 < |s| && s[o] == 'L' && s[o + 1] == 'i'
    ensures forall r :: 0 <= r < Rank(Lir) ==> MatchAt(Order[r], s, o).None?
  {
    NoLiteral(s, o, "or");
    NoLiteral(s, o, "OR");
    NoLiteral(s, o, "and");
    NoLiteral(s, o, "AND");
    NoLiteral(s, o, "with");
    NoLiteral(s, o, "WITH");
    NoLiteral(s, o, "NONE");
    NoLiteral(s, o, "NOASSERTION");
    assert Order[0] == Po && Order[1] == Pc && Order[2] == Op && Order[3] == Wi && Order[4] == Lix;
  }

  lemma LicRunToEnd(s: string, o: nat)
    requires o < |s| && forall k :: o <= k < |s| ==> IsLicChar(s[k])
    ensures RunLength(s, o, LicChars) == |s| - o
    decreases |s| - o
  {
    if o + 1 < |s| {
      LicRunToEnd(s, o + 1);
    }
  }

  /**
   * A run of `lic` characters to the end of the input is one `lic` token,
   * when it starts with `Au`, where no keyword pattern matches.
   */
  lemma LastLicAt(s: string, o: nat)
    requires o + 3 <= |s| && forall k :: o <= k < |s| ==> IsLicChar(s[k])
    requires s[o] == 'A' && s[o + 1] == 'u'
    ensures TokensFrom(s, o) == [Token(Lic, s[o..])]
  {
    LicRunToEnd(s, o);
    NoLiteral(s, o, "or");
    NoLiteral(s, o, "OR");
    NoLiteral(s, o, "and");
    NoLiteral(s, o, "AND");
    NoLiteral(s, o, "with");
    NoLiteral(s, o, "WITH");
    NoLiteral(s, o, "NONE");
    NoLiteral(s, o, "NOASSERTION");
    NoLiteral(s, o, "LicenseRef-");
    assert Order[0] == Po && Order[1] == Pc && Order[2] == Op && Order[3] == Wi && Order[4] == Lix && Order[5] == Lir;
    NextIs(s, o, Lic, |s| - o);
    assert s[o..o + (|s| - o)] == s[o..];
    TokensFromNext(s, |s|);
  }

  /** The characters of the exception id used below. */
  lemma ExceptionChars(e: string)
    requires e == "Autoconf-exception-2.0"
    ensures |e| == 22 && e[0] == 'A' && e[1] == 'u'
    ensures forall k :: 0 <= k < |e| ==> IsLicChar(e[k])
  {
  }

  lemma ExceptionShape(s: string, o: nat)
    requires o <= |s| && s[o..] == "Autoconf-exception-2.0"
    ensures |s| == o + 22 && s[o] == 'A' && s[o + 1] == 'u'
    ensures forall k :: o <= k < |s| ==> IsLicChar(s[k])
  {
    ExceptionChars(s[o..]);
    assert forall k :: o <= k < |s| ==> s[k] == s[o..][k - o];
  }

  /**
   * `WITH` or `NONE` as the first of several words leaves the grammar no
   * simple expression to start from, when the license alternation does not
   * match the keyword itself.
   */
  lemma KeywordFirstRejected(store: IdentifierStore, w: string, t: string)
    requires w == "WITH" || w == "NONE"
    requires SpdxLicensesParser.Sane(Grammar.Alternation(LicenseIds(store)), Grammar.Alternation(ExceptionIds(store)))
    requires w !in Grammar.Alternation(LicenseIds(store)) && t != [] && IsSpace(t[0])
    ensures !Grammar.IsValidLicenseString(store, w + t)
  {
    SpdxLicensesLaws.UnknownFirstWord(Grammar.Alternation(LicenseIds(store)), Grammar.Alternation(ExceptionIds(store)), w, t);
  }

  // Three strings, each written as the tokens it is made of.

  lemma BareShape(s: string)
    requires s == "WITH" + " " + "Autoconf-exception-2.0"
    ensures s[0..4] == "WITH" && s[4] == ' ' && !IsSpace(s[5]) && s[5..] == "Autoconf-exception-2.0"
  {
    assert s[5] == "Autoconf-exception-2.0"[0];
  }

  lemma BareLexed(s: string)
    requires s == "WITH" + " " + "Autoconf-exception-2.0"
    ensures Tokens(s) == [Token(Wi, "WITH"), Token(Ws, " "), Token(Lic, "Autoconf-exception-2.0")]
  {
    BareShape(s);
    ExceptionShape(s, 5);
    WithAt(s, 0);
    SpaceAt(s, 4);
    LastLicAt(s, 5);
  }

  lemma BareVerdict(store: IdentifierStore)
    requires IsValidExceptionIdentifier(store, "Autoconf-exception-2.0")
    ensures Verdict(store, Initial, [Token(Wi, "WITH"), Token(Ws, " "), Token(Lic, "Autoconf-exception-2.0")])
  {
  }

  /**
   * `WITH` followed by an exception is valid for the state machine, with no
   * license before it; the grammar wants a simple expression first.
   */
  lemma BareExceptionAccepted(store: IdentifierStore, s: string)
    requires s == "WITH" + " " + "Autoconf-exception-2.0" && IsValidExceptionIdentifier(store, "Autoconf-exception-2.0")
    requires SpdxLicensesParser.Sane(Grammar.Alternation(LicenseIds(store)), Grammar.Alternation(ExceptionIds(store))) && "WITH" !in Grammar.Alternation(LicenseIds(store))
    ensures Accepts(store, s)
    ensures !Grammar.IsValidLicenseString(store, s)
  {
    BareLexed(s);
    BareVerdict(store);
    var t := " " + "Autoconf-exception-2.0";
    assert s == "WITH" + t && t[0] == ' ';
    KeywordFirstRejected(store, "WITH", t);
  }

  lemma NoneShape(s: string)
    requires s == "NONE" + " " + "WITH" + " " + "Autoconf-exception-2.0"
    ensures s[0..4] == "NONE" && s[4] == ' ' && !IsSpace(s[5]) && s[5..9] == "WITH" && s[9] == ' ' && !IsSpace(s[10])
    ensures s[10..] == "Autoconf-exception-2.0"
  {
    assert s[5] == "WITH"[0] && s[10] == "Autoconf-exception-2.0"[0];
  }

  lemma NoneLexed(s: string)
    requires s == "NONE" + " " + "WITH" + " " + "Autoconf-exception-2.0"
    ensures Tokens(s) == [Token(Lix, "NONE"), Token(Ws, " "), Token(Wi, "WITH"), Token(Ws, " "), Token(Lic, "Autoconf-exception-2.0")]
  {
    NoneShape(s);
    ExceptionShape(s, 10);
    NoneAt(s, 0);
    SpaceAt(s, 4);
    WithAt(s, 5);
    SpaceAt(s, 9);
    LastLicAt(s, 10);
  }

  lemma NoneVerdict(store: IdentifierStore)
    requires IsValidExceptionIdentifier(store, "Autoconf-exception-2.0")
    ensures Verdict(store, Initial, [Token(Lix, "NONE"), Token(Ws, " "), Token(Wi, "WITH"), Token(Ws, " "), Token(Lic, "Autoconf-exception-2.0")])
  {
  }

  /**
   * `NONE` may carry an exception for the state machine: the `lix` case
   * asks only that nothing is open and no `WITH` pending. The grammar takes
   * `NONE` only as the whole string.
   */
  lemma NoneWithExceptionAccepted(store: IdentifierStore, s: string)
    requires s == "NONE" + " " + "WITH" + " " + "Autoconf-exception-2.0" && IsValidExceptionIdentifier(store, "Autoconf-exception-2.0")
    requires SpdxLicensesParser.Sane(Grammar.Alternation(LicenseIds(store)), Grammar.Alternation(ExceptionIds(store))) && "NONE" !in Grammar.Alternation(LicenseIds(store))
    ensures Accepts(store, s)
    ensures !Grammar.IsValidLicenseString(store, s)
  {
    NoneLexed(s);
    NoneVerdict(store);
    var t := " " + "WITH" + " " + "Autoconf-exception-2.0";
    assert s == "NONE" + t && t[0] == ' ';
    KeywordFirstRejected(store, "NONE", t);
  }

  lemma RefShape(s: string)
    requires s == "WITH" + " " + "LicenseRef-1" + " " + "Autoconf-exception-2.0"
    ensures s[0..4] == "WITH" && s[4] == ' ' && !IsSpace(s[5])
    ensures s[5..16] == "LicenseRef-" && IsDigit(s[16]) && !IsDigit(s[17]) && s[5..17] == "LicenseRef-1"
    ensures s[17] == ' ' && !IsSpace(s[18]) && s[18..] == "Autoconf-exception-2.0"
  {
    var r := "LicenseRef-1";
    assert s[5..17] == r;
    assert s[5..16] == r[..11] && s[5] == r[0] && s[16] == r[11];
    assert s[18] == "Autoconf-exception-2.0"[0];
  }

  lemma RefLexed(s: string)
    requires s == "WITH" + " " + "LicenseRef-1" + " " + "Autoconf-exception-2.0"
    ensures Tokens(s) == [Token(Wi, "WITH"), Token(Ws, " "), Token(Lir, "LicenseRef-1"), Token(Ws, " "), Token(Lic, "Autoconf-exception-2.0")]
  {
    RefShape(s);
    ExceptionShape(s, 18);
    WithAt(s, 0);
    SpaceAt(s, 4);
    RefAt(s, 5);
    SpaceAt(s, 17);
    LastLicAt(s, 18);
  }

  lemma RefVerdict(store: IdentifierStore)
    requires IsValidExceptionIdentifier(store, "Autoconf-exception-2.0")
    ensures Verdict(store, Initial, [Token(Wi, "WITH"), Token(Ws, " "), Token(Lir, "LicenseRef-1"), Token(Ws, " "), Token(Lic, "Autoconf-exception-2.0")])
  {
  }

  /**
   * Two operands with only whitespace between them are accepted when a
   * `WITH` before the first is still pending: the `lir` case leaves `$with`
   * set, and the exception then satisfies the operand check anew.
   */
  lemma RefThenExceptionAccepted(store: IdentifierStore, s: string)
    requires s == "WITH" + " " + "LicenseRef-1" + " " + "Autoconf-exception-2.0" && IsValidExceptionIdentifier(store, "Autoconf-exception-2.0")
    requires SpdxLicensesParser.Sane(Grammar.Alternation(LicenseIds(store)), Grammar.Alternation(ExceptionIds(store))) && "WITH" !in Grammar.Alternation(LicenseIds(store))
    ensures Tokens(s) == [Token(Wi, "WITH"), Token(Ws, " "), Token(Lir, "LicenseRef-1"), Token(Ws, " "), Token(Lic, "Autoconf-exception-2.0")]
    ensures Accepts(store, s)
    ensures !Grammar.IsValidLicenseString(store, s)
  {
    RefLexed(s);
    RefVerdict(store);
    var t := " " + "LicenseRef-1" + " " + "Autoconf-exception-2.0";
    assert s == "WITH" + t && t[0] == ' ';
    KeywordFirstRejected(store, "WITH", t);
  }
}
