/**
 * The valid and invalid expressions of the `SpdxLicenses` test suite, as
 * lemmas about the grammar. The suite runs against the bundled tables; here
 * a lemma asks only for the table entries its expression depends on, and a
 * rejection also for sane tables (every identifier a single word). A valid
 * expression is assembled from the constructions of `SpdxLicenses`; an
 * invalid one is an instance of a law of `SpdxLicensesLaws`, or, for the
 * shortest ones, is read by the recognizer and carried over to the grammar
 * by `RecognizeExact`.
 *
 * Several small lemmas here only regroup a concatenation or spell out a
 * literal. They hold without a proof of their own and exist to keep the
 * facts about strings out of the larger proofs, whose solver context would
 * otherwise grow too large.
 */
module SpdxLicensesExamples {
  import opened Common
  import opened Store
  import opened Normalize
  import opened SpdxLicenses
  import opened SpdxLicensesParser
  import opened SpdxLicensesLaws

  // ---------------------------------------------------------------------------
  // Shapes of the test strings, stated once for all words. A test string of
  // more than two words is written as the concatenation of its words and
  // separators, such as `"EUDatagrid" + " and " + "GPL-3.0-or-later"`.

  /** `a op b`, with one blank on either side of the operator. */
  lemma Joined(L: set<string>, E: set<string>, a: string, op: string, b: string)
    requires Head(L, E, a) && IsOperator(op) && Compound(L, E, b)
    ensures Compound(L, E, a + (" " + op + " ") + b)
  {
    assert AllSpace(" ");
    OperatorAccepted(L, E, a, " ", op, " ", b);
    assert a + (" " + op + " ") + b == a + " " + op + " " + b;
  }

  /** `(c)`, without padding. */
  lemma Grouped(L: set<string>, E: set<string>, c: string)
    requires Compound(L, E, c)
    ensures Head(L, E, "(" + c + ")") && LicenseExpression(L, E, "(" + c + ")")
  {
    ParenthesisedAccepted(L, E, "", c, "");
    assert "(" + "" + c + "" + ")" == "(" + c + ")";
  }

  /** `(a op b)`, one operator in parentheses. */
  lemma GroupedJoin(L: set<string>, E: set<string>, a: string, op: string, b: string)
    requires Head(L, E, a) && IsOperator(op) && Compound(L, E, b)
    ensures Head(L, E, "(" + a + (" " + op + " ") + b + ")")
    ensures LicenseExpression(L, E, "(" + a + (" " + op + " ") + b + ")")
  {
    Joined(L, E, a, op, b);
    Grouped(L, E, a + (" " + op + " ") + b);
    Enclosed(a, " " + op + " ", b);
  }

  /**
   * Putting `x m y` in parentheses, regrouped; stated apart because the
   * regrouping is costly beside the grammar facts of `GroupedJoin`.
   */
  lemma Enclosed(x: string, m: string, y: string)
    ensures "(" + (x + m + y) + ")" == "(" + x + m + y + ")"
  {
  }

  /** `a w e`, an exception clause with one blank on either side of `with`. */
  lemma WithJoined(L: set<string>, E: set<string>, a: string, w: string, e: string)
    requires Simple(L, a) && IsWithWord(w) && e in E
    ensures LicenseExpression(L, E, a + (" " + w + " ") + e)
  {
    assert AllSpace(" ");
    WithAccepted(L, E, a, " ", w, " ", e);
    assert a + (" " + w + " ") + e == a + " " + w + " " + e;
  }

  /** `(a op c pad)` where `c` is no compound expression. */
  lemma GroupedJoinRejected(L: set<string>, E: set<string>, a: string, op: string, c: string, pad: string)
    requires Sane(L, E) && Head(L, E, a) && a != [] && IsOperator(op) && !Compound(L, E, c)
    requires !IsSpace(a[0]) && c != [] && !IsSpace(c[0]) && !IsSpace(c[|c| - 1]) && AllSpace(pad)
    requires ')' !in a && ')' !in op && ')' !in c
    ensures !LicenseExpression(L, E, "(" + a + (" " + op + " ") + c + pad + ")")
  {
    var inner := a + (" " + op + " ") + c;
    JoinedInner(a, op, c, pad);
    assert AllSpace(" ");
    OperandOfOperator(L, E, a, " ", op, " ", c);
    GroupedCompound(L, E, inner, pad);
  }

  /** The inside of `(a op c pad)`: where it starts and ends, and that it holds no `)`. */
  lemma JoinedInner(a: string, op: string, c: string, pad: string)
    requires a != [] && c != [] && ')' !in a && ')' !in op && ')' !in c
    ensures var inner := a + (" " + op + " ") + c;
      && inner == a + " " + op + " " + c
      && "(" + inner + pad + ")" == "(" + a + (" " + op + " ") + c + pad + ")"
      && inner[0] == a[0] && inner[|inner| - 1] == c[|c| - 1] && ')' !in inner
  {
  }

  // ---------------------------------------------------------------------------
  // Valid expressions

  lemma AcceptsSingleLicenses(L: set<string>, E: set<string>)
    requires "MIT" in L
    ensures LicenseExpression(L, E, "MIT") && LicenseExpression(L, E, "MIT+")
    ensures LicenseExpression(L, E, "(MIT)")
    ensures LicenseExpression(L, E, "NONE") && LicenseExpression(L, E, "NOASSERTION")
    ensures LicenseExpression(L, E, "LicenseRef-3")
  {
    assert "MIT" + "+" == "MIT+";
    assert "LicenseRef-" + "3" == "LicenseRef-3";
    assert "(" + "MIT" + ")" == "(MIT)";
    KnownLicenseAccepted(L, E, "MIT");
    LicenseRefAccepted(L, E, "3", "3");
    assert Compound(L, E, "MIT");
    Grouped(L, E, "MIT");
  }

  /** A disjunction in parentheses, in either spelling of the operator. */
  lemma AcceptsDisjunction(L: set<string>, E: set<string>)
    requires "LGPL-2.0-only" in L && "GPL-3.0-or-later" in L
    ensures LicenseExpression(L, E, "(" + "LGPL-2.0-only" + " or " + "GPL-3.0-or-later" + ")")
    ensures LicenseExpression(L, E, "(" + "LGPL-2.0-only" + " OR " + "GPL-3.0-or-later" + ")")
  {
    assert " " + "or" + " " == " or " && " " + "OR" + " " == " OR ";
    assert Compound(L, E, "GPL-3.0-or-later");
    GroupedJoin(L, E, "LGPL-2.0-only", "or", "GPL-3.0-or-later");
    GroupedJoin(L, E, "LGPL-2.0-only", "OR", "GPL-3.0-or-later");
  }

  /** A conjunction, bare or in parentheses, in either spelling of the operator. */
  lemma AcceptsConjunction(L: set<string>, E: set<string>)
    requires "EUDatagrid" in L && "GPL-3.0-or-later" in L
    ensures LicenseExpression(L, E, "EUDatagrid" + " and " + "GPL-3.0-or-later")
    ensures LicenseExpression(L, E, "(" + "EUDatagrid" + " and " + "GPL-3.0-or-later" + ")")
    ensures LicenseExpression(L, E, "(" + "EUDatagrid" + " AND " + "GPL-3.0-or-later" + ")")
  {
    assert " " + "and" + " " == " and " && " " + "AND" + " " == " AND ";
    assert Compound(L, E, "GPL-3.0-or-later");
    Joined(L, E, "EUDatagrid", "and", "GPL-3.0-or-later");
    GroupedJoin(L, E, "EUDatagrid", "and", "GPL-3.0-or-later");
    GroupedJoin(L, E, "EUDatagrid", "AND", "GPL-3.0-or-later");
  }

  /** An exception clause, in either spelling of `with`. */
  lemma AcceptsException(L: set<string>, E: set<string>)
    requires "GPL-2.0-only" in L && "GPL-2.0-or-later" in L && "Autoconf-exception-2.0" in E
    ensures LicenseExpression(L, E, "GPL-2.0-only" + " with " + "Autoconf-exception-2.0")
    ensures LicenseExpression(L, E, "GPL-2.0-only" + " WITH " + "Autoconf-exception-2.0")
    ensures LicenseExpression(L, E, "GPL-2.0-or-later" + " WITH " + "Autoconf-exception-2.0")
  {
    assert " " + "with" + " " == " with " && " " + "WITH" + " " == " WITH ";
    WithJoined(L, E, "GPL-2.0-only", "with", "Autoconf-exception-2.0");
    WithJoined(L, E, "GPL-2.0-only", "WITH", "Autoconf-exception-2.0");
    WithJoined(L, E, "GPL-2.0-or-later", "WITH", "Autoconf-exception-2.0");
  }

  /** `and` and `or` may be mixed in one expression. */
  lemma AcceptsMixedOperators(L: set<string>, E: set<string>)
    requires "GPL-3.0-only" in L && "GPL-2.0-only" in L && "GPL-3.0-or-later" in L
    ensures LicenseExpression(L, E, "(" + "GPL-3.0-only" + " and " + "GPL-2.0-only" + " or " + "GPL-3.0-or-later" + ")")
  {
    assert " " + "and" + " " == " and " && " " + "or" + " " == " or ";
    assert Compound(L, E, "GPL-3.0-or-later");
    Joined(L, E, "GPL-2.0-only", "or", "GPL-3.0-or-later");
    var tail := "GPL-2.0-only" + (" " + "or" + " ") + "GPL-3.0-or-later";
    GroupedJoin(L, E, "GPL-3.0-only", "and", tail);
    assert "(" + "GPL-3.0-only" + " and " + tail + ")"
      == "(" + "GPL-3.0-only" + " and " + "GPL-2.0-only" + " or " + "GPL-3.0-or-later" + ")";
  }

  /** The ids the tests name hold no whitespace, so the pattern reads each as it is. */
  lemma TestIdsKept(ids: set<string>)
    ensures "MIT" in ids ==> "MIT" in Alternation(ids)
    ensures "EUDatagrid" in ids ==> "EUDatagrid" in Alternation(ids)
    ensures "GPL-3.0-or-later" in ids ==> "GPL-3.0-or-later" in Alternation(ids)
    ensures "LGPL-2.0-only" in ids ==> "LGPL-2.0-only" in Alternation(ids)
  {
    assert NoSpace("MIT") && NoSpace("EUDatagrid") && NoSpace("GPL-3.0-or-later") && NoSpace("LGPL-2.0-only");
    if "MIT" in ids { AlternationKeeps(ids, "MIT"); }
    if "EUDatagrid" in ids { AlternationKeeps(ids, "EUDatagrid"); }
    if "GPL-3.0-or-later" in ids { AlternationKeeps(ids, "GPL-3.0-or-later"); }
    if "LGPL-2.0-only" in ids { AlternationKeeps(ids, "LGPL-2.0-only"); }
  }

  /** `['(MIT)']` and `['EUDatagrid and GPL-3.0-or-later']` through `validate`: a single string is taken as it is. */
  lemma ValidatesSingletonArrays(store: IdentifierStore)
    requires "MIT" in LicenseIds(store) && "EUDatagrid" in LicenseIds(store) && "GPL-3.0-or-later" in LicenseIds(store)
    ensures Validate(store, Arr([Str("(MIT)")])) == Success(true)
    ensures Validate(store, Arr([Str("EUDatagrid" + " and " + "GPL-3.0-or-later")])) == Success(true)
  {
    TestIdsKept(LicenseIds(store));
    AcceptsSingleLicenses(Alternation(LicenseIds(store)), Alternation(ExceptionIds(store)));
    AcceptsConjunction(Alternation(LicenseIds(store)), Alternation(ExceptionIds(store)));
  }

  /** `['LGPL-2.0-only', 'GPL-3.0-or-later']` through `validate`: joined into a disjunction. */
  lemma ValidatesPairArray(store: IdentifierStore)
    requires "LGPL-2.0-only" in LicenseIds(store) && "GPL-3.0-or-later" in LicenseIds(store)
    ensures Validate(store, Arr([Str("LGPL-2.0-only"), Str("GPL-3.0-or-later")])) == Success(true)
  {
    TestIdsKept(LicenseIds(store));
    NormalizePair("LGPL-2.0-only", "GPL-3.0-or-later");
    AcceptsDisjunction(Alternation(LicenseIds(store)), Alternation(ExceptionIds(store)));
  }

  /**
   * Every identifier of the license table is valid on its own when it holds
   * no whitespace; one that does matches only with its blanks left out.
   */
  lemma ValidatesEveryIdentifier(store: IdentifierStore, id: string)
    requires id in LicenseIds(store)
    ensures Validate(store, Str(PatternText(id))) == Success(true)
    ensures NoSpace(id) ==> Validate(store, Str(id)) == Success(true)
  {
    if NoSpace(id) {
      AlternationKeeps(LicenseIds(store), id);
    }
    AlternationMembers(LicenseIds(store), PatternText(id));
    KnownLicenseAccepted(Alternation(LicenseIds(store)), Alternation(ExceptionIds(store)), PatternText(id));
  }

  /**
   * An empty table gives the empty alternation, which matches the empty
   * string: `""` and `"+"` are then valid expressions.
   */
  lemma EmptyTableAccepts(store: IdentifierStore)
    requires LicenseIds(store) == {}
    ensures IsValidLicenseString(store, "")
    ensures IsValidLicenseString(store, "+")
  {
    assert "+"[..0] == "";
  }

  /** A table holding the empty identifier lets an operator open the expression. */
  lemma EmptyIdentifierOperand(L: set<string>, E: set<string>, s: string)
    requires "" in L && "MIT" in L && s == " AND MIT"
    ensures LicenseExpression(L, E, s)
  {
    var m := "MIT";
    assert Compound(L, E, m);
    OperatorAccepted(L, E, "", " ", "AND", " ", m);
    assert s == "" + " " + "AND" + " " + m;
  }

  /** The same for `WITH`: an exception with nothing visible before it. */
  lemma EmptyIdentifierException(L: set<string>, E: set<string>, e: string, s: string)
    requires "" in L && e in E && s == " WITH " + e
    ensures LicenseExpression(L, E, s)
  {
    WithAccepted(L, E, "", " ", "WITH", " ", e);
    assert s == "" + " " + "WITH" + " " + e;
  }

  /**
   * A table id with a blank: `x` mode reads `Foo Bar` as `FooBar`, so the id
   * as written is no valid expression and the id without its blank is one.
   */
  lemma BlankInIdentifier(ids: set<string>, E: set<string>, a: string, b: string)
    requires a == "Foo" && b == "Bar" && ids == {a + " " + b}
    requires Sane(Alternation(ids), E)
    ensures Alternation(ids) == {a + b}
    ensures LicenseExpression(Alternation(ids), E, a + b)
    ensures !LicenseExpression(Alternation(ids), E, a + " " + b)
  {
    var t := " " + b;
    assert a + " " + b == a + t;
    PatternTextAppend(a, t);
    PatternTextAppend(" ", b);
    PatternTextUnspaced(a);
    PatternTextUnspaced(b);
    assert PatternText(" ") == [];
    assert PatternText(a + t) == a + b;
    assert Alternation(ids) == {a + b};
    var L := Alternation(ids);
    assert a !in L && a[|a| - 1] != '+';
    UnknownFirstWord(L, E, a, t);
  }

  // ---------------------------------------------------------------------------
  // Invalid expressions

  lemma RejectsEmpty(L: set<string>, E: set<string>)
    requires Sane(L, E)
    ensures !LicenseExpression(L, E, "")
  {
    RecognizeExact(L, E, "");
  }

  /** Prose: either its first word is unknown, or a second operand follows it. */
  lemma RejectsProse(L: set<string>, E: set<string>)
    requires Sane(L, E)
    ensures !LicenseExpression(L, E, "The system pwns you")
  {
    assert "The" + " " + "system" + " pwns you" == "The system pwns you";
    assert AllSpace(" ");
    TwoWords(L, E, "The", " ", "system", " pwns you");
  }

  lemma RejectsEmptyGroup(L: set<string>, E: set<string>)
    requires Sane(L, E)
    ensures !LicenseExpression(L, E, "()")
  {
    ParseWordNone(L, E, "()", 1, 1);
    ParseGroupNone(L, E, "()", 0, 1);
    RecognizeExact(L, E, "()");
  }

  lemma RejectsUnclosedGroup(L: set<string>, E: set<string>)
    requires Sane(L, E) && "MIT" in L
    ensures !LicenseExpression(L, E, "(MIT")
  {
    assert "(MIT"[1..4] == "MIT";
    ParseSimple(L, E, "(MIT", 1, 4);
    ParseSingle(L, E, "(MIT", 1, 4);
    ParseGroupNone(L, E, "(MIT", 0, 1);
    RecognizeExact(L, E, "(MIT");
  }

  lemma RejectsUnopenedGroup(L: set<string>, E: set<string>)
    requires Sane(L, E) && "MIT" in L
    ensures !LicenseExpression(L, E, "MIT)")
  {
    assert "MIT" + "" + [')'] + "" == "MIT)";
    ParenAfterHead(L, E, "MIT", "", ')', "");
  }

  lemma RejectsTrailingNone(L: set<string>, E: set<string>)
    requires Sane(L, E) && "MIT" in L
    ensures !LicenseExpression(L, E, "MIT NONE")
  {
    assert "MIT" + " " + "NONE" + "" == "MIT NONE";
    assert AllSpace(" ");
    JuxtaposedOperands(L, E, "MIT", " ", "NONE", "");
  }

  /** `NONE` stands only for the whole expression, never for an operand. */
  lemma RejectsNoneOperand(L: set<string>, E: set<string>)
    requires Sane(L, E) && "MIT" in L && "NONE" !in L
    ensures !LicenseExpression(L, E, "MIT AND NONE")
  {
    assert "MIT" + " " + "AND" + " " + "NONE" == "MIT AND NONE";
    assert "NONE" + "" == "NONE";
    assert AllSpace(" ");
    UnknownFirstWord(L, E, "NONE", "");
    OperandOfOperator(L, E, "MIT", " ", "AND", " ", "NONE");
  }

  lemma RejectsJuxtaposedGroup(L: set<string>, E: set<string>)
    requires Sane(L, E) && "MIT" in L
    ensures !LicenseExpression(L, E, "MIT (MIT and MIT)")
  {
    assert "MIT" + " " + ['('] + "MIT and MIT)" == "MIT (MIT and MIT)";
    assert AllSpace(" ");
    ParenAfterHead(L, E, "MIT", " ", '(', "MIT and MIT)");
  }

  lemma RejectsOperandAfterGroup(L: set<string>, E: set<string>)
    requires Sane(L, E) && "MIT" in L
    ensures !LicenseExpression(L, E, "(MIT and MIT) MIT")
  {
    var g := "(" + "MIT" + (" " + "and" + " ") + "MIT" + ")";
    assert g + " " + "MIT" + "" == "(MIT and MIT) MIT";
    assert Compound(L, E, "MIT");
    GroupedJoin(L, E, "MIT", "and", "MIT");
    assert AllSpace(" ");
    JuxtaposedOperands(L, E, g, " ", "MIT", "");
  }

  /** The array `['LGPL-2.0-only', 'The system pwns you']`, once joined. */
  lemma RejectsProseAlternative(L: set<string>, E: set<string>)
    requires Sane(L, E) && "LGPL-2.0-only" in L
    ensures !LicenseExpression(L, E, "(" + "LGPL-2.0-only" + " OR " + "The system pwns you" + ")")
  {
    assert " " + "OR" + " " == " OR ";
    RejectsProse(L, E);
    GroupedJoinRejected(L, E, "LGPL-2.0-only", "OR", "The system pwns you", "");
    assert "(" + "LGPL-2.0-only" + " OR " + "The system pwns you" + "" == "(" + "LGPL-2.0-only" + " OR " + "The system pwns you";
  }

  /** An operator cannot open an expression, whether or not `and` is a license id. */
  lemma RejectsLeadingOperator(L: set<string>, E: set<string>)
    requires Sane(L, E)
    ensures !LicenseExpression(L, E, "and" + " " + "GPL-3.0-or-later")
  {
    assert AllSpace(" ");
    TwoWords(L, E, "and", " ", "GPL-3.0-or-later", "");
    assert "and" + " " + "GPL-3.0-or-later" + "" == "and" + " " + "GPL-3.0-or-later";
  }

  lemma RejectsDanglingOperator(L: set<string>, E: set<string>)
    requires Sane(L, E) && "EUDatagrid" in L && "GPL-3.0-or-later" in L
    ensures !LicenseExpression(L, E, "(" + "EUDatagrid" + " and " + "GPL-3.0-or-later" + " and" + "  " + ")")
  {
    DanglingShape();
    assert AllSpace(" ") && AllSpace("  ");
    TrailingOperator(L, E, "GPL-3.0-or-later", " ", "and");
    GroupedJoinRejected(L, E, "EUDatagrid", "and", "GPL-3.0-or-later and", "  ");
  }

  /** The dangling group as `(a op c pad)`, where `c` is the operand that ends in `and`. */
  lemma DanglingShape()
    ensures var c := "GPL-3.0-or-later and";
      && "GPL-3.0-or-later" + " " + "and" == c
      && "(" + "EUDatagrid" + (" " + "and" + " ") + c + "  " + ")"
         == "(" + "EUDatagrid" + " and " + "GPL-3.0-or-later" + " and" + "  " + ")"
      && ')' !in c && !IsSpace(c[0]) && !IsSpace(c[|c| - 1])
  {
  }

  /** An unknown operator is read as a second operand. */
  lemma RejectsUnknownOperator(L: set<string>, E: set<string>)
    requires Sane(L, E) && "EUDatagrid" in L
    ensures !LicenseExpression(L, E, "(" + "EUDatagrid" + " xor " + "GPL-3.0-or-later" + ")")
  {
    XorShape();
    XorOperands(L, E);
    GroupedCompound(L, E, "EUDatagrid xor GPL-3.0-or-later", "");
  }

  /** The `xor` group is its inside in parentheses, and the inside holds no `)`. */
  lemma XorShape()
    ensures var c := "EUDatagrid xor GPL-3.0-or-later";
      && "(" + c + "" + ")" == "(" + "EUDatagrid" + " xor " + "GPL-3.0-or-later" + ")"
      && ')' !in c && !IsSpace(c[0]) && !IsSpace(c[|c| - 1])
  {
  }

  /** The inside of the `xor` group is two operands side by side. */
  lemma XorOperands(L: set<string>, E: set<string>)
    requires Sane(L, E) && "EUDatagrid" in L
    ensures !Compound(L, E, "EUDatagrid xor GPL-3.0-or-later")
  {
    assert "EUDatagrid" + " " + "xor" + (" " + "GPL-3.0-or-later") == "EUDatagrid xor GPL-3.0-or-later";
    assert AllSpace(" ");
    JuxtaposedOperands(L, E, "EUDatagrid", " ", "xor", " " + "GPL-3.0-or-later");
  }

  lemma RejectsGroupedNone(L: set<string>, E: set<string>)
    requires Sane(L, E) && "NONE" !in L
    ensures !LicenseExpression(L, E, "(NONE or MIT)")
  {
    assert "NONE" + " or MIT" == "NONE or MIT";
    assert "(" + "NONE or MIT" + "" + ")" == "(NONE or MIT)";
    UnknownFirstWord(L, E, "NONE", " or MIT");
    GroupedCompound(L, E, "NONE or MIT", "");
  }

  lemma RejectsGroupedNoAssertion(L: set<string>, E: set<string>)
    requires Sane(L, E) && "NOASSERTION" !in L
    ensures !LicenseExpression(L, E, "(" + "NOASSERTION" + " or MIT" + ")")
  {
    UnknownFirstWord(L, E, "NOASSERTION", " or MIT");
    assert ')' !in "NOASSERTION" + " or MIT";
    GroupedCompound(L, E, "NOASSERTION" + " or MIT", "");
    assert "(" + ("NOASSERTION" + " or MIT") + "" + ")" == "(" + "NOASSERTION" + " or MIT" + ")";
  }

  /** A license id after `WITH` is no exception, whatever precedes it. */
  lemma RejectsLicenseAsException(L: set<string>, E: set<string>)
    requires Sane(L, E) && "MIT" !in E
    ensures !LicenseExpression(L, E, "Autoconf-exception-2.0" + " WITH " + "MIT")
  {
    assert " " + "WITH" + " " == " WITH ";
    assert AllSpace(" ");
    WordWithUnknown(L, E, "Autoconf-exception-2.0", " ", "WITH", " ", "MIT");
    assert "Autoconf-exception-2.0" + " " + "WITH" + " " + "MIT" == "Autoconf-exception-2.0" + (" " + "WITH" + " ") + "MIT";
  }

  lemma RejectsMissingException(L: set<string>, E: set<string>)
    requires Sane(L, E)
    ensures !LicenseExpression(L, E, "MIT WITH")
  {
    assert "MIT WITH"[4..8] == "WITH";
    ParseWithNone(L, E, "MIT WITH", 0, 3, 4, 8, 8, 8);
    RecognizeExact(L, E, "MIT WITH");
  }

  lemma RejectsTrailingOperator(L: set<string>, E: set<string>)
    requires Sane(L, E) && "MIT" in L
    ensures !LicenseExpression(L, E, "MIT OR")
    ensures !LicenseExpression(L, E, "MIT AND")
  {
    assert "MIT" + " " + "OR" == "MIT OR";
    assert "MIT" + " " + "AND" == "MIT AND";
    assert AllSpace(" ");
    TrailingOperator(L, E, "MIT", " ", "OR");
    TrailingOperator(L, E, "MIT", " ", "AND");
  }

  /** The array cases of the invalid lists, through `validate`. */
  lemma RejectsArrays(store: IdentifierStore)
    requires Sane(Alternation(LicenseIds(store)), Alternation(ExceptionIds(store))) && "LGPL-2.0-only" in LicenseIds(store)
    ensures Validate(store, Arr([])) == Success(false)
    ensures Validate(store, Arr([Str("LGPL-2.0-only"), Str("The system pwns you")])) == Success(false)
  {
    TestIdsKept(LicenseIds(store));
    RejectsEmpty(Alternation(LicenseIds(store)), Alternation(ExceptionIds(store)));
    NormalizePair("LGPL-2.0-only", "The system pwns you");
    RejectsProseAlternative(Alternation(LicenseIds(store)), Alternation(ExceptionIds(store)));
  }

  /** `null`, an object, and arrays holding an object are refused with an exception. */
  lemma RejectsArguments(store: IdentifierStore)
    ensures Validate(store, Other) == Failure(ArrayOrStringExpected)
    ensures Validate(store, Arr([Other])) == Failure(ArrayOfStringsExpected)
    ensures Validate(store, Arr([Str("mixed"), Other])) == Failure(ArrayOfStringsExpected)
    ensures Validate(store, Arr([Other, Other])) == Failure(ArrayOfStringsExpected)
  {
    assert !Arr([Str("mixed"), Other]).items[1].Str?;
    assert !Arr([Other, Other]).items[0].Str?;
    assert !Arr([Other]).items[0].Str?;
  }
}
