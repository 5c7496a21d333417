/**
 * What the license-expression grammar refuses, for sane tables: laws about
 * whole families of strings, each proved by running the deterministic
 * recognizer over the family and then moving the verdict to the grammar
 * through `CompoundExact`.
 *
 * Some helpers (the `Words…` lemmas, for instance) hold without a proof of
 * their own. They are stated separately so that each law calls one small
 * fact instead of unfolding the definitions in its own, larger context.
 */
module SpdxLicensesLaws {
  import opened Common
  import opened SpdxLicenses
  import opened SpdxLicensesParser

  // ---------------------------------------------------------------------------
  // Helpers: the recognizer on a concatenation, and the verdict of the grammar

  /** A compound expression is exactly what the recognizer reads from `u` to the end. */
  lemma CompoundExactAt(L: set<string>, E: set<string>, s: string, u: nat)
    requires Sane(L, E) && u <= |s|
    ensures Compound(L, E, s[u..]) <==> ParseCompound(L, E, s, u) == Some(|s|)
  {
    assert s[u..] == s[u..|s|];
    if ParseCompound(L, E, s, u) == Some(|s|) {
      CompoundSound(L, E, s, u);
    }
    if Compound(L, E, s[u..]) {
      CompoundComplete(L, E, s, u, |s|);
    }
  }

  lemma CompoundExact(L: set<string>, E: set<string>, s: string)
    requires Sane(L, E)
    ensures Compound(L, E, s) <==> ParseCompound(L, E, s, 0) == Some(|s|)
  {
    CompoundExactAt(L, E, s, 0);
    assert s[0..] == s;
  }

  /** A string that is not a single word is an expression exactly when it is a compound expression. */
  lemma BlankIsCompound(L: set<string>, E: set<string>, s: string, k: nat)
    requires Sane(L, E) && k < |s| && !WordChar(s[k])
    ensures LicenseExpression(L, E, s) <==> Compound(L, E, s)
  {
    assert IsWord("NONE") && IsWord("NOASSERTION");
    if Simple(L, s) {
      SimpleIsWord(L, s);
    }
  }

  /** The recognizer reads a head `h` at the start of `s` when a boundary follows it. */
  lemma HeadRead(L: set<string>, E: set<string>, s: string, h: string)
    requires Sane(L, E) && |h| <= |s| && s[..|h|] == h && Head(L, E, h) && Boundary(s, |h|)
    ensures ParseHead(L, E, s, 0) == Some(|h|)
  {
    assert s[0..|h|] == h;
    HeadComplete(L, E, s, 0, |h|);
  }

  // ---------------------------------------------------------------------------
  // The laws

  /**
   * An expression that does not begin with a parenthesis begins with a
   * simple expression: a first word that is no license id, no id with `+`
   * and no license reference is no compound expression, and makes the
   * string invalid once anything follows it.
   */
  lemma UnknownFirstWord(L: set<string>, E: set<string>, w: string, t: string)
    requires Sane(L, E) && IsWord(w) && !Simple(L, w)
    requires t == [] || !WordChar(t[0])
    ensures !Compound(L, E, w + t)
    ensures t != [] ==> !LicenseExpression(L, E, w + t)
  {
    var s := w + t;
    assert forall k :: 0 <= k < |w| ==> s[k] == w[k];
    assert s[0..|w|] == w;
    if t != [] {
      assert s[|w|] == t[0];
    }
    WordEndAt(s, 0, |w|);
    ParseWordNone(L, E, s, 0, |w|);
    CompoundExact(L, E, s);
    if t != [] {
      BlankIsCompound(L, E, s, |w|);
    }
  }

  /** Whitespace from `p` to `q`, then a word up to `r`, as the recognizer finds them. */
  lemma WordAfterSpace(s: string, p: nat, q: nat, r: nat)
    requires p <= q <= r <= |s| && AllSpace(s[p..q]) && (q == r || IsWord(s[q..r]))
    requires (r == |s| || !WordChar(s[r])) && (q == r ==> r == |s| || !IsSpace(s[r]))
    ensures SkipSpace(s, p) == q && WordEnd(s, q) == r
  {
    SpaceAt(s, p, q);
    if q < r {
      WordAt(s, q, r);
    }
    SkipSpaceAt(s, p, q);
    WordEndAt(s, q, r);
  }

  /**
   * Two operands side by side are invalid: after a head, whitespace and a
   * word that is neither an operator nor `with` (the end of what may come
   * after it is immaterial).
   */
  lemma JuxtaposedOperands(L: set<string>, E: set<string>, h: string, sp: string, w: string, rest: string)
    requires Sane(L, E) && Head(L, E, h) && Spaces(sp) && IsWord(w) && !IsOperator(w) && !IsWithWord(w)
    requires rest == [] || !WordChar(rest[0])
    ensures !LicenseExpression(L, E, h + sp + w + rest)
  {
    var s := h + sp + w + rest;
    var p := |h|;
    var q := p + |sp|;
    var r := q + |w|;
    assert s[..p] == h && s[p..q] == sp && s[q..r] == w && s[p] == sp[0];
    assert r < |s| ==> s[r] == rest[0];
    WordAfterSpace(s, p, q, r);
    HeadRead(L, E, s, h);
    ParseSingle(L, E, s, 0, p);
    CompoundExact(L, E, s);
    BlankIsCompound(L, E, s, p);
  }

  /** A parenthesis right after a head, with or without whitespace between, makes the string invalid. */
  lemma ParenAfterHead(L: set<string>, E: set<string>, h: string, sp: string, c: char, rest: string)
    requires Sane(L, E) && Head(L, E, h) && AllSpace(sp) && (c == '(' || c == ')')
    ensures !LicenseExpression(L, E, h + sp + [c] + rest)
  {
    var s := h + sp + [c] + rest;
    var p := |h|;
    var q := p + |sp|;
    assert s[..p] == h && s[p..q] == sp && s[q] == c && s[q..q] == [];
    assert s[p] == if sp == [] then c else sp[0];
    WordAfterSpace(s, p, q, q);
    HeadRead(L, E, s, h);
    ParseSingle(L, E, s, 0, p);
    CompoundExact(L, E, s);
    BlankIsCompound(L, E, s, q);
  }

  /** The offsets of an operator with whitespace before it, as the recognizer finds them. */
  lemma OperatorAt(s: string, p: nat, q: nat, r: nat, u: nat)
    requires p < q < r <= u <= |s| && (r < u || r == |s|)
    requires AllSpace(s[p..q]) && IsOperator(s[q..r]) && AllSpace(s[r..u]) && (u == |s| || !IsSpace(s[u]))
    ensures SkipSpace(s, p) == q && WordEnd(s, q) == r && SkipSpace(s, r) == u && Boundary(s, p)
  {
    SpaceAt(s, p, q);
    KeywordIsWord(s[q..r]);
    WordAt(s, q, r);
    SpaceAt(s, r, u);
    SkipSpaceAt(s, p, q);
    WordEndAt(s, q, r);
    SkipSpaceAt(s, r, u);
  }

  /** Where the five parts of `h sp1 op sp2 c` lie. */
  lemma JoinParts(s: string, h: string, sp1: string, op: string, sp2: string, c: string)
    requires s == h + sp1 + op + sp2 + c && sp1 != []
    ensures var q := |h| + |sp1|; var r := q + |op|; var u := r + |sp2|;
      s[..|h|] == h && s[|h|..q] == sp1 && s[q..r] == op && s[r..u] == sp2 && s[u..] == c && s[|h|] == sp1[0] &&
      (u < |s| ==> s[u] == c[0])
  {
  }

  /** The offsets `p`, `q`, `r`, `u` of `h sp1 op sp2 c` as the recognizer finds them. */
  lemma JoinShape(s: string, h: string, sp1: string, op: string, sp2: string, c: string, p: nat, q: nat, r: nat, u: nat)
    requires s == h + sp1 + op + sp2 + c && Spaces(sp1) && IsOperator(op) && Spaces(sp2) && (c == [] || !IsSpace(c[0]))
    requires p == |h| && q == p + |sp1| && r == q + |op| && u == r + |sp2|
    ensures SkipSpace(s, p) == q && WordEnd(s, q) == r && SkipSpace(s, r) == u && Boundary(s, p)
    ensures IsOperator(s[q..r]) && !WordChar(s[p]) && s[u..] == c && s[..p] == h
  {
    JoinParts(s, h, sp1, op, sp2, c);
    OperatorAt(s, p, q, r, u);
  }

  /** Once the head and the operator are read, the verdict is the verdict on what follows the operator. */
  lemma JoinVerdict(L: set<string>, E: set<string>, s: string, p: nat, q: nat, r: nat, u: nat)
    requires Sane(L, E) && p < q < r < u <= |s| && ParseHead(L, E, s, 0) == Some(p)
    requires SkipSpace(s, p) == q && WordEnd(s, q) == r && IsOperator(s[q..r]) && SkipSpace(s, r) == u
    ensures Compound(L, E, s) <==> Compound(L, E, s[u..])
  {
    ParseJoinStep(L, E, s, 0, p, q, r, u);
    CompoundExact(L, E, s);
    CompoundExactAt(L, E, s, u);
  }

  /**
   * The operand to the right of an operator must itself be a compound
   * expression: `h op c` is valid exactly when `c` is a compound expression.
   */
  lemma OperandOfOperator(L: set<string>, E: set<string>, h: string, sp1: string, op: string, sp2: string, c: string)
    requires Sane(L, E) && Head(L, E, h) && Spaces(sp1) && IsOperator(op) && Spaces(sp2) && (c == [] || !IsSpace(c[0]))
    ensures LicenseExpression(L, E, h + sp1 + op + sp2 + c) <==> Compound(L, E, c)
  {
    var s := h + sp1 + op + sp2 + c;
    var p := |h|;
    var q := p + |sp1|;
    var r := q + |op|;
    var u := r + |sp2|;
    JoinShape(s, h, sp1, op, sp2, c, p, q, r, u);
    HeadRead(L, E, s, h);
    JoinVerdict(L, E, s, p, q, r, u);
    BlankIsCompound(L, E, s, p);
  }

  /** An operator needs an operand on its right: `h op` is invalid. */
  lemma TrailingOperator(L: set<string>, E: set<string>, h: string, sp: string, op: string)
    requires Sane(L, E) && Head(L, E, h) && Spaces(sp) && IsOperator(op)
    ensures !LicenseExpression(L, E, h + sp + op)
  {
    var s := h + sp + op;
    var p := |h|;
    var q := p + |sp|;
    assert s[..p] == h && s[p..q] == sp && s[q..|s|] == op && s[|s|..|s|] == [];
    OperatorAt(s, p, q, |s|, |s|);
    HeadRead(L, E, s, h);
    ParseJoinStep(L, E, s, 0, p, q, |s|, |s|);
    CompoundExact(L, E, s);
    assert s[p] == sp[0];
    BlankIsCompound(L, E, s, p);
  }

  /** The offsets of `a sp1 w sp2 e`, a simple expression `WITH` a word, as the recognizer finds them. */
  lemma WithAt(s: string, p: nat, q: nat, r: nat, c: nat, d: nat)
    requires 0 < p < q < r < c < d <= |s| && (d == |s| || !WordChar(s[d]))
    requires IsWord(s[0..p]) && Spaces(s[p..q]) && IsWithWord(s[q..r]) && Spaces(s[r..c]) && IsWord(s[c..d])
    ensures WordEnd(s, 0) == p && SkipSpace(s, p) == q && WordEnd(s, q) == r
    ensures SkipSpace(s, r) == c && WordEnd(s, c) == d
  {
    WordAt(s, 0, p);
    SpaceAt(s, p, q);
    KeywordIsWord(s[q..r]);
    WordAt(s, q, r);
    SpaceAt(s, r, c);
    WordAt(s, c, d);
    WordEndAt(s, 0, p);
    SkipSpaceAt(s, p, q);
    WordEndAt(s, q, r);
    SkipSpaceAt(s, r, c);
    WordEndAt(s, c, d);
  }

  /** Where the six parts of `a sp1 w sp2 e t` lie. */
  lemma WithParts(s: string, a: string, sp1: string, w: string, sp2: string, e: string, t: string)
    requires s == a + sp1 + w + sp2 + e + t && sp1 != []
    ensures var q := |a| + |sp1|; var r := q + |w|; var c := r + |sp2|; var d := c + |e|;
      s[0..|a|] == a && s[|a|..q] == sp1 && s[q..r] == w && s[r..c] == sp2 && s[c..d] == e &&
      s[|a|] == sp1[0] && (d < |s| ==> s[d] == t[0])
  {
  }

  /** A `WITH` must be followed by a known exception. */
  lemma UnknownException(L: set<string>, E: set<string>, a: string, sp1: string, w: string, sp2: string, e: string, t: string)
    requires Sane(L, E) && Simple(L, a) && Spaces(sp1) && IsWithWord(w) && Spaces(sp2)
    requires IsWord(e) && e !in E && (t == [] || !WordChar(t[0]))
    ensures !LicenseExpression(L, E, a + sp1 + w + sp2 + e + t)
  {
    var s := a + sp1 + w + sp2 + e + t;
    var p := |a|;
    var q := p + |sp1|;
    var r := q + |w|;
    var c := r + |sp2|;
    var d := c + |e|;
    WithParts(s, a, sp1, w, sp2, e, t);
    SimpleIsWord(L, a);
    WithAt(s, p, q, r, c, d);
    ParseWithNone(L, E, s, 0, p, q, r, c, d);
    CompoundExact(L, E, s);
    BlankIsCompound(L, E, s, p);
  }

  /** Two words in a row, the second neither an operator nor `with`, are invalid whatever the tables hold. */
  lemma TwoWords(L: set<string>, E: set<string>, a: string, sp: string, b: string, rest: string)
    requires Sane(L, E) && IsWord(a) && Spaces(sp) && IsWord(b) && !IsOperator(b) && !IsWithWord(b)
    requires rest == [] || !WordChar(rest[0])
    ensures !LicenseExpression(L, E, a + sp + b + rest)
  {
    if Simple(L, a) {
      JuxtaposedOperands(L, E, a, sp, b, rest);
    } else {
      assert (sp + b + rest)[0] == sp[0];
      UnknownFirstWord(L, E, a, sp + b + rest);
      assert a + (sp + b + rest) == a + sp + b + rest;
    }
  }

  /** A word after `with` that is no exception id makes the string invalid, whatever word precedes it. */
  lemma WordWithUnknown(L: set<string>, E: set<string>, a: string, sp1: string, w: string, sp2: string, e: string)
    requires Sane(L, E) && IsWord(a) && Spaces(sp1) && IsWithWord(w) && Spaces(sp2) && IsWord(e) && e !in E
    ensures !LicenseExpression(L, E, a + sp1 + w + sp2 + e)
  {
    if Simple(L, a) {
      UnknownException(L, E, a, sp1, w, sp2, e, "");
      assert a + sp1 + w + sp2 + e + "" == a + sp1 + w + sp2 + e;
    } else {
      assert (sp1 + w + sp2 + e)[0] == sp1[0];
      UnknownFirstWord(L, E, a, sp1 + w + sp2 + e);
      assert a + (sp1 + w + sp2 + e) == a + sp1 + w + sp2 + e;
    }
  }

  /** The last character of a compound expression is not whitespace. */
  lemma {:induction false} CompoundEnd(L: set<string>, E: set<string>, t: string)
    requires Sane(L, E) && Compound(L, E, t)
    ensures |t| > 0 && !IsSpace(t[|t| - 1])
    decreases |t|
  {
    var single, p, q, r, u := CompoundCases(L, E, t);
    if single {
      var alt := HeadCases(L, E, t);
      if alt == 0 {
        SimpleIsWord(L, t);
      } else if alt == 1 {
        var p, q, r := WithChoose(L, E, t);
        assert t[r..][|t| - r - 1] == t[|t| - 1];
      }
    } else {
      CompoundEnd(L, E, t[u..]);
      assert t[u..][|t| - u - 1] == t[|t| - 1];
    }
  }

  /** What the recognizer does with a `(` at the start. */
  lemma GroupRead(L: set<string>, E: set<string>, s: string) returns (b: nat)
    requires 0 < |s| && s[0] == '(' && ParseHead(L, E, s, 0).Some?
    ensures SkipSpace(s, 1) <= |s| && ParseCompound(L, E, s, SkipSpace(s, 1)) == Some(b)
    ensures b <= |s| && SkipSpace(s, b) < |s| && s[SkipSpace(s, b)] == ')'
  {
    b := ParseCompound(L, E, s, SkipSpace(s, 1)).value;
  }

  /** Where the recognizer finds the `)` of a group `( c pad )` when `c` holds none. */
  lemma GroupClose(s: string, c: string, pad: string, b: nat)
    requires s == "(" + c + pad + ")" && c != [] && !IsSpace(c[|c| - 1]) && AllSpace(pad)
    requires forall k :: 0 <= k < |c| ==> c[k] != ')'
    requires 1 < b <= |s| && SkipSpace(s, b) < |s| && s[SkipSpace(s, b)] == ')'
    requires !IsSpace(s[b - 1])
    ensures b == 1 + |c|
  {
    var e := SkipSpace(s, b);
    assert forall k :: 1 <= k < 1 + |c| ==> s[k] == c[k - 1];
    assert forall k :: 1 + |c| <= k < |s| - 1 ==> s[k] == pad[k - 1 - |c|];
    assert e == |s| - 1;
    assert !IsSpace(s[|c|]);
  }

  /** The last character of a compound expression read from `i` to `b`. */
  lemma CompoundEndAt(L: set<string>, E: set<string>, s: string, i: nat, b: nat)
    requires Sane(L, E) && i <= b <= |s| && Compound(L, E, s[i..b])
    ensures i < b && !IsSpace(s[b - 1])
  {
    CompoundEnd(L, E, s[i..b]);
    assert s[i..b][b - i - 1] == s[b - 1];
  }

  lemma GroupOpen(s: string, c: string, pad: string)
    requires s == "(" + c + pad + ")" && c != [] && !IsSpace(c[0])
    ensures s[0] == '(' && SkipSpace(s, 1) == 1 && s[1..1 + |c|] == c
  {
    assert s[1] == c[0];
    SkipSpaceAt(s, 1, 1);
  }

  /** If the group `( c pad )` is read as a compound expression, so is `c`. */
  lemma GroupInside(L: set<string>, E: set<string>, s: string, c: string, pad: string)
    requires Sane(L, E) && s == "(" + c + pad + ")" && c != [] && !IsSpace(c[0]) && !IsSpace(c[|c| - 1])
    requires AllSpace(pad) && ')' !in c
    requires ParseCompound(L, E, s, 0).Some?
    ensures Compound(L, E, c)
  {
    assert forall k :: 0 <= k < |c| ==> c[k] != ')';
    GroupOpen(s, c, pad);
    var b := GroupRead(L, E, s);
    CompoundSound(L, E, s, 1);
    CompoundEndAt(L, E, s, 1, b);
    GroupClose(s, c, pad, b);
  }

  /**
   * A parenthesised group whose inside holds no `)` is valid exactly when
   * its inside, without the padding before the `)`, is a compound expression.
   */
  lemma GroupedCompound(L: set<string>, E: set<string>, c: string, pad: string)
    requires Sane(L, E) && c != [] && !IsSpace(c[0]) && !IsSpace(c[|c| - 1]) && AllSpace(pad) && ')' !in c
    ensures LicenseExpression(L, E, "(" + c + pad + ")") <==> Compound(L, E, c)
  {
    if Compound(L, E, c) {
      assert "(" + c + pad + ")" == "(" + "" + c + pad + ")";
      ParenthesisedAccepted(L, E, "", c, pad);
    }
    if LicenseExpression(L, E, "(" + c + pad + ")") {
      GroupedInside(L, E, c, pad);
    }
  }

  lemma GroupedInside(L: set<string>, E: set<string>, c: string, pad: string)
    requires Sane(L, E) && c != [] && !IsSpace(c[0]) && !IsSpace(c[|c| - 1]) && AllSpace(pad) && ')' !in c
    requires LicenseExpression(L, E, "(" + c + pad + ")")
    ensures Compound(L, E, c)
  {
    var s := "(" + c + pad + ")";
    assert s[0] == '(';
    BlankIsCompound(L, E, s, 0);
    CompoundExact(L, E, s);
    GroupInside(L, E, s, c, pad);
  }

  // ---------------------------------------------------------------------------
  // `NONE` and `NOASSERTION` stand alone

  /** A word of `s` starts at `p`: a word character with none right before it. */
  predicate WordStart(s: string, p: nat)
    requires p < |s|
  {
    WordChar(s[p]) && (p == 0 || !WordChar(s[p - 1]))
  }

  /** A word the rules can place inside a compound expression. */
  predicate PhraseWord(L: set<string>, E: set<string>, w: string) {
    Simple(L, w) || IsOperator(w) || IsWithWord(w) || w in E
  }

  /** Every word that starts in `[x, y)` of `s` is a phrase word. */
  predicate WordsIn(L: set<string>, E: set<string>, s: string, x: nat, y: nat)
    requires x <= y <= |s|
  {
    forall p :: x <= p < y && WordStart(s, p) ==> PhraseWord(L, E, s[p..WordEnd(s, p)])
  }

  lemma WordsJoin(L: set<string>, E: set<string>, s: string, x: nat, y: nat, z: nat)
    requires x <= y <= z <= |s| && WordsIn(L, E, s, x, y) && WordsIn(L, E, s, y, z)
    ensures WordsIn(L, E, s, x, z)
  {
  }

  /** No word starts where there is no word character. */
  lemma NoWordsIn(L: set<string>, E: set<string>, s: string, x: nat, y: nat)
    requires x <= y <= |s| && forall k :: x <= k < y ==> !WordChar(s[k])
    ensures WordsIn(L, E, s, x, y)
  {
  }

  /** A phrase word from `x` to its end `y`: no other word starts inside it. */
  lemma OneWordIn(L: set<string>, E: set<string>, s: string, x: nat, y: nat)
    requires x <= y <= |s| && WordEnd(s, x) == y && PhraseWord(L, E, s[x..y])
    ensures WordsIn(L, E, s, x, y)
  {
  }

  /** Every word in the head the recognizer reads from `i` is a phrase word. */
  lemma {:induction false} HeadWords(L: set<string>, E: set<string>, s: string, i: nat)
    requires i <= |s| && ParseHead(L, E, s, i).Some?
    ensures WordsIn(L, E, s, i, ParseHead(L, E, s, i).value)
    decreases |s| - i, 0
  {
    if i < |s| && s[i] == '(' {
      var a, b, c := SpdxLicensesParser.GroupRead(L, E, s, i);
      CompoundWords(L, E, s, a);
      NoWordsIn(L, E, s, i, a);
      NoWordsIn(L, E, s, b, c + 1);
      WordsJoin(L, E, s, i, a, b);
      WordsJoin(L, E, s, i, b, c + 1);
    } else {
      var w := WordEnd(s, i);
      var a := SkipSpace(s, w);
      var b := WordEnd(s, a);
      OneWordIn(L, E, s, i, w);
      if a > w && IsWithWord(s[a..b]) {
        var c := SkipSpace(s, b);
        var d := WordEnd(s, c);
        assert ParseHead(L, E, s, i).value == d;
        NoWordsIn(L, E, s, w, a);
        OneWordIn(L, E, s, a, b);
        NoWordsIn(L, E, s, b, c);
        OneWordIn(L, E, s, c, d);
        WordsJoin(L, E, s, i, w, a);
        WordsJoin(L, E, s, i, a, b);
        WordsJoin(L, E, s, i, b, c);
        WordsJoin(L, E, s, i, c, d);
      }
    }
  }

  /** Every word in the compound expression the recognizer reads from `i` is a phrase word. */
  lemma {:induction false} CompoundWords(L: set<string>, E: set<string>, s: string, i: nat)
    requires i <= |s| && ParseCompound(L, E, s, i).Some?
    ensures WordsIn(L, E, s, i, ParseCompound(L, E, s, i).value)
    decreases |s| - i, 1
  {
    var h := ParseHead(L, E, s, i).value;
    HeadWords(L, E, s, i);
    var a := SkipSpace(s, h);
    var b := WordEnd(s, a);
    if a > h && IsOperator(s[a..b]) {
      var c := SkipSpace(s, b);
      var r := ParseCompound(L, E, s, c).value;
      CompoundWords(L, E, s, c);
      NoWordsIn(L, E, s, h, a);
      OneWordIn(L, E, s, a, b);
      NoWordsIn(L, E, s, b, c);
      WordsJoin(L, E, s, i, h, a);
      WordsJoin(L, E, s, i, a, b);
      WordsJoin(L, E, s, i, b, c);
      WordsJoin(L, E, s, i, c, r);
    }
  }

  /**
   * `NONE` and `NOASSERTION` are valid only as the whole expression: when
   * neither is a table identifier, no other valid expression has either of
   * them as one of its words.
   */
  lemma NoneOnlyAlone(L: set<string>, E: set<string>, s: string, p: nat)
    requires Sane(L, E) && "NONE" !in L && "NOASSERTION" !in L && "NONE" !in E && "NOASSERTION" !in E
    requires LicenseExpression(L, E, s) && s != "NONE" && s != "NOASSERTION"
    requires p < |s| && WordStart(s, p)
    ensures s[p..WordEnd(s, p)] != "NONE" && s[p..WordEnd(s, p)] != "NOASSERTION"
  {
    assert Compound(L, E, s);
    CompoundExact(L, E, s);
    CompoundWords(L, E, s, 0);
    assert PhraseWord(L, E, s[p..WordEnd(s, p)]);
    NoneIsNoPhraseWord(L, E);
  }

  /** Neither `NONE` nor `NOASSERTION` is a phrase word when no table holds it. */
  lemma NoneIsNoPhraseWord(L: set<string>, E: set<string>)
    requires "NONE" !in L && "NOASSERTION" !in L && "NONE" !in E && "NOASSERTION" !in E
    ensures !PhraseWord(L, E, "NONE") && !PhraseWord(L, E, "NOASSERTION")
  {
    assert !LicenseRef("NONE") && !LicenseRef("NOASSERTION");
  }
}
