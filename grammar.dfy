/**
 * `SpdxLicenses::isValidLicenseString`: the recursive `DEFINE` grammar of the
 * SPDX license-expression syntax (Annex D of the SPDX specification 2.2),
 * written as predicates over a string, parameterised by the set `L` of
 * license identifiers and the set `E` of exception identifiers. Each rule is
 * the language of the named group of the same name; `x` mode ignores the
 * layout blanks of the pattern, so only its `\s` stand for whitespace.
 */
module SpdxLicenses {
  import opened Common
  import opened Store
  import opened Normalize

  /** `[\pL\pN\-\.]`, restricted to ASCII letters and digits. */
  predicate IdChar(c: char) {
    IsAsciiLetter(c) || IsDigit(c) || c == '-' || c == '.'
  }

  /** `idstring`: one or more id characters. */
  predicate IdString(s: string) {
    |s| >= 1 && forall k :: 0 <= k < |s| ==> IdChar(s[k])
  }

  predicate HasPrefix(s: string, p: string) {
    |p| <= |s| && s[..|p|] == p
  }

  /** `LicenseRef-(?&idstring)` */
  predicate LicenseRefTail(s: string) {
    HasPrefix(s, "LicenseRef-") && IdString(s[11..])
  }

  /** `licenseref`: `(?:DocumentRef-(?&idstring):)?LicenseRef-(?&idstring)` */
  predicate LicenseRef(s: string) {
    || LicenseRefTail(s)
    || (HasPrefix(s, "DocumentRef-") &&
        exists i :: 12 < i < |s| && IdString(s[12..i]) && s[i] == ':' && LicenseRefTail(s[i + 1..]))
  }

  /** `simple_expression`: a license id, a license id and `+`, or a license reference. */
  predicate Simple(L: set<string>, s: string) {
    || s in L
    || (|s| > 0 && s[|s| - 1] == '+' && s[..|s| - 1] in L)
    || LicenseRef(s)
  }

  /** `\s+` */
  predicate Spaces(s: string) {
    |s| > 0 && AllSpace(s)
  }

  predicate IsWithWord(w: string) {
    w == "with" || w == "WITH"
  }

  predicate IsOperator(w: string) {
    w == "and" || w == "AND" || w == "or" || w == "OR"
  }

  /** `s` splits at `i`, `j`, `j + 4` and `k` into a simple expression, whitespace, `with` or `WITH`, whitespace and an exception id. */
  predicate WithSplit(L: set<string>, E: set<string>, s: string, i: int, j: int, k: int)
    requires 0 <= i < j && j + 4 < k <= |s|
  {
    Simple(L, s[..i]) && Spaces(s[i..j]) && IsWithWord(s[j..j + 4]) && Spaces(s[j + 4..k]) && s[k..] in E
  }

  /** `(?&simple_expression) \s+ (?:with|WITH) \s+ (?&licenseexceptionid)` */
  predicate WithExpression(L: set<string>, E: set<string>, s: string) {
    exists i, j, k :: 0 <= i < j && j + 4 < k <= |s| && WithSplit(L, E, s, i, j, k)
  }

  /** `\( \s* (?&compound_expression) \s* \)` */
  predicate Parenthesised(L: set<string>, E: set<string>, s: string)
    decreases |s|, 0
  {
    |s| >= 2 && s[0] == '(' && s[|s| - 1] == ')' &&
    exists i, j :: 1 <= i <= j <= |s| - 1 &&
      AllSpace(s[1..i]) && AllSpace(s[j..|s| - 1]) && Compound(L, E, s[i..j])
  }

  /** `compound_head`: a simple expression, optionally `WITH` an exception, or a parenthesised compound. */
  predicate Head(L: set<string>, E: set<string>, s: string)
    decreases |s|, 1
  {
    Simple(L, s) || WithExpression(L, E, s) || Parenthesised(L, E, s)
  }

  /** `compound_expression`: a head, optionally followed by an operator and another compound expression. */
  predicate Compound(L: set<string>, E: set<string>, s: string)
    decreases |s|, 2
  {
    || Head(L, E, s)
    || exists i, j, k, l :: 0 <= i < j < k < l <= |s| &&
         Head(L, E, s[..i]) && Spaces(s[i..j]) && IsOperator(s[j..k]) && Spaces(s[k..l]) && Compound(L, E, s[l..])
  }

  /** `^(?&license_expression)$` */
  predicate LicenseExpression(L: set<string>, E: set<string>, s: string) {
    s == "NONE" || s == "NOASSERTION" || Compound(L, E, s) || Simple(L, s)
  }

  /**
   * An id as the pattern reads it. `preg_quote` escapes every metacharacter
   * but leaves whitespace as it is, and `x` mode skips unescaped whitespace:
   * the id's blanks drop out and its other characters stay, in order.
   */
  function PatternText(id: string): (r: string)
    ensures |r| <= |id|
    ensures NoSpace(r)
    decreases |id|
  {
    if id == [] then []
    else (if IsSpace(id[0]) then [] else [id[0]]) + PatternText(id[1..])
  }

  /** Each character other than whitespace occurs as often in the reading as in the id. */
  lemma {:induction false} PatternTextCounts(id: string, c: char)
    requires !IsSpace(c)
    ensures CountChar(PatternText(id), c) == CountChar(id, c)
    decreases |id|
  {
    if id != [] {
      var head := if IsSpace(id[0]) then [] else [id[0]];
      assert id == [id[0]] + id[1..];
      PatternTextCounts(id[1..], c);
      CountCharAppend(head, PatternText(id[1..]), c);
      CountCharAppend([id[0]], id[1..], c);
      assert [id[0]][..0] == [];
      if head == [] {
        assert id[0] != c;
      }
    }
  }

  /** An id without whitespace reads as itself. */
  lemma {:induction false} PatternTextUnspaced(id: string)
    requires NoSpace(id)
    ensures PatternText(id) == id
    decreases |id|
  {
    if id != [] {
      PatternTextUnspaced(id[1..]);
      assert id == [id[0]] + id[1..];
    }
  }

  /** Reading a concatenation reads each part. */
  lemma {:induction false} PatternTextAppend(a: string, b: string)
    ensures PatternText(a + b) == PatternText(a) + PatternText(b)
    decreases |a|
  {
    if a == [] {
      assert a + b == b;
    } else {
      var head := if IsSpace(a[0]) then [] else [a[0]];
      assert (a + b)[0] == a[0] && (a + b)[1..] == a[1..] + b;
      assert PatternText(a + b) == head + PatternText(a[1..] + b);
      PatternTextAppend(a[1..], b);
      assert PatternText(a) == head + PatternText(a[1..]);
    }
  }

  /**
   * The strings the alternation `implode('|', array_map('preg_quote', $ids))`
   * matches under the `x` flag: each id as the pattern reads it, and the
   * empty string when there is no id at all, since the empty pattern
   * matches it.
   */
  function Alternation(ids: set<string>): (r: set<string>)
    ensures ids == {} ==> r == {""}
    ensures r != {}
  {
    if ids == {} then {""}
    else
      var r := set id | id in ids :: PatternText(id);
      assert forall id :: id in ids ==> PatternText(id) in r;
      r
  }

  /** What the alternation of a non-empty table matches: exactly the readings of its ids. */
  lemma AlternationMembers(ids: set<string>, x: string)
    requires ids != {}
    ensures x in Alternation(ids) <==> exists id :: id in ids && PatternText(id) == x
  {
  }

  /** An id without whitespace is matched as it is. */
  lemma AlternationKeeps(ids: set<string>, id: string)
    requires id in ids && NoSpace(id)
    ensures id in Alternation(ids)
  {
    PatternTextUnspaced(id);
  }

  /** `isValidLicenseString($license)` over the alternations built from the two tables. */
  predicate IsValidLicenseString(store: IdentifierStore, license: string) {
    LicenseExpression(Alternation(LicenseIds(store)), Alternation(ExceptionIds(store)), license)
  }

  /** `validate($license)`: the normalised argument checked against the grammar. */
  function Validate(store: IdentifierStore, license: Value): (r: Result<bool>)
    ensures r.Failure? <==> NormalizeArgument(license).Failure?
    ensures r.Failure? ==> r.error == NormalizeArgument(license).error
    ensures r.Success? ==> r.value == IsValidLicenseString(store, NormalizeArgument(license).value)
  {
    match NormalizeArgument(license)
    case Failure(e) => Failure(e)
    case Success(s) => Success(IsValidLicenseString(store, s))
  }

  // ---------------------------------------------------------------------------
  // What the grammar admits

  /** Every known license id is a valid expression, alone and with a trailing `+`. */
  lemma KnownLicenseAccepted(L: set<string>, E: set<string>, id: string)
    requires id in L
    ensures LicenseExpression(L, E, id)
    ensures LicenseExpression(L, E, id + "+")
  {
    assert (id + "+")[..|id + "+"| - 1] == id;
  }

  /** `LicenseRef-<idstring>` and `DocumentRef-<idstring>:LicenseRef-<idstring>` need no table entry. */
  lemma LicenseRefAccepted(L: set<string>, E: set<string>, doc: string, ref: string)
    requires IdString(doc) && IdString(ref)
    ensures LicenseExpression(L, E, "LicenseRef-" + ref)
    ensures LicenseExpression(L, E, "DocumentRef-" + doc + ":LicenseRef-" + ref)
  {
    var tail := "LicenseRef-" + ref;
    assert tail[..11] == "LicenseRef-" && tail[11..] == ref;
    assert LicenseRefTail(tail);
    var s := "DocumentRef-" + doc + ":" + tail;
    assert s == "DocumentRef-" + doc + ":LicenseRef-" + ref;
    var i := 12 + |doc|;
    assert s[..12] == "DocumentRef-" && s[12..i] == doc && s[i] == ':' && s[i + 1..] == tail;
    assert LicenseRef(s);
  }

  /** A simple expression, whitespace, `with` or `WITH`, whitespace and a known exception form a head. */
  lemma WithAccepted(L: set<string>, E: set<string>, a: string, sp1: string, w: string, sp2: string, e: string)
    requires Simple(L, a)
    requires Spaces(sp1) && IsWithWord(w) && Spaces(sp2) && e in E
    ensures Head(L, E, a + sp1 + w + sp2 + e)
    ensures LicenseExpression(L, E, a + sp1 + w + sp2 + e)
  {
    var s := a + sp1 + w + sp2 + e;
    var i, j := |a|, |a| + |sp1|;
    var k := j + 4 + |sp2|;
    assert s[..i] == a && s[i..j] == sp1 && s[j..j + 4] == w && s[j + 4..k] == sp2 && s[k..] == e;
    assert WithSplit(L, E, s, i, j, k);
  }

  /** A compound expression in parentheses, with any whitespace padding inside, is a head. */
  lemma ParenthesisedAccepted(L: set<string>, E: set<string>, pad1: string, c: string, pad2: string)
    requires AllSpace(pad1) && AllSpace(pad2) && Compound(L, E, c)
    ensures Head(L, E, "(" + pad1 + c + pad2 + ")")
    ensures LicenseExpression(L, E, "(" + pad1 + c + pad2 + ")")
  {
    var s := "(" + pad1 + c + pad2 + ")";
    var i, j := 1 + |pad1|, 1 + |pad1| + |c|;
    assert s[1..i] == pad1 && s[i..j] == c && s[j..|s| - 1] == pad2;
    assert Parenthesised(L, E, s);
  }

  /** A head, an operator with whitespace around it, and a compound expression form a compound expression. */
  lemma OperatorAccepted(L: set<string>, E: set<string>, h: string, sp1: string, op: string, sp2: string, c: string)
    requires Head(L, E, h) && Spaces(sp1) && IsOperator(op) && Spaces(sp2) && Compound(L, E, c)
    ensures Compound(L, E, h + sp1 + op + sp2 + c)
    ensures LicenseExpression(L, E, h + sp1 + op + sp2 + c)
  {
    var s := h + sp1 + op + sp2 + c;
    var i, j := |h|, |h| + |sp1|;
    var k := j + |op|;
    var l := k + |sp2|;
    assert s[..i] == h && s[i..j] == sp1 && s[j..k] == op && s[k..l] == sp2 && s[l..] == c;
  }
}
