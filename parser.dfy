/**
 * A deterministic, left-to-right recognizer for the license-expression
 * grammar of `SpdxLicenses`, independent of the existential definition in
 * module `SpdxLicenses`: it reads whitespace-separated words and decides at
 * each step from the next word alone. It is proved to accept exactly the
 * strings of the grammar whenever no table identifier is empty or contains
 * whitespace or a parenthesis.
 *
 * Many of the lemmas below (`SkipSpaceAt`, `WordEndAt`, the `Parse…`
 * step lemmas) hold without a proof of their own: each unfolds the
 * recognizer once, in a small context, so that the soundness and
 * completeness proofs call it instead of unfolding the recognizer themselves.
 */
module SpdxLicensesParser {
  import opened Common
  import opened SpdxLicenses

  /** A character that can be part of an identifier, an operator or `WITH`. */
  predicate WordChar(c: char) {
    !IsSpace(c) && c != '(' && c != ')'
  }

  predicate IsWord(w: string) {
    |w| > 0 && forall k :: 0 <= k < |w| ==> WordChar(w[k])
  }

  /** No identifier of either table is empty or contains whitespace or a parenthesis. */
  predicate Sane(L: set<string>, E: set<string>) {
    (forall id :: id in L ==> IsWord(id)) && (forall id :: id in E ==> IsWord(id))
  }

  /** The first offset from `i` on that is not whitespace. */
  function SkipSpace(s: string, i: nat): (r: nat)
    requires i <= |s|
    ensures i <= r <= |s|
    ensures forall k :: i <= k < r ==> IsSpace(s[k])
    ensures r == |s| || !IsSpace(s[r])
    decreases |s| - i
  {
    if i < |s| && IsSpace(s[i]) then SkipSpace(s, i + 1) else i
  }

  /** The end of the word that starts at `i`. */
  function WordEnd(s: string, i: nat): (r: nat)
    requires i <= |s|
    ensures i <= r <= |s|
    ensures forall k :: i <= k < r ==> WordChar(s[k])
    ensures r == |s| || !WordChar(s[r])
    decreases |s| - i
  {
    if i < |s| && WordChar(s[i]) then WordEnd(s, i + 1) else i
  }

  /** The end of the head that starts at `i`. */
  function ParseHead(L: set<string>, E: set<string>, s: string, i: nat): (r: Option<nat>)
    requires i <= |s|
    ensures r.Some? ==> i < r.value <= |s|
    decreases |s| - i, 0
  {
    if i < |s| && s[i] == '(' then
      var a := SkipSpace(s, i + 1);
      match ParseCompound(L, E, s, a)
      case None => None
      case Some(b) =>
        var c := SkipSpace(s, b);
        if c < |s| && s[c] == ')' then Some(c + 1) else None
    else
      var w := WordEnd(s, i);
      if w == i || !Simple(L, s[i..w]) then None
      else
        var a := SkipSpace(s, w);
        var b := WordEnd(s, a);
        if a > w && IsWithWord(s[a..b]) then
          var c := SkipSpace(s, b);
          var d := WordEnd(s, c);
          if c > b && s[c..d] in E then Some(d) else None
        else Some(w)
  }

  /** The end of the compound expression that starts at `i`. */
  function ParseCompound(L: set<string>, E: set<string>, s: string, i: nat): (r: Option<nat>)
    requires i <= |s|
    ensures r.Some? ==> i < r.value <= |s|
    decreases |s| - i, 1
  {
    match ParseHead(L, E, s, i)
    case None => None
    case Some(h) =>
      var a := SkipSpace(s, h);
      var b := WordEnd(s, a);
      if a > h && IsOperator(s[a..b]) then
        var c := SkipSpace(s, b);
        if c > b then ParseCompound(L, E, s, c) else None
      else Some(h)
  }

  /** The whole input is `NONE`, `NOASSERTION` or one compound expression. */
  predicate Recognize(L: set<string>, E: set<string>, s: string) {
    s == "NONE" || s == "NOASSERTION" || ParseCompound(L, E, s, 0) == Some(|s|)
  }

  // ---------------------------------------------------------------------------
  // Soundness: whatever the recognizer reads is a phrase of the grammar.

  lemma SpacesOf(s: string, x: nat, y: nat)
    requires x <= y <= |s| && forall k :: x <= k < y ==> IsSpace(s[k])
    ensures AllSpace(s[x..y])
  {
    assert forall k :: 0 <= k < y - x ==> s[x..y][k] == s[x + k];
  }

  /** A slice is the concatenation of five adjacent slices. */
  lemma Slices5(s: string, p0: nat, p1: nat, p2: nat, p3: nat, p4: nat, p5: nat)
    requires p0 <= p1 <= p2 <= p3 <= p4 <= p5 <= |s|
    ensures s[p0..p5] == s[p0..p1] + s[p1..p2] + s[p2..p3] + s[p3..p4] + s[p4..p5]
  {
    assert s[p0..p5] == s[p0..p1] + s[p1..p5];
    assert s[p1..p5] == s[p1..p2] + s[p2..p5];
    assert s[p2..p5] == s[p2..p3] + s[p3..p5];
    assert s[p3..p5] == s[p3..p4] + s[p4..p5];
  }

  /** `(`, spaces, a compound expression, spaces and `)`, found at the offsets of `s`, form a head. */
  lemma GroupAt(L: set<string>, E: set<string>, s: string, i: nat, a: nat, b: nat, c: nat)
    requires i < a <= b <= c < |s| && s[i] == '(' && s[c] == ')'
    requires forall k :: i + 1 <= k < a ==> IsSpace(s[k])
    requires forall k :: b <= k < c ==> IsSpace(s[k])
    requires Compound(L, E, s[a..b])
    ensures Head(L, E, s[i..c + 1])
  {
    SpacesOf(s, i + 1, a);
    SpacesOf(s, b, c);
    Slices5(s, i, i + 1, a, b, c, c + 1);
    assert s[i..i + 1] == "(" && s[c..c + 1] == ")";
    var pad1, inner, pad2 := s[i + 1..a], s[a..b], s[b..c];
    var t := s[i..c + 1];
    assert t == "(" + pad1 + inner + pad2 + ")";
    ParenthesisedAccepted(L, E, pad1, inner, pad2);
  }

  lemma {:induction false} ParenthesisedSound(L: set<string>, E: set<string>, s: string, i: nat)
    requires i < |s| && s[i] == '(' && ParseHead(L, E, s, i).Some?
    ensures Head(L, E, s[i..ParseHead(L, E, s, i).value])
    decreases |s| - i, 0, 0
  {
    var a, b, c := GroupRead(L, E, s, i);
    CompoundSound(L, E, s, a);
    GroupAt(L, E, s, i, a, b, c);
  }

  /** The offsets the recognizer reads in a parenthesised head. */
  lemma GroupRead(L: set<string>, E: set<string>, s: string, i: nat) returns (a: nat, b: nat, c: nat)
    requires i < |s| && s[i] == '(' && ParseHead(L, E, s, i).Some?
    ensures a == SkipSpace(s, i + 1) && ParseCompound(L, E, s, a) == Some(b)
    ensures i < a <= b <= c < |s| && s[c] == ')' && ParseHead(L, E, s, i).value == c + 1
    ensures forall k :: i + 1 <= k < a ==> IsSpace(s[k])
    ensures forall k :: b <= k < c ==> IsSpace(s[k])
  {
    a := SkipSpace(s, i + 1);
    b := ParseCompound(L, E, s, a).value;
    c := SkipSpace(s, b);
  }

  lemma WordHeadSound(L: set<string>, E: set<string>, s: string, i: nat)
    requires i <= |s| && !(i < |s| && s[i] == '(') && ParseHead(L, E, s, i).Some?
    ensures Head(L, E, s[i..ParseHead(L, E, s, i).value])
  {
    var w := WordEnd(s, i);
    var a := SkipSpace(s, w);
    var b := WordEnd(s, a);
    if a > w && IsWithWord(s[a..b]) {
      var c := SkipSpace(s, b);
      var d := WordEnd(s, c);
      assert ParseHead(L, E, s, i).value == d;
      SpacesOf(s, w, a);
      SpacesOf(s, b, c);
      Slices5(s, i, w, a, b, c, d);
      WithAccepted(L, E, s[i..w], s[w..a], s[a..b], s[b..c], s[c..d]);
    }
  }

  lemma {:induction false} HeadSound(L: set<string>, E: set<string>, s: string, i: nat)
    requires i <= |s| && ParseHead(L, E, s, i).Some?
    ensures Head(L, E, s[i..ParseHead(L, E, s, i).value])
    decreases |s| - i, 0, 1
  {
    if i < |s| && s[i] == '(' {
      ParenthesisedSound(L, E, s, i);
    } else {
      WordHeadSound(L, E, s, i);
    }
  }

  lemma {:induction false} CompoundSound(L: set<string>, E: set<string>, s: string, i: nat)
    requires i <= |s| && ParseCompound(L, E, s, i).Some?
    ensures Compound(L, E, s[i..ParseCompound(L, E, s, i).value])
    decreases |s| - i, 1, 0
  {
    var h := ParseHead(L, E, s, i).value;
    HeadSound(L, E, s, i);
    var a := SkipSpace(s, h);
    var b := WordEnd(s, a);
    if a > h && IsOperator(s[a..b]) {
      var c := SkipSpace(s, b);
      var r := ParseCompound(L, E, s, c).value;
      CompoundSound(L, E, s, c);
      SpacesOf(s, h, a);
      SpacesOf(s, b, c);
      Slices5(s, i, h, a, b, c, r);
      OperatorAccepted(L, E, s[i..h], s[h..a], s[a..b], s[b..c], s[c..r]);
    }
  }

  /** The recognizer accepts only strings of the grammar, whatever the tables. */
  lemma RecognizeSound(L: set<string>, E: set<string>, s: string)
    requires Recognize(L, E, s)
    ensures LicenseExpression(L, E, s)
  {
    if s != "NONE" && s != "NOASSERTION" {
      CompoundSound(L, E, s, 0);
      assert s[0..|s|] == s;
    }
  }

  // ---------------------------------------------------------------------------
  // Completeness: with sane tables, every phrase of the grammar is read whole.

  /** What can follow a compound expression: the end, or whitespace and `)`. */
  predicate FollowCompound(s: string, j: nat)
    requires j <= |s|
  {
    j == |s| || (SkipSpace(s, j) < |s| && s[SkipSpace(s, j)] == ')')
  }

  /** What can follow a head: what follows a compound expression, or whitespace and an operator. */
  predicate FollowHead(s: string, j: nat)
    requires j <= |s|
  {
    || FollowCompound(s, j)
    || (SkipSpace(s, j) > j && IsOperator(s[SkipSpace(s, j)..WordEnd(s, SkipSpace(s, j))]))
  }

  lemma {:induction false} SkipSpaceAt(s: string, x: nat, y: nat)
    requires x <= y <= |s| && (forall k :: x <= k < y ==> IsSpace(s[k])) && (y == |s| || !IsSpace(s[y]))
    ensures SkipSpace(s, x) == y
    decreases y - x
  {
    if x < y {
      SkipSpaceAt(s, x + 1, y);
    }
  }

  lemma {:induction false} WordEndAt(s: string, x: nat, y: nat)
    requires x <= y <= |s| && (forall k :: x <= k < y ==> WordChar(s[k])) && (y == |s| || !WordChar(s[y]))
    ensures WordEnd(s, x) == y
    decreases y - x
  {
    if x < y {
      WordEndAt(s, x + 1, y);
    }
  }

  lemma WordAt(s: string, x: nat, y: nat)
    requires x <= y <= |s| && IsWord(s[x..y])
    ensures forall k :: x <= k < y ==> WordChar(s[k])
  {
    assert forall k :: x <= k < y ==> s[k] == s[x..y][k - x];
  }

  lemma SpaceAt(s: string, x: nat, y: nat)
    requires x <= y <= |s| && AllSpace(s[x..y])
    ensures forall k :: x <= k < y ==> IsSpace(s[k])
  {
    assert forall k :: x <= k < y ==> s[k] == s[x..y][k - x];
  }

  lemma KeywordIsWord(w: string)
    requires IsOperator(w) || IsWithWord(w)
    ensures IsWord(w)
  {
  }

  lemma ConcatWord(a: string, b: string)
    requires IsWord(a) && IsWord(b)
    ensures IsWord(a + b)
  {
    assert forall k :: 0 <= k < |a| ==> (a + b)[k] == a[k];
    assert forall k :: |a| <= k < |a + b| ==> (a + b)[k] == b[k - |a|];
  }

  lemma IdStringIsWord(s: string)
    requires IdString(s)
    ensures IsWord(s)
  {
  }

  lemma LicenseRefTailIsWord(t: string)
    requires LicenseRefTail(t)
    ensures IsWord(t)
  {
    var w := "LicenseRef-";
    assert IsWord(w) by {
      assert forall k :: 0 <= k < |w| ==> IdChar(w[k]);
    }
    IdStringIsWord(t[11..]);
    assert t == w + t[11..];
    ConcatWord(w, t[11..]);
  }

  /** `DocumentRef-<idstring>:` followed by a word is a word. */
  lemma DocumentRefIsWord(t: string, i: nat)
    requires HasPrefix(t, "DocumentRef-") && 12 < i < |t|
    requires IdString(t[12..i]) && t[i] == ':' && IsWord(t[i + 1..])
    ensures IsWord(t)
  {
    var w := "DocumentRef-";
    assert forall k :: 0 <= k < |w| ==> IdChar(w[k]);
    forall k | 0 <= k < |t|
      ensures WordChar(t[k])
    {
      if k < 12 {
        assert t[k] == t[..12][k];
      } else if k < i {
        assert t[k] == t[12..i][k - 12];
      } else if i < k {
        assert t[k] == t[i + 1..][k - i - 1];
      }
    }
  }

  lemma LicenseRefIsWord(t: string)
    requires LicenseRef(t)
    ensures IsWord(t)
  {
    if LicenseRefTail(t) {
      LicenseRefTailIsWord(t);
    } else {
      var i :| 12 < i < |t| && IdString(t[12..i]) && t[i] == ':' && LicenseRefTail(t[i + 1..]);
      LicenseRefTailIsWord(t[i + 1..]);
      DocumentRefIsWord(t, i);
    }
  }

  lemma SimpleIsWord(L: set<string>, t: string)
    requires (forall id :: id in L ==> IsWord(id)) && Simple(L, t)
    ensures IsWord(t)
  {
    if t in L {
    } else if |t| > 0 && t[|t| - 1] == '+' && t[..|t| - 1] in L {
      assert t == t[..|t| - 1] + "+";
      ConcatWord(t[..|t| - 1], "+");
    } else {
      LicenseRefIsWord(t);
    }
  }

  /** With sane tables a head, and so a compound expression, starts with `(` or a word character. */
  lemma HeadStart(L: set<string>, E: set<string>, t: string)
    requires Sane(L, E) && Head(L, E, t)
    ensures |t| > 0 && (t[0] == '(' || WordChar(t[0]))
    ensures t[0] != '(' ==> Simple(L, t) || WithExpression(L, E, t)
  {
    if Simple(L, t) {
      SimpleIsWord(L, t);
    } else if WithExpression(L, E, t) {
      var i, j, k :| 0 <= i < j && j + 4 < k <= |t| && WithSplit(L, E, t, i, j, k);
      NoEmptyHead(L, E);
      assert t[..0] == "";
      SimpleIsWord(L, t[..i]);
      assert t[0] == t[..i][0];
    }
  }

  lemma CompoundStart(L: set<string>, E: set<string>, t: string)
    requires Sane(L, E) && Compound(L, E, t)
    ensures |t| > 0 && !IsSpace(t[0])
  {
    if Head(L, E, t) {
      HeadStart(L, E, t);
    } else {
      var i, j, k, l :| 0 <= i < j < k < l <= |t| &&
        Head(L, E, t[..i]) && Spaces(t[i..j]) && IsOperator(t[j..k]) && Spaces(t[k..l]) && Compound(L, E, t[l..]);
      NoEmptyHead(L, E);
      HeadStart(L, E, t[..i]);
      assert t[0] == t[..i][0];
    }
  }

  /**
   * Where a head may end: the word before it does not go on, and no `with`
   * or `WITH` comes after whitespace.
   */
  predicate Boundary(s: string, j: nat)
    requires j <= |s|
  {
    && (j == |s| || !WordChar(s[j]))
    && !(SkipSpace(s, j) > j && IsWithWord(s[SkipSpace(s, j)..WordEnd(s, SkipSpace(s, j))]))
  }

  lemma FollowBoundary(s: string, j: nat)
    requires j <= |s| && FollowHead(s, j)
    ensures Boundary(s, j)
  {
    FollowEndsWord(s, j);
    FollowIsNotWith(s, j);
  }

  /** Nothing that may follow a head continues the word before it. */
  lemma FollowEndsWord(s: string, j: nat)
    requires j <= |s| && FollowHead(s, j)
    ensures j == |s| || !WordChar(s[j])
  {
    if j < |s| && !IsSpace(s[j]) {
      assert SkipSpace(s, j) == j;
    }
  }

  /** Nothing that may follow a head begins with `with` or `WITH`. */
  lemma FollowIsNotWith(s: string, j: nat)
    requires j <= |s| && FollowHead(s, j)
    ensures !(SkipSpace(s, j) > j && IsWithWord(s[SkipSpace(s, j)..WordEnd(s, SkipSpace(s, j))]))
  {
    var a := SkipSpace(s, j);
    if FollowCompound(s, j) && j < |s| {
      assert WordEnd(s, a) == a;
    }
  }

  /** Nothing that may follow a compound expression begins with an operator. */
  lemma FollowIsNotOperator(s: string, j: nat)
    requires j <= |s| && FollowCompound(s, j)
    ensures !(SkipSpace(s, j) > j && IsOperator(s[SkipSpace(s, j)..WordEnd(s, SkipSpace(s, j))]))
  {
    if j < |s| {
      assert WordEnd(s, SkipSpace(s, j)) == SkipSpace(s, j);
    }
  }

  // One unfolding of the recognizer at known offsets.

  lemma ParseSimple(L: set<string>, E: set<string>, s: string, i: nat, j: nat)
    requires i < j <= |s| && s[i] != '(' && WordEnd(s, i) == j && Simple(L, s[i..j])
    requires !(SkipSpace(s, j) > j && IsWithWord(s[SkipSpace(s, j)..WordEnd(s, SkipSpace(s, j))]))
    ensures ParseHead(L, E, s, i) == Some(j)
  {
  }

  lemma ParseWith(L: set<string>, E: set<string>, s: string, i: nat, p: nat, q: nat, r: nat, j: nat)
    requires i < p < q && q + 4 < r <= j <= |s| && s[i] != '('
    requires WordEnd(s, i) == p && Simple(L, s[i..p])
    requires SkipSpace(s, p) == q && WordEnd(s, q) == q + 4 && IsWithWord(s[q..q + 4])
    requires SkipSpace(s, q + 4) == r && WordEnd(s, r) == j && s[r..j] in E
    ensures ParseHead(L, E, s, i) == Some(j)
  {
  }

  lemma ParseGroup(L: set<string>, E: set<string>, s: string, i: nat, x: nat, y: nat, j: nat)
    requires i < x <= y < j <= |s| && s[i] == '(' && s[j - 1] == ')'
    requires SkipSpace(s, i + 1) == x && ParseCompound(L, E, s, x) == Some(y) && SkipSpace(s, y) == j - 1
    ensures ParseHead(L, E, s, i) == Some(j)
  {
  }

  lemma ParseSingle(L: set<string>, E: set<string>, s: string, i: nat, j: nat)
    requires i <= j <= |s| && ParseHead(L, E, s, i) == Some(j)
    requires !(SkipSpace(s, j) > j && IsOperator(s[SkipSpace(s, j)..WordEnd(s, SkipSpace(s, j))]))
    ensures ParseCompound(L, E, s, i) == Some(j)
  {
  }

  lemma ParseJoin(L: set<string>, E: set<string>, s: string, i: nat, p: nat, q: nat, r: nat, u: nat, j: nat)
    requires i < p < q < r < u <= j <= |s|
    requires ParseHead(L, E, s, i) == Some(p)
    requires SkipSpace(s, p) == q && WordEnd(s, q) == r && IsOperator(s[q..r])
    requires SkipSpace(s, r) == u && ParseCompound(L, E, s, u) == Some(j)
    ensures ParseCompound(L, E, s, i) == Some(j)
  {
  }

  // One unfolding of the recognizer where it gives up.

  lemma ParseWordNone(L: set<string>, E: set<string>, s: string, i: nat, w: nat)
    requires i <= |s| && !(i < |s| && s[i] == '(') && WordEnd(s, i) == w
    requires w == i || !Simple(L, s[i..w])
    ensures ParseHead(L, E, s, i) == None && ParseCompound(L, E, s, i) == None
  {
  }

  lemma ParseWithNone(L: set<string>, E: set<string>, s: string, i: nat, p: nat, q: nat, r: nat, c: nat, d: nat)
    requires i <= |s| && !(i < |s| && s[i] == '(') && WordEnd(s, i) == p
    requires SkipSpace(s, p) == q && q > p && WordEnd(s, q) == r && IsWithWord(s[q..r])
    requires SkipSpace(s, r) == c && WordEnd(s, c) == d && !(c > r && s[c..d] in E)
    ensures ParseHead(L, E, s, i) == None && ParseCompound(L, E, s, i) == None
  {
  }

  lemma ParseGroupNone(L: set<string>, E: set<string>, s: string, i: nat, a: nat)
    requires i < |s| && s[i] == '(' && SkipSpace(s, i + 1) == a
    requires match ParseCompound(L, E, s, a)
      case None => true
      case Some(b) => !(SkipSpace(s, b) < |s| && s[SkipSpace(s, b)] == ')')
    ensures ParseHead(L, E, s, i) == None && ParseCompound(L, E, s, i) == None
  {
  }

  lemma ParseJoinStep(L: set<string>, E: set<string>, s: string, i: nat, p: nat, q: nat, r: nat, u: nat)
    requires i <= |s| && ParseHead(L, E, s, i) == Some(p)
    requires SkipSpace(s, p) == q && q > p && WordEnd(s, q) == r && IsOperator(s[q..r]) && SkipSpace(s, r) == u
    ensures ParseCompound(L, E, s, i) == (if u > r then ParseCompound(L, E, s, u) else None)
  {
  }

  lemma SliceOfSlice(s: string, i: nat, j: nat, x: nat, y: nat)
    requires i <= j <= |s| && x <= y <= j - i
    ensures s[i..j][x..y] == s[i + x..i + y]
  {
    assert forall k :: 0 <= k < y - x ==> s[i..j][x..y][k] == s[i + x + k];
  }

  lemma SimpleHeadComplete(L: set<string>, E: set<string>, s: string, i: nat, j: nat)
    requires Sane(L, E) && i <= j <= |s| && Simple(L, s[i..j]) && Boundary(s, j)
    ensures ParseHead(L, E, s, i) == Some(j)
  {
    SimpleIsWord(L, s[i..j]);
    WordAt(s, i, j);
    WordEndAt(s, i, j);
    ParseSimple(L, E, s, i, j);
  }

  // Facts about a slice of a slice, moved to the offsets of the whole string.

  lemma SimpleAt(L: set<string>, s: string, i: nat, j: nat, x: nat, y: nat)
    requires i <= j <= |s| && x <= y <= j - i && Simple(L, s[i..j][x..y])
    ensures Simple(L, s[i + x..i + y])
  {
    SliceOfSlice(s, i, j, x, y);
  }

  lemma HeadAt(L: set<string>, E: set<string>, s: string, i: nat, j: nat, x: nat, y: nat)
    requires i <= j <= |s| && x <= y <= j - i && Head(L, E, s[i..j][x..y])
    ensures Head(L, E, s[i + x..i + y])
  {
    SliceOfSlice(s, i, j, x, y);
  }

  lemma CompoundAt(L: set<string>, E: set<string>, s: string, i: nat, j: nat, x: nat, y: nat)
    requires i <= j <= |s| && x <= y <= j - i && Compound(L, E, s[i..j][x..y])
    ensures Compound(L, E, s[i + x..i + y])
  {
    SliceOfSlice(s, i, j, x, y);
  }

  lemma AllSpaceAt(s: string, i: nat, j: nat, x: nat, y: nat)
    requires i <= j <= |s| && x <= y <= j - i && AllSpace(s[i..j][x..y])
    ensures AllSpace(s[i + x..i + y])
  {
    SliceOfSlice(s, i, j, x, y);
  }

  lemma KeywordAt(s: string, i: nat, j: nat, x: nat, y: nat)
    requires i <= j <= |s| && x <= y <= j - i
    ensures IsWithWord(s[i..j][x..y]) ==> IsWithWord(s[i + x..i + y])
    ensures IsOperator(s[i..j][x..y]) ==> IsOperator(s[i + x..i + y])
  {
    SliceOfSlice(s, i, j, x, y);
  }

  lemma MemberAt(E: set<string>, s: string, i: nat, j: nat, x: nat, y: nat)
    requires i <= j <= |s| && x <= y <= j - i && s[i..j][x..y] in E
    ensures s[i + x..i + y] in E
  {
    SliceOfSlice(s, i, j, x, y);
  }

  lemma PrefixSuffix(t: string, x: nat)
    requires x <= |t|
    ensures t[..x] == t[0..x] && t[x..] == t[x..|t|]
  {
  }

  /** With sane tables no head is empty. */
  lemma NoEmptyHead(L: set<string>, E: set<string>)
    requires Sane(L, E)
    ensures !Simple(L, "") && !Head(L, E, "")
  {
  }

  lemma WithChoose(L: set<string>, E: set<string>, t: string) returns (p: nat, q: nat, r: nat)
    requires Sane(L, E) && WithExpression(L, E, t)
    ensures 0 < p < q && q + 4 < r <= |t|
    ensures Simple(L, t[..p]) && Spaces(t[p..q]) && IsWithWord(t[q..q + 4]) && Spaces(t[q + 4..r]) && t[r..] in E
  {
    var i, j, k :| 0 <= i < j && j + 4 < k <= |t| && WithSplit(L, E, t, i, j, k);
    NoEmptyHead(L, E);
    assert t[..0] == "";
    p, q, r := i, j, k;
  }

  /** The witnesses of `WithExpression` on the slice `s[i..j]`, moved to the offsets of `s`. */
  lemma WithTransfer(L: set<string>, E: set<string>, s: string, i: nat, j: nat, p: nat, q: nat, r: nat)
    requires i <= j <= |s| && 0 < p < q && q + 4 < r <= j - i
    requires Simple(L, s[i..j][..p]) && Spaces(s[i..j][p..q]) && IsWithWord(s[i..j][q..q + 4])
    requires Spaces(s[i..j][q + 4..r]) && s[i..j][r..] in E
    ensures Simple(L, s[i..i + p]) && Spaces(s[i + p..i + q]) && IsWithWord(s[i + q..i + q + 4])
    ensures Spaces(s[i + q + 4..i + r]) && s[i + r..j] in E
  {
    var t := s[i..j];
    PrefixSuffix(t, p);
    PrefixSuffix(t, r);
    SimpleAt(L, s, i, j, 0, p);
    AllSpaceAt(s, i, j, p, q);
    KeywordAt(s, i, j, q, q + 4);
    AllSpaceAt(s, i, j, q + 4, r);
    MemberAt(E, s, i, j, r, j - i);
  }

  lemma WithHeadComplete(L: set<string>, E: set<string>, s: string, i: nat, j: nat)
    requires Sane(L, E) && i <= j <= |s| && WithExpression(L, E, s[i..j]) && Boundary(s, j)
    ensures ParseHead(L, E, s, i) == Some(j)
  {
    var p, q, r := WithChoose(L, E, s[i..j]);
    WithTransfer(L, E, s, i, j, p, q, r);
    WithOffsetsComplete(L, E, s, i, i + p, i + q, i + r, j);
  }

  lemma WithOffsetsComplete(L: set<string>, E: set<string>, s: string, i: nat, p: nat, q: nat, r: nat, j: nat)
    requires Sane(L, E) && i < p < q && q + 4 < r <= j <= |s| && Boundary(s, j)
    requires Simple(L, s[i..p]) && Spaces(s[p..q]) && IsWithWord(s[q..q + 4]) && Spaces(s[q + 4..r]) && s[r..j] in E
    ensures ParseHead(L, E, s, i) == Some(j)
  {
    SimpleIsWord(L, s[i..p]);
    WordAt(s, i, p);
    SpaceAt(s, p, q);
    KeywordIsWord(s[q..q + 4]);
    WordAt(s, q, q + 4);
    SpaceAt(s, q + 4, r);
    WordAt(s, r, j);
    WordEndAt(s, i, p);
    SkipSpaceAt(s, p, q);
    WordEndAt(s, q, q + 4);
    SkipSpaceAt(s, q + 4, r);
    WordEndAt(s, r, j);
    ParseWith(L, E, s, i, p, q, r, j);
  }

  lemma ParenChoose(L: set<string>, E: set<string>, t: string) returns (x: nat, y: nat)
    requires Parenthesised(L, E, t)
    ensures |t| >= 2 && t[0] == '(' && t[|t| - 1] == ')'
    ensures 1 <= x <= y <= |t| - 1 && AllSpace(t[1..x]) && AllSpace(t[y..|t| - 1]) && Compound(L, E, t[x..y])
  {
    x, y :| 1 <= x <= y <= |t| - 1 && AllSpace(t[1..x]) && AllSpace(t[y..|t| - 1]) && Compound(L, E, t[x..y]);
  }

  lemma ParenTransfer(L: set<string>, E: set<string>, s: string, i: nat, j: nat, x: nat, y: nat)
    requires i <= j <= |s| && 1 <= x <= y <= j - i - 1
    requires s[i..j][0] == '(' && s[i..j][j - i - 1] == ')'
    requires AllSpace(s[i..j][1..x]) && AllSpace(s[i..j][y..j - i - 1]) && Compound(L, E, s[i..j][x..y])
    ensures s[i] == '(' && s[j - 1] == ')'
    ensures AllSpace(s[i + 1..i + x]) && AllSpace(s[i + y..j - 1]) && Compound(L, E, s[i + x..i + y])
  {
    AllSpaceAt(s, i, j, 1, x);
    AllSpaceAt(s, i, j, y, j - i - 1);
    CompoundAt(L, E, s, i, j, x, y);
  }

  lemma {:induction false} ParenHeadComplete(L: set<string>, E: set<string>, s: string, i: nat, j: nat)
    requires Sane(L, E) && i <= j <= |s| && Parenthesised(L, E, s[i..j])
    ensures ParseHead(L, E, s, i) == Some(j)
    decreases j - i, 0, 1
  {
    var x, y := ParenChoose(L, E, s[i..j]);
    ParenTransfer(L, E, s, i, j, x, y);
    GroupComplete(L, E, s, i, i + x, i + y, j);
  }

  /** A parenthesised group, at the offsets of `s`. */
  lemma {:induction false} GroupComplete(L: set<string>, E: set<string>, s: string, i: nat, x: nat, y: nat, j: nat)
    requires Sane(L, E) && i < x <= y < j <= |s| && s[i] == '(' && s[j - 1] == ')'
    requires AllSpace(s[i + 1..x]) && AllSpace(s[y..j - 1]) && Compound(L, E, s[x..y])
    ensures ParseHead(L, E, s, i) == Some(j)
    decreases j - i, 0, 0
  {
    ParenOffsets(L, E, s, i, x, y, j);
    CompoundComplete(L, E, s, x, y);
    ParseGroup(L, E, s, i, x, y, j);
  }

  /** The offsets inside a parenthesised group, as the recognizer finds them. */
  lemma ParenOffsets(L: set<string>, E: set<string>, s: string, i: nat, x: nat, y: nat, j: nat)
    requires Sane(L, E) && i < x <= y < j <= |s| && s[j - 1] == ')'
    requires AllSpace(s[i + 1..x]) && AllSpace(s[y..j - 1]) && Compound(L, E, s[x..y])
    ensures x < y && SkipSpace(s, i + 1) == x && SkipSpace(s, y) == j - 1 && FollowCompound(s, y)
  {
    CompoundStart(L, E, s[x..y]);
    assert s[x] == s[x..y][0];
    SpaceAt(s, i + 1, x);
    SpaceAt(s, y, j - 1);
    SkipSpaceAt(s, i + 1, x);
    SkipSpaceAt(s, y, j - 1);
  }

  lemma {:induction false} HeadComplete(L: set<string>, E: set<string>, s: string, i: nat, j: nat)
    requires Sane(L, E) && i <= j <= |s| && Head(L, E, s[i..j]) && Boundary(s, j)
    ensures ParseHead(L, E, s, i) == Some(j)
    decreases j - i, 0, 2
  {
    var alt := HeadCases(L, E, s[i..j]);
    if alt == 0 {
      SimpleHeadComplete(L, E, s, i, j);
    } else if alt == 1 {
      WithHeadComplete(L, E, s, i, j);
    } else {
      ParenHeadComplete(L, E, s, i, j);
    }
  }

  /** Which alternative of `compound_expression` derives `t`, with the witnesses of the second. */
  lemma CompoundCases(L: set<string>, E: set<string>, t: string) returns (single: bool, p: nat, q: nat, r: nat, u: nat)
    requires Sane(L, E) && Compound(L, E, t)
    ensures single ==> Head(L, E, t)
    ensures !single ==> 0 < p < q < r < u <= |t|
    ensures !single ==>
      Head(L, E, t[..p]) && Spaces(t[p..q]) && IsOperator(t[q..r]) && Spaces(t[r..u]) && Compound(L, E, t[u..])
  {
    if Head(L, E, t) {
      single, p, q, r, u := true, 0, 0, 0, 0;
    } else {
      single := false;
      NoEmptyHead(L, E);
      assert t[..0] == "";
      p, q, r, u :| 0 <= p < q < r < u <= |t| &&
        Head(L, E, t[..p]) && Spaces(t[p..q]) && IsOperator(t[q..r]) && Spaces(t[r..u]) && Compound(L, E, t[u..]);
    }
  }

  /** Which alternative of `compound_head` derives `t`. */
  lemma HeadCases(L: set<string>, E: set<string>, t: string) returns (alt: nat)
    requires Head(L, E, t)
    ensures alt <= 2
    ensures alt == 0 ==> Simple(L, t)
    ensures alt == 1 ==> WithExpression(L, E, t)
    ensures alt == 2 ==> Parenthesised(L, E, t)
  {
    alt := if Simple(L, t) then 0 else if WithExpression(L, E, t) then 1 else 2;
  }

  lemma JoinTransfer(L: set<string>, E: set<string>, s: string, i: nat, j: nat, p: nat, q: nat, r: nat, u: nat)
    requires i <= j <= |s| && 0 < p < q < r < u <= j - i
    requires Head(L, E, s[i..j][..p]) && Spaces(s[i..j][p..q]) && IsOperator(s[i..j][q..r])
    requires Spaces(s[i..j][r..u]) && Compound(L, E, s[i..j][u..])
    ensures Head(L, E, s[i..i + p]) && Spaces(s[i + p..i + q]) && IsOperator(s[i + q..i + r])
    ensures Spaces(s[i + r..i + u]) && Compound(L, E, s[i + u..j])
  {
    var t := s[i..j];
    PrefixSuffix(t, p);
    PrefixSuffix(t, u);
    HeadAt(L, E, s, i, j, 0, p);
    AllSpaceAt(s, i, j, p, q);
    KeywordAt(s, i, j, q, r);
    AllSpaceAt(s, i, j, r, u);
    CompoundAt(L, E, s, i, j, u, j - i);
  }

  lemma {:induction false} CompoundComplete(L: set<string>, E: set<string>, s: string, i: nat, j: nat)
    requires Sane(L, E) && i <= j <= |s| && Compound(L, E, s[i..j]) && FollowCompound(s, j)
    ensures ParseCompound(L, E, s, i) == Some(j)
    decreases j - i, 1, 0
  {
    var single, p, q, r, u := CompoundCases(L, E, s[i..j]);
    if single {
      SingleComplete(L, E, s, i, j);
    } else {
      JoinSliceComplete(L, E, s, i, j, p, q, r, u);
    }
  }

  /** The second alternative of `compound_expression`, with the witnesses as offsets of `s[i..j]`. */
  lemma {:induction false} JoinSliceComplete(L: set<string>, E: set<string>, s: string, i: nat, j: nat, p: nat, q: nat, r: nat, u: nat)
    requires Sane(L, E) && i <= j <= |s| && 0 < p < q < r < u <= j - i && FollowCompound(s, j)
    requires Head(L, E, s[i..j][..p]) && Spaces(s[i..j][p..q]) && IsOperator(s[i..j][q..r])
    requires Spaces(s[i..j][r..u]) && Compound(L, E, s[i..j][u..])
    ensures ParseCompound(L, E, s, i) == Some(j)
    decreases j - i, 0, 5
  {
    JoinTransfer(L, E, s, i, j, p, q, r, u);
    JoinComplete(L, E, s, i, i + p, i + q, i + r, i + u, j);
  }

  /** The first alternative of `compound_expression`, at the offsets of `s`. */
  lemma {:induction false} SingleComplete(L: set<string>, E: set<string>, s: string, i: nat, j: nat)
    requires Sane(L, E) && i <= j <= |s| && Head(L, E, s[i..j]) && FollowCompound(s, j)
    ensures ParseCompound(L, E, s, i) == Some(j)
    decreases j - i, 0, 4
  {
    FollowBoundary(s, j);
    HeadComplete(L, E, s, i, j);
    FollowIsNotOperator(s, j);
    ParseSingle(L, E, s, i, j);
  }

  /** The second alternative of `compound_expression`, at the offsets of `s`. */
  lemma {:induction false} JoinComplete(L: set<string>, E: set<string>, s: string, i: nat, p: nat, q: nat, r: nat, u: nat, j: nat)
    requires Sane(L, E) && i < p < q < r < u <= j <= |s| && FollowCompound(s, j)
    requires Head(L, E, s[i..p]) && Spaces(s[p..q]) && IsOperator(s[q..r]) && Spaces(s[r..u]) && Compound(L, E, s[u..j])
    ensures ParseCompound(L, E, s, i) == Some(j)
    decreases j - i, 0, 3
  {
    JoinOffsets(L, E, s, p, q, r, u, j);
    FollowBoundary(s, p);
    HeadComplete(L, E, s, i, p);
    CompoundComplete(L, E, s, u, j);
    ParseJoin(L, E, s, i, p, q, r, u, j);
  }

  /** The offsets of an operator with whitespace around it, as the recognizer finds them. */
  lemma JoinOffsets(L: set<string>, E: set<string>, s: string, p: nat, q: nat, r: nat, u: nat, j: nat)
    requires Sane(L, E) && p < q < r < u <= j <= |s|
    requires Spaces(s[p..q]) && IsOperator(s[q..r]) && Spaces(s[r..u]) && Compound(L, E, s[u..j])
    ensures FollowHead(s, p)
    ensures SkipSpace(s, p) == q && WordEnd(s, q) == r && SkipSpace(s, r) == u
  {
    SpaceAt(s, p, q);
    KeywordIsWord(s[q..r]);
    WordAt(s, q, r);
    SpaceAt(s, r, u);
    CompoundStart(L, E, s[u..j]);
    assert s[u] == s[u..j][0];
    SkipSpaceAt(s, p, q);
    WordEndAt(s, q, r);
    SkipSpaceAt(s, r, u);
  }

  /** With sane tables the recognizer accepts every string of the grammar. */
  lemma RecognizeComplete(L: set<string>, E: set<string>, s: string)
    requires Sane(L, E) && LicenseExpression(L, E, s)
    ensures Recognize(L, E, s)
  {
    if s != "NONE" && s != "NOASSERTION" {
      assert s[0..|s|] == s;
      if !Compound(L, E, s) {
        assert Head(L, E, s);
      }
      CompoundComplete(L, E, s, 0, |s|);
    }
  }

  /** With sane tables the grammar and the recognizer define the same language. */
  lemma RecognizeExact(L: set<string>, E: set<string>, s: string)
    requires Sane(L, E)
    ensures Recognize(L, E, s) <==> LicenseExpression(L, E, s)
  {
    if Recognize(L, E, s) {
      RecognizeSound(L, E, s);
    }
    if LicenseExpression(L, E, s) {
      RecognizeComplete(L, E, s);
    }
  }
}
