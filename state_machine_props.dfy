/**
 * What every string that `SpdxLicense::isValidLicenseString` accepts looks
 * like: at most one parenthesised group, balanced; a group exactly when
 * there is an operator; one operator spelling throughout; `NONE` or
 * `NOASSERTION` standing on its own; every `lic` token a known license or
 * an exception after `WITH`; an operator or a `WITH` between operands; and
 * an operand before every operator.
 */
module SpdxLicenseProperties {
  import opened Common
  import opened Store
  import opened SpdxLicenseLexer
  import opened SpdxLicense

  /** Number of tokens of kind `k` in `ts`. */
  function CountKind(ts: seq<Token>, k: Kind): nat {
    if ts == [] then 0 else (if ts[0].kind == k then 1 else 0) + CountKind(ts[1..], k)
  }

  lemma {:induction false} CountKindPositive(ts: seq<Token>, k: Kind)
    ensures CountKind(ts, k) > 0 <==> exists i :: 0 <= i < |ts| && ts[i].kind == k
    decreases |ts|
  {
    if ts != [] {
      CountKindPositive(ts[1..], k);
      if CountKind(ts[1..], k) > 0 {
        var i :| 0 <= i < |ts[1..]| && ts[1..][i].kind == k;
        assert ts[i + 1].kind == k;
      }
      if exists i :: 0 <= i < |ts| && ts[i].kind == k {
        var i :| 0 <= i < |ts| && ts[i].kind == k;
        if i > 0 {
          assert ts[1..][i - 1].kind == k;
        }
      }
    }
  }

  /** The parentheses of the input are exactly its `po` and `pc` tokens. */
  lemma {:induction false} ParenTokens(s: string, o: nat)
    requires o <= |s|
    ensures CountChar(s[o..], '(') == CountKind(TokensFrom(s, o), Po)
    ensures CountChar(s[o..], ')') == CountKind(TokensFrom(s, o), Pc)
    decreases |s| - o
  {
    if o < |s| {
      var t := NextToken(s, o).value;
      var o' := o + |t.text|;
      TokensFromNext(s, o);
      assert s[o..] == t.text + s[o'..];
      TokenParens(s, o);
      CountCharAppend(t.text, s[o'..], '(');
      CountCharAppend(t.text, s[o'..], ')');
      ParenTokens(s, o');
    }
  }

  lemma ParenTokensOfInput(s: string)
    ensures CountChar(s, '(') == CountKind(Tokens(s), Po)
    ensures CountChar(s, ')') == CountKind(Tokens(s), Pc)
  {
    ParenTokens(s, 0);
    assert s[0..] == s;
  }

  /** Running over `a + b` is running over `a`, then over `b` from where `a` left off. */
  lemma {:induction false} RunSplit(store: IdentifierStore, st: ParserState, ts: seq<Token>, i: nat)
    requires i <= |ts|
    ensures Run(store, st, ts) ==
      (if Run(store, st, ts[..i]).None? then None else Run(store, Run(store, st, ts[..i]).value, ts[i..]))
    decreases i
  {
    if i == 0 {
      assert ts[..0] == [] && ts[0..] == ts;
    } else {
      assert ts[..i][0] == ts[0];
      match Step(store, st, ts[0]) {
        case None =>
        case Some(st') =>
          RunSplit(store, st', ts[1..], i - 1);
          assert ts[1..][..i - 1] == ts[..i][1..];
          assert ts[1..][i - 1..] == ts[i..];
      }
    }
  }

  /**
   * `$open` only grows, from 0 to 1 on the one `(` and from 1 to 2 on the
   * one `)`; from a state with nothing open, every operator and every `)`
   * comes after the `(`.
   */
  lemma {:induction false} RunOpen(store: IdentifierStore, st: ParserState, ts: seq<Token>, f: ParserState)
    requires st.open <= 2 && Run(store, st, ts) == Some(f)
    ensures st.open <= f.open <= 2
    ensures CountKind(ts, Po) == (if st.open == 0 && f.open >= 1 then 1 else 0)
    ensures CountKind(ts, Pc) == (if st.open <= 1 && f.open == 2 then 1 else 0)
    ensures CountKind(ts, Op) > 0 ==> f.open >= 1
    ensures st.open == 0 ==> forall i :: 0 <= i < |ts| && ts[i].kind == Op ==> exists j :: 0 <= j < i && ts[j].kind == Po
    ensures st.open == 0 ==> forall i :: 0 <= i < |ts| && ts[i].kind == Pc ==> exists j :: 0 <= j < i && ts[j].kind == Po
    decreases |ts|
  {
    if ts != [] {
      var st' := Step(store, st, ts[0]).value;
      RunOpen(store, st', ts[1..], f);
      if st.open == 0 {
        forall i | 0 <= i < |ts| && (ts[i].kind == Op || ts[i].kind == Pc)
          ensures exists j :: 0 <= j < i && ts[j].kind == Po
        {
          assert i > 0;
          assert ts[i] == ts[1..][i - 1];
          if st'.open == 0 {
            var j :| 0 <= j < i - 1 && ts[1..][j].kind == Po;
            assert ts[j + 1].kind == Po;
          } else {
            assert ts[0].kind == Po;
          }
        }
      }
    }
  }

  /**
   * The first operator is kept in `$lastop` and every later one must be the
   * same string; from a state with no operator yet, every `)` comes after
   * an operator.
   */
  lemma {:induction false} RunLastop(store: IdentifierStore, st: ParserState, ts: seq<Token>, f: ParserState)
    requires Run(store, st, ts) == Some(f)
    ensures st.lastop.Some? ==> f.lastop == st.lastop
    ensures forall i :: 0 <= i < |ts| && ts[i].kind == Op ==> f.lastop == Some(ts[i].text)
    ensures f.lastop.Some? && st.lastop.None? ==> CountKind(ts, Op) > 0
    ensures st.open < 2 && f.open == 2 ==> f.lastop.Some?
    ensures st.lastop.None? ==> forall i :: 0 <= i < |ts| && ts[i].kind == Pc ==> exists j :: 0 <= j < i && ts[j].kind == Op
    decreases |ts|
  {
    if ts != [] {
      var st' := Step(store, st, ts[0]).value;
      RunLastop(store, st', ts[1..], f);
      forall i | 0 <= i < |ts| && ts[i].kind == Op
        ensures f.lastop == Some(ts[i].text)
      {
        if i > 0 {
          assert ts[i] == ts[1..][i - 1];
        }
      }
      if st.lastop.None? {
        forall i | 0 <= i < |ts| && ts[i].kind == Pc
          ensures exists j :: 0 <= j < i && ts[j].kind == Op
        {
          assert i > 0;
          assert ts[i] == ts[1..][i - 1];
          if st'.lastop.None? {
            var j :| 0 <= j < i - 1 && ts[1..][j].kind == Op;
            assert ts[j + 1].kind == Op;
          } else {
            assert ts[0].kind == Op;
          }
        }
      }
    }
  }

  /** The token sequence of an accepted string runs to a final state. */
  lemma AcceptedRun(store: IdentifierStore, s: string) returns (f: ParserState)
    requires Accepts(store, s)
    ensures Run(store, Initial, Tokens(s)) == Some(f) && Final(f)
    ensures f.open == 0 || f.open == 2
  {
    f := Run(store, Initial, Tokens(s)).value;
    RunOpen(store, Initial, Tokens(s), f);
  }

  /** An accepted string has at most one `(` and as many `)` as `(`. */
  lemma AcceptedParensBalanced(store: IdentifierStore, s: string)
    requires Accepts(store, s)
    ensures CountChar(s, '(') == CountChar(s, ')') <= 1
  {
    var f := AcceptedRun(store, s);
    RunOpen(store, Initial, Tokens(s), f);
    ParenTokensOfInput(s);
  }

  predicate HasOperatorToken(s: string) {
    exists i :: 0 <= i < |Tokens(s)| && Tokens(s)[i].kind == Op
  }

  /** In an accepted string there is an operator exactly when there is a parenthesised group. */
  lemma AcceptedOperatorIffGroup(store: IdentifierStore, s: string)
    requires Accepts(store, s)
    ensures HasOperatorToken(s) <==> CountChar(s, '(') == 1
  {
    var f := AcceptedRun(store, s);
    RunOpen(store, Initial, Tokens(s), f);
    RunLastop(store, Initial, Tokens(s), f);
    CountKindPositive(Tokens(s), Op);
    ParenTokensOfInput(s);
  }

  /** An accepted string does not mix operators, not even `or` with `OR`. */
  lemma AcceptedSingleOperator(store: IdentifierStore, s: string)
    requires Accepts(store, s)
    ensures forall i, j ::
      (0 <= i < |Tokens(s)| && 0 <= j < |Tokens(s)| && Tokens(s)[i].kind == Op && Tokens(s)[j].kind == Op)
      ==> Tokens(s)[i].text == Tokens(s)[j].text
  {
    var f := AcceptedRun(store, s);
    RunLastop(store, Initial, Tokens(s), f);
  }

  /** The state in which `NONE` can be admitted: nothing open, an operand due, no `WITH` pending. */
  predicate Blank(st: ParserState) {
    st.open == 0 && st.require && !st.with
  }

  lemma RunBlank(store: IdentifierStore, st: ParserState, ts: seq<Token>, m: ParserState)
    requires Run(store, st, ts) == Some(m) && Blank(m)
    ensures Blank(st)
    ensures forall j :: 0 <= j < |ts| ==> ts[j].kind == Ws
    decreases |ts|
  {
    if ts != [] {
      RunBlank(store, Step(store, st, ts[0]).value, ts[1..], m);
      assert forall j :: 1 <= j < |ts| ==> ts[j] == ts[1..][j - 1];
    }
  }

  /** Nothing open and no operand due: the state after `NONE`. */
  predicate Settled(st: ParserState) {
    st.open == 0 && !st.require
  }

  /** From a settled state only whitespace, `WITH` and known exceptions are admitted. */
  predicate AfterNone(store: IdentifierStore, t: Token) {
    t.kind == Ws || t.kind == Wi || (t.kind == Lic && IsValidExceptionIdentifier(store, t.text))
  }

  lemma RunSettled(store: IdentifierStore, st: ParserState, ts: seq<Token>)
    requires Settled(st) && Run(store, st, ts).Some?
    ensures forall j :: 0 <= j < |ts| ==> AfterNone(store, ts[j])
    decreases |ts|
  {
    if ts != [] {
      RunSettled(store, Step(store, st, ts[0]).value, ts[1..]);
      assert forall j :: 1 <= j < |ts| ==> ts[j] == ts[1..][j - 1];
    }
  }

  /**
   * `NONE` and `NOASSERTION` stand alone: only whitespace before them, and
   * after them only whitespace, `WITH` and license exceptions.
   */
  lemma NoneStandsAlone(store: IdentifierStore, s: string, i: nat)
    requires Accepts(store, s)
    requires i < |Tokens(s)| && Tokens(s)[i].kind == Lix
    ensures forall j :: 0 <= j < i ==> Tokens(s)[j].kind == Ws
    ensures forall j :: i < j < |Tokens(s)| ==> AfterNone(store, Tokens(s)[j])
  {
    var ts := Tokens(s);
    RunSplit(store, Initial, ts, i);
    var m := Run(store, Initial, ts[..i]).value;
    assert ts[i..] == [ts[i]] + ts[i + 1..];
    assert ([ts[i]] + ts[i + 1..])[1..] == ts[i + 1..];
    var m' := Step(store, m, ts[i]).value;
    RunBlank(store, Initial, ts[..i], m);
    assert forall j :: 0 <= j < i ==> ts[j] == ts[..i][j];
    RunSettled(store, m', ts[i + 1..]);
    assert forall j :: i < j < |ts| ==> ts[j] == ts[i + 1..][j - i - 1];
  }
  /** `with`, `WITH`: the tokens after which an exception may follow. */
  predicate WithBefore(ts: seq<Token>, i: nat) {
    exists j :: 0 <= j < i && j < |ts| && ts[j].kind == Wi
  }

  /**
   * A `lic` token is admitted only as a known license id once its trailing
   * `+` are dropped, or as a known exception id after a `WITH`; and a
   * pending `WITH` at the end of a run was pending at its start or is in it.
   */
  lemma {:induction false} RunIdsKnown(store: IdentifierStore, st: ParserState, ts: seq<Token>, f: ParserState)
    requires Run(store, st, ts) == Some(f)
    ensures forall i :: 0 <= i < |ts| && ts[i].kind == Lic ==>
      IsValidLicenseIdentifier(store, RTrimPlus(ts[i].text)) ||
      (IsValidExceptionIdentifier(store, ts[i].text) && (st.with || WithBefore(ts, i)))
    ensures f.with ==> st.with || WithBefore(ts, |ts|)
    decreases |ts|
  {
    if ts != [] {
      var st' := Step(store, st, ts[0]).value;
      RunIdsKnown(store, st', ts[1..], f);
      assert st'.with ==> st.with || ts[0].kind == Wi;
      forall i | 0 < i <= |ts| && WithBefore(ts[1..], i - 1)
        ensures WithBefore(ts, i)
      {
        var j :| 0 <= j < i - 1 && j < |ts[1..]| && ts[1..][j].kind == Wi;
        assert ts[j + 1].kind == Wi;
      }
      forall i | 0 < i < |ts| && ts[i].kind == Lic
        ensures IsValidLicenseIdentifier(store, RTrimPlus(ts[i].text)) ||
          (IsValidExceptionIdentifier(store, ts[i].text) && (st.with || WithBefore(ts, i)))
      {
        assert ts[i] == ts[1..][i - 1];
        if ts[0].kind == Wi {
          assert WithBefore(ts, i);
        }
      }
    }
  }

  /** Every `lic` token of an accepted string is a known license, or an exception that follows a `WITH`. */
  lemma AcceptedIdsKnown(store: IdentifierStore, s: string)
    requires Accepts(store, s)
    ensures forall i :: 0 <= i < |Tokens(s)| && Tokens(s)[i].kind == Lic ==>
      IsValidLicenseIdentifier(store, RTrimPlus(Tokens(s)[i].text)) ||
      (IsValidExceptionIdentifier(store, Tokens(s)[i].text) && WithBefore(Tokens(s), i))
  {
    var f := AcceptedRun(store, s);
    RunIdsKnown(store, Initial, Tokens(s), f);
  }

  /** The tokens the `lir` label admits. */
  predicate IsOperand(k: Kind) {
    k == Lic || k == Lir || k == Lix
  }

  /**
   * With no operand due and no `WITH` pending, every operand token comes
   * after an operator or a `WITH`: the operand check refuses two operands
   * in a row.
   */
  lemma {:induction false} RunSeparated(store: IdentifierStore, st: ParserState, ts: seq<Token>, f: ParserState)
    requires Run(store, st, ts) == Some(f) && !st.require && !st.with
    ensures forall k :: 0 <= k < |ts| && IsOperand(ts[k].kind) ==>
      exists j :: 0 <= j < k && (ts[j].kind == Op || ts[j].kind == Wi)
    decreases |ts|
  {
    if ts != [] {
      var st' := Step(store, st, ts[0]).value;
      if ts[0].kind != Op && ts[0].kind != Wi {
        RunSeparated(store, st', ts[1..], f);
      }
      forall k | 0 <= k < |ts| && IsOperand(ts[k].kind)
        ensures exists j :: 0 <= j < k && (ts[j].kind == Op || ts[j].kind == Wi)
      {
        assert k > 0;
        if ts[0].kind != Op && ts[0].kind != Wi {
          assert ts[k] == ts[1..][k - 1];
          var j :| 0 <= j < k - 1 && (ts[1..][j].kind == Op || ts[1..][j].kind == Wi);
          assert ts[j + 1] == ts[1..][j];
        }
      }
    }
  }

  /**
   * Two operand tokens of an accepted string have an operator or a `WITH`
   * between them, unless the first is a `LicenseRef-` admitted while a
   * `WITH` was pending, so that an exception may still follow it.
   */
  lemma AcceptedOperandsSeparated(store: IdentifierStore, s: string, i: nat, k: nat)
    requires Accepts(store, s)
    requires i < k < |Tokens(s)| && IsOperand(Tokens(s)[i].kind) && IsOperand(Tokens(s)[k].kind)
    ensures (exists j :: i < j < k && (Tokens(s)[j].kind == Op || Tokens(s)[j].kind == Wi))
      || (Tokens(s)[i].kind == Lir && WithBefore(Tokens(s), i))
  {
    var f := AcceptedRun(store, s);
    RunOperandsSeparated(store, Tokens(s), f, i, k);
  }

  /** The same for any run from the initial state. */
  lemma RunOperandsSeparated(store: IdentifierStore, ts: seq<Token>, f: ParserState, i: nat, k: nat)
    requires Run(store, Initial, ts) == Some(f)
    requires i < k < |ts| && IsOperand(ts[i].kind) && IsOperand(ts[k].kind)
    ensures (exists j :: i < j < k && (ts[j].kind == Op || ts[j].kind == Wi))
      || (ts[i].kind == Lir && WithBefore(ts, i))
  {
    RunSplit(store, Initial, ts, i);
    var m := Run(store, Initial, ts[..i]).value;
    assert ts[i..] == [ts[i]] + ts[i + 1..];
    assert ([ts[i]] + ts[i + 1..])[1..] == ts[i + 1..];
    var m' := Step(store, m, ts[i]).value;
    assert Run(store, m', ts[i + 1..]) == Some(f);
    if m'.with {
      RunIdsKnown(store, Initial, ts[..i], m);
      var j :| 0 <= j < i && j < |ts[..i]| && ts[..i][j].kind == Wi;
      assert ts[j].kind == Wi;
    } else {
      RunSeparated(store, m', ts[i + 1..], f);
      assert ts[k] == ts[i + 1..][k - i - 1];
      var j :| 0 <= j < k - i - 1 && (ts[i + 1..][j].kind == Op || ts[i + 1..][j].kind == Wi);
      assert ts[i + 1 + j] == ts[i + 1..][j];
    }
  }

  /**
   * An operator is admitted only with no operand due: the last operand
   * before it comes after any earlier operator, or, with no operator so far,
   * the run began with no operand due.
   */
  lemma {:induction false} RunOperatorAfterOperand(store: IdentifierStore, st: ParserState, ts: seq<Token>, f: ParserState)
    requires Run(store, st, ts) == Some(f)
    ensures forall k :: 0 <= k < |ts| && ts[k].kind == Op ==>
      (exists j :: 0 <= j < k && IsOperand(ts[j].kind) && forall m :: j < m < k ==> ts[m].kind != Op)
      || (!st.require && forall m :: 0 <= m < k ==> ts[m].kind != Op)
    decreases |ts|
  {
    if ts != [] {
      var st' := Step(store, st, ts[0]).value;
      var rest := ts[1..];
      RunOperatorAfterOperand(store, st', rest, f);
      forall k | 0 <= k < |ts| && ts[k].kind == Op
        ensures (exists j :: 0 <= j < k && IsOperand(ts[j].kind) && forall m :: j < m < k ==> ts[m].kind != Op)
          || (!st.require && forall m :: 0 <= m < k ==> ts[m].kind != Op)
      {
        if k > 0 {
          assert ts[k] == rest[k - 1];
          assert forall m :: 0 < m < |ts| ==> ts[m] == rest[m - 1];
          if exists j :: 0 <= j < k - 1 && IsOperand(rest[j].kind) && forall m :: j < m < k - 1 ==> rest[m].kind != Op {
            var j :| 0 <= j < k - 1 && IsOperand(rest[j].kind) && forall m :: j < m < k - 1 ==> rest[m].kind != Op;
            assert IsOperand(ts[j + 1].kind);
          } else if IsOperand(ts[0].kind) {
            assert forall m :: 0 < m < k ==> ts[m].kind != Op;
          }
        }
      }
    }
  }

  /** In an accepted string every operator follows an operand, with no other operator in between. */
  lemma AcceptedOperatorAfterOperand(store: IdentifierStore, s: string)
    requires Accepts(store, s)
    ensures forall k :: 0 <= k < |Tokens(s)| && Tokens(s)[k].kind == Op ==>
      exists j :: 0 <= j < k && IsOperand(Tokens(s)[j].kind) && forall m :: j < m < k ==> Tokens(s)[m].kind != Op
  {
    var f := AcceptedRun(store, s);
    RunOperatorAfterOperand(store, Initial, Tokens(s), f);
  }
}
