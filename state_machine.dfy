/**
 * `SpdxLicense::isValidLicenseString` and `SpdxLicense::validate`: the
 * tokens of `SpdxLicenseLexer` are fed, one by one, to a small state machine
 * over `$open`, `$with`, `$require` and `$lastop`; the string is valid when
 * every token is admitted and the final state is balanced and complete.
 */
module SpdxLicense {
  import opened Common
  import opened Store
  import opened Normalize
  import opened SpdxLicenseLexer

  /**
   * The locals of `isValidLicenseString`: `open` counts the parentheses seen
   * (0, then 1 after `(`, then 2 after `)`), `with` is set by `WITH` until an
   * exception follows, `require` says an operand is due, and `lastop` is the
   * first operator seen.
   */
  datatype ParserState = ParserState(open: nat, with: bool, require: bool, lastop: Option<string>)

  const Initial := ParserState(0, false, true, None)

  /** `rtrim($s, '+')`: every trailing `+` removed. */
  function RTrimPlus(s: string): (r: string)
    ensures |r| <= |s| && r == s[..|r|]
    ensures r == [] || r[|r| - 1] != '+'
    ensures forall k :: |r| <= k < |s| ==> s[k] == '+'
  {
    if s != [] && s[|s| - 1] == '+' then RTrimPlus(s[..|s| - 1]) else s
  }

  /** The `lir:` label: an operand is admitted only where one is required. */
  function Operand(st: ParserState): Option<ParserState> {
    if !st.require then None else Some(st.(require := false))
  }

  /** One branch of the `switch ($token)`: the new state, or None for `return false`. */
  function Step(store: IdentifierStore, st: ParserState, t: Token): Option<ParserState> {
    match t.kind
    case Po =>
      if st.open != 0 || !st.require || st.with then None else Some(st.(open := 1))
    case Pc =>
      if st.open != 1 || st.require || st.lastop.None? || st.with then None else Some(st.(open := 2))
    case Op =>
      if st.require || st.open == 0 || st.with then None
      else
        var last := if st.lastop.None? then t.text else st.lastop.value;
        if last != t.text then None else Some(st.(lastop := Some(last), require := true))
    case Wi => Some(st.(with := true))
    case Lix => if st.open != 0 || st.with then None else Operand(st)
    case Lic =>
      if st.with && IsValidExceptionIdentifier(store, t.text) then Operand(st.(require := true, with := false))
      else if st.with then None
      else if !IsValidLicenseIdentifier(store, RTrimPlus(t.text)) then None
      else Operand(st)
    case Lir => Operand(st)
    case Ws => Some(st)
    case Any => None
  }

  /** The `while` loop over a token sequence. */
  function Run(store: IdentifierStore, st: ParserState, ts: seq<Token>): Option<ParserState>
    decreases |ts|
  {
    if ts == [] then Some(st)
    else
      match Step(store, st, ts[0])
      case None => None
      case Some(st') => Run(store, st', ts[1..])
  }

  /** The final `return !($open % 2 || $require || $with)`. */
  predicate Final(st: ParserState) {
    st.open % 2 == 0 && !st.require && !st.with
  }

  predicate Verdict(store: IdentifierStore, st: ParserState, ts: seq<Token>) {
    match Run(store, st, ts)
    case None => false
    case Some(f) => Final(f)
  }

  /** Processing one more token in front of the rest. */
  lemma VerdictCons(store: IdentifierStore, st: ParserState, t: Token, rest: seq<Token>)
    ensures Verdict(store, st, [t] + rest) ==
      (Step(store, st, t).Some? && Verdict(store, Step(store, st, t).value, rest))
  {
    assert ([t] + rest)[1..] == rest;
  }

  /** The verdict from offset `o` of `s`: the next token's step, then the verdict on the tokens after it. */
  lemma VerdictNext(store: IdentifierStore, st: ParserState, s: string, o: nat, t: Token)
    requires o <= |s| && NextToken(s, o) == Some(t)
    ensures o + |t.text| <= |s|
    ensures Verdict(store, st, TokensFrom(s, o)) ==
      (Step(store, st, t).Some? && Verdict(store, Step(store, st, t).value, TokensFrom(s, o + |t.text|)))
  {
    TokensFromNext(s, o);
    VerdictCons(store, st, t, TokensFrom(s, o + |t.text|));
  }

  /** The reference meaning of `isValidLicenseString($license)`. */
  predicate Accepts(store: IdentifierStore, license: string) {
    Verdict(store, Initial, Tokens(license))
  }

  /**
   * One pass of the `switch ($token)` in the loop of `isValidLicenseString`
   * on the locals `st`: the new locals, or None where the source returns false.
   */
  method Advance(store: IdentifierStore, st: ParserState, token: Token) returns (next: Option<ParserState>)
    ensures next == Step(store, st, token)
  {
    var ParserState(open, with, require, lastop) := st;
    var operand := false;  // stands for `goto lir` and the fall-through into `case 'lir'`
    match token.kind {
      case Po =>
        if open != 0 || !require || with {
          return None;
        }
        open := 1;
      case Pc =>
        if open != 1 || require || lastop.None? || with {
          return None;
        }
        open := 2;
      case Op =>
        if require || open == 0 || with {
          return None;
        }
        if lastop.None? {
          lastop := Some(token.text);
        }
        if lastop.value != token.text {
          return None;
        }
        require := true;
      case Wi =>
        with := true;
      case Lix =>
        if open != 0 || with {
          return None;
        }
        operand := true;
      case Lic =>
        if with && IsValidExceptionIdentifier(store, token.text) {
          require := true;
          with := false;
        } else if with {
          return None;
        } else if !IsValidLicenseIdentifier(store, RTrimPlus(token.text)) {
          return None;
        }
        operand := true;
      case Lir =>
        operand := true;
      case Ws =>
      case Any =>
        return None;
    }
    if operand {
      if !require {
        return None;
      }
      require := false;
    }
    return Some(ParserState(open, with, require, lastop));
  }

  /** `isValidLicenseString`: the closure-driven loop with its early returns. */
  method IsValidLicenseString(store: IdentifierStore, license: string) returns (valid: bool)
    ensures valid == Accepts(store, license)
  {
    var lexer := new Lexer(license);
    var st := Initial;
    while true
      invariant lexer.input == license && lexer.offset <= |license|
      invariant Verdict(store, st, TokensFrom(license, lexer.offset)) == Accepts(store, license)
      decreases |license| - lexer.offset
    {
      ghost var at := lexer.offset;
      var next := lexer.Next();
      if next.None? {
        break;
      }
      var token := next.value;
      VerdictNext(store, st, license, at, token);
      var after := Advance(store, st, token);
      if after.None? {
        return false;
      }
      assert Verdict(store, after.value, TokensFrom(license, lexer.offset)) == Accepts(store, license);
      st := after.value;
    }
    return !(st.open % 2 == 1 || st.require || st.with);
  }

  /** `validate($license)`: normalise the argument, then check the string. */
  method Validate(store: IdentifierStore, license: Value) returns (r: Result<bool>)
    ensures r.Failure? <==> NormalizeArgument(license).Failure?
    ensures r.Failure? ==> r.error == NormalizeArgument(license).error
    ensures r.Success? ==> r.value == Accepts(store, NormalizeArgument(license).value)
  {
    var normalized := NormalizeArgument(license);
    if normalized.Failure? {
      return Failure(normalized.error);
    }
    var valid := IsValidLicenseString(store, normalized.value);
    return Success(valid);
  }
}
