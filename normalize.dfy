/**
 * The argument normalisation at the start of `validate`, identical in both
 * validators: a string is taken as it is; an array must hold only strings,
 * and is joined with ` OR ` inside parentheses when it has more than one.
 */
module Normalize {
  import opened Common

  /** A PHP value as `validate` inspects it. */
  datatype Value =
    | Str(s: string)
    | Arr(items: seq<Value>)
    | Other          // null, a number, an object, ...

  predicate AllStrings(items: seq<Value>) {
    forall k :: 0 <= k < |items| ==> items[k].Str?
  }

  function Strings(items: seq<Value>): (r: seq<string>)
    requires AllStrings(items)
  {
    seq(|items|, k requires 0 <= k < |items| => items[k].s)
  }

  /** `implode(' OR ', xs)`. */
  function JoinOr(xs: seq<string>): string
  {
    if |xs| == 0 then ""
    else if |xs| == 1 then xs[0]
    else JoinOr(xs[..|xs| - 1]) + " OR " + xs[|xs| - 1]
  }

  /** The string `validate` hands to `isValidLicenseString`, or the exception it throws. */
  function NormalizeArgument(v: Value): (r: Result<string>)
    ensures r == Failure(ArrayOfStringsExpected) <==> v.Arr? && !AllStrings(v.items)
    ensures r == Failure(ArrayOrStringExpected) <==> v.Other?
    ensures v.Str? ==> r == Success(v.s)
    ensures v.Arr? && |v.items| == 0 ==> r == Success("")
    ensures v.Arr? && |v.items| == 1 && v.items[0].Str? ==> r == Success(v.items[0].s)
  {
    match v
    case Str(s) => Success(s)
    case Other => Failure(ArrayOrStringExpected)
    case Arr(items) =>
      if !AllStrings(items) then Failure(ArrayOfStringsExpected)
      else if |items| > 1 then Success("(" + JoinOr(Strings(items)) + ")")
      else if |items| == 1 then Success(items[0].s)
      else Success("")
  }

  /** An array of two strings is the same as the explicit disjunction of both. */
  lemma NormalizePair(a: string, b: string)
    ensures NormalizeArgument(Arr([Str(a), Str(b)])) == Success("(" + a + " OR " + b + ")")
  {
    var items := [Str(a), Str(b)];
    assert Strings(items) == [a, b];
    assert [a, b][..1] == [a];
    assert JoinOr([a, b]) == a + " OR " + b;
    assert "(" + (a + " OR " + b) + ")" == "(" + a + " OR " + b + ")";
  }

  /** Appending one more string to the array appends ` OR ` and it inside the parentheses. */
  lemma NormalizeAppend(items: seq<Value>, x: string)
    requires AllStrings(items) && |items| >= 1
    ensures NormalizeArgument(Arr(items + [Str(x)])).Success?
    ensures var inner := NormalizeArgument(Arr(items + [Str(x)])).value;
      inner == "(" + JoinOr(Strings(items)) + " OR " + x + ")"
  {
    var all := items + [Str(x)];
    assert AllStrings(all);
    var xs := Strings(items);
    assert Strings(all) == xs + [x];
    assert (xs + [x])[..|xs|] == xs;
    assert JoinOr(xs + [x]) == JoinOr(xs) + " OR " + x;
    assert "(" + (JoinOr(xs) + " OR " + x) + ")" == "(" + JoinOr(xs) + " OR " + x + ")";
  }
}
