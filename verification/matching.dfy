/**
 * Vavr's `Match(x).of(Case(...), ...)` for the value patterns the workshop
 * uses: the cases are tried in order and the first whose pattern matches
 * gives the result; when none matches, `Match` fails with a `MatchError`.
 */
module Matching {

  /** `$(v)`, `$(isIn(v1, v2, ...))` and the wildcard `$()`. */
  datatype Pattern<T(==)> = Is(v: T) | IsIn(vs: seq<T>) | Any {

    predicate Matches(x: T) {
      match this
      case Is(v) => x == v
      case IsIn(vs) => x in vs
      case Any => true
    }
  }

  /** `Case(pattern, result)`. */
  datatype Case<T, R> = Case(pattern: Pattern<T>, result: R)

  /** The outcome of a match: the chosen result, or Vavr's `MatchError`. */
  datatype Matched<R> = Matched(value: R) | MatchError

  /** The index of the first case whose pattern matches `x`, if any. */
  predicate FirstMatch<T(==), R>(x: T, cases: seq<Case<T, R>>, i: int) {
    && 0 <= i < |cases|
    && cases[i].pattern.Matches(x)
    && forall j :: 0 <= j < i ==> !cases[j].pattern.Matches(x)
  }

  /** `Match(x).of(cases...)`. */
  function MatchOf<T(==), R>(x: T, cases: seq<Case<T, R>>): (r: Matched<R>)
    ensures r.MatchError? <==> forall i :: 0 <= i < |cases| ==> !cases[i].pattern.Matches(x)
    ensures r.Matched? ==> exists i :: FirstMatch(x, cases, i) && r.value == cases[i].result
  {
    if |cases| == 0 then MatchError
    else if cases[0].pattern.Matches(x) then
      assert FirstMatch(x, cases, 0);
      Matched(cases[0].result)
    else
      var r := MatchOf(x, cases[1..]);
      assert r.Matched? ==> exists i :: FirstMatch(x, cases, i) && r.value == cases[i].result by {
        if r.Matched? {
          var i :| FirstMatch(x, cases[1..], i) && r.value == cases[1..][i].result;
          assert FirstMatch(x, cases, i + 1);
        }
      }
      r
  }

  /** A case list ending in the wildcard never fails to match. */
  lemma WildcardLastIsTotal<T, R>(x: T, cases: seq<Case<T, R>>)
    requires |cases| > 0 && cases[|cases| - 1].pattern == Any
    ensures MatchOf(x, cases).Matched?
  {
  }

  /** The first matching case decides: the result is the one named by `FirstMatch`. */
  lemma FirstMatchDecides<T, R>(x: T, cases: seq<Case<T, R>>, i: int)
    requires FirstMatch(x, cases, i)
    ensures MatchOf(x, cases) == Matched(cases[i].result)
  {
  }
}
