/**
 * The two value-dispatch tables of the pattern-matching example: a literal
 * match on an `int`, and a command-line argument classifier.
 */
module PatternMatching {
  import opened JavaTypes
  import opened Matching

  /** The cases of the literal match, tried in this order. */
  function LiteralCases(): seq<Case<Int32, string>> {
    [Case(Is(1), "one"), Case(Is(2), "two"), Case(Any, "?")]
  }

  /** The literal match: 1 is "one", 2 is "two" and every other value "?". */
  function LiteralMatch(i: Int32): (s: string)
    ensures i == 1 <==> s == "one"
    ensures i == 2 <==> s == "two"
    ensures i != 1 && i != 2 <==> s == "?"
  {
    var cases := LiteralCases();
    WildcardLastIsTotal(i, cases);
    match MatchOf(i, cases)
    case Matched(s) => s
  }

  /** What the classifier runs for an argument. */
  datatype ArgAction =
    | DisplayHelp
    | DisplayVersion
      /** The catch-all case throws `IllegalArgumentException(arg)`. */
    | IllegalArgument(arg: string)

  /** The cases of the argument classifier for `arg`, tried in this order. */
  function ArgCases(arg: string): seq<Case<string, ArgAction>> {
    [ Case(IsIn(["-h", "--help"]), DisplayHelp),
      Case(IsIn(["-v", "--version"]), DisplayVersion),
      Case(Any, IllegalArgument(arg)) ]
  }

  /**
   * The argument classifier: "-h" and "--help" display help, "-v" and
   * "--version" display the version, anything else is rejected with an
   * error carrying the argument.
   */
  function ClassifyArg(arg: string): (a: ArgAction)
    ensures a == DisplayHelp <==> arg == "-h" || arg == "--help"
    ensures a == DisplayVersion <==> arg == "-v" || arg == "--version"
    ensures a.IllegalArgument? <==> arg !in {"-h", "--help", "-v", "--version"}
    ensures a.IllegalArgument? ==> a.arg == arg
  {
    var cases := ArgCases(arg);
    WildcardLastIsTotal(arg, cases);
    match MatchOf(arg, cases)
    case Matched(a) => a
  }
}
