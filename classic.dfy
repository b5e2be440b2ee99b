/** The classic game as a worked instance of the rule engine: the rules
    (3, "Fizz") and (5, "Buzz") applied to the numbers 1 to 15. */
module ClassicGame {
  import opened Numerals
  import opened GoInt
  import opened FizzBot

  const ClassicRules := [Rule(3, "Fizz"), Rule(5, "Buzz")]

  /** The rule list of the classic game.  The lemmas below take the rules as a
      parameter constrained by this predicate rather than the literal list,
      which keeps the solver from evaluating the rule engine on literals. */
  predicate IsClassic(rules: seq<Rule>) {
    |rules| == 2 && rules[0] == Rule(3, "Fizz") && rules[1] == Rule(5, "Buzz")
  }

  /** The numbers `first`, `first + 1`, `first + 2`, ... in order. */
  predicate CountsUpFrom(numbers: seq<int>, first: int) {
    forall k :: 0 <= k < |numbers| ==> numbers[k] == first + k
  }

  /** Under the classic rules a number gets "Fizz" when 3 divides it, then
      "Buzz" when 5 divides it, and its numeral when neither does. */
  lemma ClassicToken(n: int, rules: seq<Rule>)
    requires IsClassic(rules)
    ensures NonZeroDivisors(rules)
    ensures var fizzBuzz := (if n % 3 == 0 then "Fizz" else "") + (if n % 5 == 0 then "Buzz" else "");
            Token(n, rules) == if fizzBuzz == "" then IntToDecimal(n) else fizzBuzz
  {
    GoRemZeroIffDivides(n, 3);
    GoRemZeroIffDivides(n, 5);
    assert rules == [rules[0]] + [rules[1]];
    MatchingAppend(n, [rules[0]], [rules[1]]);
    ConcatResponsesAppend(Matching(n, [rules[0]]), Matching(n, [rules[1]]));
  }

  /** A number divisible by neither 3 nor 5 gets its numeral. */
  lemma ClassicNumeral(n: int, rules: seq<Rule>)
    requires IsClassic(rules)
    requires n % 3 != 0 && n % 5 != 0
    ensures Token(n, rules) == IntToDecimal(n)
  {
    ClassicToken(n, rules);
  }

  /** A number divisible by 3 but not by 5 gets "Fizz". */
  lemma ClassicFizz(n: int, rules: seq<Rule>)
    requires IsClassic(rules)
    requires n % 3 == 0 && n % 5 != 0
    ensures Token(n, rules) == "Fizz"
  {
    ClassicToken(n, rules);
  }

  /** A number divisible by 5 but not by 3 gets "Buzz". */
  lemma ClassicBuzz(n: int, rules: seq<Rule>)
    requires IsClassic(rules)
    requires n % 3 != 0 && n % 5 == 0
    ensures Token(n, rules) == "Buzz"
  {
    ClassicToken(n, rules);
  }

  /** A number divisible by both 3 and 5 gets "FizzBuzz", the responses in
      rule order. */
  lemma ClassicFizzBuzz(n: int, rules: seq<Rule>)
    requires IsClassic(rules)
    requires n % 3 == 0 && n % 5 == 0
    ensures Token(n, rules) == "FizzBuzz"
  {
    ClassicToken(n, rules);
  }

  /** The four sample evaluations of the classic rules: 15, 9, 10 and 7. */
  lemma ClassicSamples(rules: seq<Rule>)
    requires IsClassic(rules)
    ensures Token(15, rules) == "FizzBuzz"
    ensures Token(9, rules) == "Fizz"
    ensures Token(10, rules) == "Buzz"
    ensures Token(7, rules) == "7"
  {
    ClassicFizzBuzz(15, rules);
    ClassicFizz(9, rules);
    ClassicBuzz(10, rules);
    ClassicNumeral(7, rules);
  }

  /** The numerals of the two-digit numbers of the classic round that get no
      response. */
  lemma TwoDigitNumerals()
    ensures IntToDecimal(11) == "11" && IntToDecimal(13) == "13" && IntToDecimal(14) == "14"
  {
    assert NatToDecimal(11) == "11";
    assert NatToDecimal(13) == "13";
    assert NatToDecimal(14) == "14";
  }
}
