/** The spelling of the classic round's answer: how its tokens and runs of
    tokens concatenate into single lines of text.  These are facts about
    string literals alone.  They are kept in a module with no imports, so
    that the solver does not unfold the rule engine's definitions while it
    compares literals. */
module ClassicText {
  lemma SpelledOneToFive()
    ensures "1" + " " + "2" + " " + "Fizz" + " " + "4" + " " + "Buzz" == "1 2 Fizz 4 Buzz"
  {
  }

  lemma SpelledSixToTen()
    ensures "Fizz" + " " + "7" + " " + "8" + " " + "Fizz" + " " + "Buzz" == "Fizz 7 8 Fizz Buzz"
  {
  }

  lemma SpelledElevenToFifteen()
    ensures "11" + " " + "Fizz" + " " + "13" + " " + "14" + " " + "FizzBuzz" == "11 Fizz 13 14 FizzBuzz"
  {
  }

  lemma SpelledOutTen()
    ensures "1 2 Fizz 4 Buzz" + " " + "Fizz 7 8 Fizz Buzz" == "1 2 Fizz 4 Buzz Fizz 7 8 Fizz Buzz"
  {
  }

  lemma SpelledOutFifteen()
    ensures "1 2 Fizz 4 Buzz Fizz 7 8 Fizz Buzz" + " " + "11 Fizz 13 14 FizzBuzz"
         == "1 2 Fizz 4 Buzz Fizz 7 8 Fizz Buzz 11 Fizz 13 14 FizzBuzz"
  {
  }
}

/** The classic round worked through: the classic rules applied to the
    numbers 1 to 15, and the answer `Solve` returns for them.  The round is cut
    into three runs of five whose answers are proved separately and then
    joined. */
module FizzBuzzRound {
  import opened FizzBot
  import opened ClassicGame
  import opened ClassicText

  /** The tokens of 1 to 5 under the classic rules. */
  lemma TokensOneToFive(numbers: seq<int>, rules: seq<Rule>)
    requires IsClassic(rules)
    requires |numbers| == 5 && CountsUpFrom(numbers, 1)
    ensures Token(numbers[0], rules) == "1"
    ensures Token(numbers[1], rules) == "2"
    ensures Token(numbers[2], rules) == "Fizz"
    ensures Token(numbers[3], rules) == "4"
    ensures Token(numbers[4], rules) == "Buzz"
  {
    ClassicNumeral(numbers[0], rules);
    ClassicNumeral(numbers[1], rules);
    ClassicFizz(numbers[2], rules);
    ClassicNumeral(numbers[3], rules);
    ClassicBuzz(numbers[4], rules);
  }

  /** The answer to the numbers 1 to 5 under the classic rules:
      "1 2 Fizz 4 Buzz". */
  lemma AnswerOneToFive(numbers: seq<int>, rules: seq<Rule>)
    requires IsClassic(rules)
    requires |numbers| == 5 && CountsUpFrom(numbers, 1)
    ensures Answer(numbers, rules) == "1 2 Fizz 4 Buzz"
  {
    assert NonZeroDivisors(rules);
    TokensOneToFive(numbers, rules);
    AnswerOfFive(numbers, rules);
    SpelledOneToFive();
  }

  /** The tokens of 6 to 10 under the classic rules. */
  lemma TokensSixToTen(numbers: seq<int>, rules: seq<Rule>)
    requires IsClassic(rules)
    requires |numbers| == 5 && CountsUpFrom(numbers, 6)
    ensures Token(numbers[0], rules) == "Fizz"
    ensures Token(numbers[1], rules) == "7"
    ensures Token(numbers[2], rules) == "8"
    ensures Token(numbers[3], rules) == "Fizz"
    ensures Token(numbers[4], rules) == "Buzz"
  {
    ClassicFizz(numbers[0], rules);
    ClassicNumeral(numbers[1], rules);
    ClassicNumeral(numbers[2], rules);
    ClassicFizz(numbers[3], rules);
    ClassicBuzz(numbers[4], rules);
  }

  /** The answer to the numbers 6 to 10 under the classic rules. */
  lemma AnswerSixToTen(numbers: seq<int>, rules: seq<Rule>)
    requires IsClassic(rules)
    requires |numbers| == 5 && CountsUpFrom(numbers, 6)
    ensures Answer(numbers, rules) == "Fizz 7 8 Fizz Buzz"
  {
    assert NonZeroDivisors(rules);
    TokensSixToTen(numbers, rules);
    AnswerOfFive(numbers, rules);
    SpelledSixToTen();
  }

  /** The tokens of 11 to 15 under the classic rules. */
  lemma TokensElevenToFifteen(numbers: seq<int>, rules: seq<Rule>)
    requires IsClassic(rules)
    requires |numbers| == 5 && CountsUpFrom(numbers, 11)
    ensures Token(numbers[0], rules) == "11"
    ensures Token(numbers[1], rules) == "Fizz"
    ensures Token(numbers[2], rules) == "13"
    ensures Token(numbers[3], rules) == "14"
    ensures Token(numbers[4], rules) == "FizzBuzz"
  {
    TwoDigitNumerals();
    ClassicNumeral(numbers[0], rules);
    ClassicFizz(numbers[1], rules);
    ClassicNumeral(numbers[2], rules);
    ClassicNumeral(numbers[3], rules);
    ClassicFizzBuzz(numbers[4], rules);
  }

  /** The answer to the numbers 11 to 15 under the classic rules. */
  lemma AnswerElevenToFifteen(numbers: seq<int>, rules: seq<Rule>)
    requires IsClassic(rules)
    requires |numbers| == 5 && CountsUpFrom(numbers, 11)
    ensures Answer(numbers, rules) == "11 Fizz 13 14 FizzBuzz"
  {
    assert NonZeroDivisors(rules);
    TokensElevenToFifteen(numbers, rules);
    AnswerOfFive(numbers, rules);
    SpelledElevenToFifteen();
  }

  /** The three runs of five inside 1 to 15 count up from 1, 6 and 11. */
  lemma CountsUpFromSlices(numbers: seq<int>)
    requires |numbers| == 15 && CountsUpFrom(numbers, 1)
    ensures CountsUpFrom(numbers[..5], 1) && CountsUpFrom(numbers[5..10], 6) && CountsUpFrom(numbers[10..], 11)
  {
    forall k | 0 <= k < 5 ensures numbers[..5][k] == 1 + k { assert numbers[k] == 1 + k; }
    forall k | 0 <= k < 5 ensures numbers[5..10][k] == 6 + k { assert numbers[5 + k] == 6 + k; }
    forall k | 0 <= k < 5 ensures numbers[10..][k] == 11 + k { assert numbers[10 + k] == 11 + k; }
  }

  /** The answer to the classic round, the numbers 1 to 15: the single
      space-separated line of their tokens in order. */
  lemma ClassicFifteen(numbers: seq<int>, rules: seq<Rule>)
    requires IsClassic(rules)
    requires |numbers| == 15 && CountsUpFrom(numbers, 1)
    ensures Answer(numbers, rules) == "1 2 Fizz 4 Buzz Fizz 7 8 Fizz Buzz 11 Fizz 13 14 FizzBuzz"
  {
    assert NonZeroDivisors(rules);
    CountsUpFromSlices(numbers);
    AnswerOneToFive(numbers[..5], rules);
    AnswerSixToTen(numbers[5..10], rules);
    AnswerElevenToFifteen(numbers[10..], rules);
    AnswerOfThree(numbers, 5, 10, rules);
    SpelledOutTen();
    SpelledOutFifteen();
  }

  /** The classic round played with the classic rule list itself. */
  lemma ClassicRound(numbers: seq<int>)
    requires |numbers| == 15 && CountsUpFrom(numbers, 1)
    ensures Answer(numbers, ClassicRules) == "1 2 Fizz 4 Buzz Fizz 7 8 Fizz Buzz 11 Fizz 13 14 FizzBuzz"
  {
    ClassicFifteen(numbers, ClassicRules);
  }
}
