/** The FizzBuzz rule engine of the fizzbot client: `FizzBuzz` answers one
    number from an ordered list of (divisor, response) rules, and `Solve`
    answers a whole question, a list of numbers, with one token per number. */
module FizzBot {
  import opened Numerals
  import opened GoInt
  import opened Strings

  /** A substitution rule: a number that `Number` divides contributes `Response`. */
  datatype Rule = Rule(Number: int, Response: string)

  /** The answer sent for the starter question, which has no numbers. */
  const StarterAnswer := "go"

  /** Every divisor is non-zero. Go's `%` panics on a zero divisor, so this is
      what a caller must guarantee for `FizzBuzz` to return at all. */
  predicate NonZeroDivisors(rules: seq<Rule>) {
    forall i :: 0 <= i < |rules| ==> rules[i].Number != 0
  }

  /** fizzbot.go's test `num%v.Number == 0`, with Go's truncating `%`. */
  predicate Matches(num: int, rule: Rule)
    requires rule.Number != 0
  {
    GoRem(num, rule.Number) == 0
  }

  /** The test of a rule is divisibility: the divisor divides the number. */
  lemma MatchesIffDivides(num: int, rule: Rule)
    requires rule.Number != 0
    ensures Matches(num, rule) <==> num % rule.Number == 0
  {
    GoRemZeroIffDivides(num, rule.Number);
  }

  /** No rule's response contains the character `c`. */
  predicate ResponsesAvoid(rules: seq<Rule>, c: char) {
    forall i :: 0 <= i < |rules| ==> c !in rules[i].Response
  }

  /** The rules whose divisor divides `num`, kept in list order. */
  function Matching(num: int, rules: seq<Rule>): (m: seq<Rule>)
    requires NonZeroDivisors(rules)
    ensures |m| <= |rules|
    ensures forall r :: r in m <==> r in rules && r.Number != 0 && Matches(num, r)
  {
    if rules == [] then []
    else if Matches(num, rules[0]) then [rules[0]] + Matching(num, rules[1..])
    else Matching(num, rules[1..])
  }

  /** The responses of `rules` run together in order, with no separator. */
  function ConcatResponses(rules: seq<Rule>): string {
    if rules == [] then "" else rules[0].Response + ConcatResponses(rules[1..])
  }

  /** What the loop of `FizzBuzz` has accumulated after going through `rules`. */
  function Accumulated(num: int, rules: seq<Rule>): string
    requires NonZeroDivisors(rules)
  {
    ConcatResponses(Matching(num, rules))
  }

  /** The token `FizzBuzz` answers for `num`: the accumulated responses, or the
      numeral of `num` when the accumulated string is empty. The token is
      never empty. */
  function Token(num: int, rules: seq<Rule>): (t: string)
    requires NonZeroDivisors(rules)
    ensures |t| >= 1
  {
    var acc := Accumulated(num, rules);
    if acc == "" then IntToDecimal(num) else acc
  }

  /** The token of each number, in input order. */
  function Tokens(numbers: seq<int>, rules: seq<Rule>): (ts: seq<string>)
    requires NonZeroDivisors(rules)
    ensures |ts| == |numbers|
    ensures forall k :: 0 <= k < |numbers| ==> ts[k] == Token(numbers[k], rules)
  {
    if numbers == [] then [] else [Token(numbers[0], rules)] + Tokens(numbers[1..], rules)
  }

  /** The answer `Solve` returns for a question. It is never empty. The rules
      are only consulted when there are numbers, so only then must every
      divisor be non-zero. */
  function Answer(numbers: seq<int>, rules: seq<Rule>): (a: string)
    requires |numbers| == 0 || NonZeroDivisors(rules)
    ensures |a| >= 1
  {
    if |numbers| == 0 then StarterAnswer else Join(Tokens(numbers, rules), " ")
  }

  /** fizzbot.go `FizzBuzz`: one pass over the rules appending the response of
      each rule that divides `num`, then the numeral if the accumulated string is empty. */
  method FizzBuzz(num: int, rules: seq<Rule>) returns (result: string)
    requires NonZeroDivisors(rules)
    ensures result == Token(num, rules)
  {
    result := "";
    for i := 0 to |rules|
      invariant NonZeroDivisors(rules[..i])
      invariant result == Accumulated(num, rules[..i])
    {
      assert rules[..i + 1] == rules[..i] + [rules[i]];
      AccumulatedSnoc(num, rules[..i], rules[i]);
      if GoRem(num, rules[i].Number) == 0 {
        result := result + rules[i].Response;
      }
    }
    assert rules[..|rules|] == rules;
    if result == "" {
      result := IntToDecimal(num);
    }
  }

  /** fizzbot.go `Solve`: "go" for a question without numbers; otherwise a
      slice filled with the token of each number, joined with single spaces. */
  method Solve(numbers: seq<int>, rules: seq<Rule>) returns (answer: string)
    requires |numbers| == 0 || NonZeroDivisors(rules)
    ensures answer == Answer(numbers, rules)
  {
    if |numbers| == 0 {
      return StarterAnswer;
    }
    assert NonZeroDivisors(rules);
    var result := new string[|numbers|];
    for i := 0 to |numbers|
      invariant forall k :: 0 <= k < i ==> result[k] == Token(numbers[k], rules)
    {
      result[i] := FizzBuzz(numbers[i], rules);
    }
    AnswerByEntries(result[..], numbers, rules);
    answer := Join(result[..], " ");
  }

  lemma {:induction false} MatchingAppend(num: int, a: seq<Rule>, b: seq<Rule>)
    requires NonZeroDivisors(a) && NonZeroDivisors(b)
    ensures NonZeroDivisors(a + b)
    ensures Matching(num, a + b) == Matching(num, a) + Matching(num, b)
    decreases |a|
  {
    if a != [] {
      assert (a + b)[1..] == a[1..] + b;
      MatchingAppend(num, a[1..], b);
    } else {
      assert a + b == b;
    }
  }

  lemma {:induction false} ConcatResponsesAppend(a: seq<Rule>, b: seq<Rule>)
    ensures ConcatResponses(a + b) == ConcatResponses(a) + ConcatResponses(b)
    decreases |a|
  {
    if a != [] {
      assert (a + b)[1..] == a[1..] + b;
      ConcatResponsesAppend(a[1..], b);
    } else {
      assert a + b == b;
    }
  }

  /** One more rule extends the accumulator by its response exactly when its
      divisor divides `num`: the step of the loop in `FizzBuzz`. */
  lemma AccumulatedSnoc(num: int, rules: seq<Rule>, r: Rule)
    requires NonZeroDivisors(rules) && r.Number != 0
    ensures NonZeroDivisors(rules + [r])
    ensures Accumulated(num, rules + [r])
         == Accumulated(num, rules) + (if Matches(num, r) then r.Response else "")
  {
    MatchingAppend(num, rules, [r]);
    ConcatResponsesAppend(Matching(num, rules), Matching(num, [r]));
  }

  /** With no rules at all, the token is the numeral. */
  lemma EmptyRulesGiveNumeral(num: int)
    ensures Token(num, []) == IntToDecimal(num)
  {
  }

  /** When no divisor divides `num`, the token is the numeral. */
  lemma NoMatchGivesNumeral(num: int, rules: seq<Rule>)
    requires NonZeroDivisors(rules)
    requires forall i :: 0 <= i < |rules| ==> !Matches(num, rules[i])
    ensures Token(num, rules) == IntToDecimal(num)
  {
  }

  /** The accumulator is empty exactly when every rule that divides `num` has an
      empty response (which includes the case that none divides it). */
  lemma {:induction false} AccumulatedEmptyIff(num: int, rules: seq<Rule>)
    requires NonZeroDivisors(rules)
    ensures Accumulated(num, rules) == ""
        <==> forall i :: 0 <= i < |rules| && Matches(num, rules[i]) ==> rules[i].Response == ""
    decreases |rules|
  {
    if rules != [] {
      AccumulatedEmptyIff(num, rules[1..]);
      assert forall i :: 1 <= i < |rules| ==> rules[i] == rules[1..][i - 1];
    }
  }

  /** If some dividing rule has a non-empty response, the token is the
      concatenation, in list order, of the responses of the dividing rules. */
  lemma TokenIsConcatenation(num: int, rules: seq<Rule>, j: nat)
    requires NonZeroDivisors(rules)
    requires j < |rules| && Matches(num, rules[j]) && rules[j].Response != ""
    ensures Token(num, rules) == ConcatResponses(Matching(num, rules))
  {
    AccumulatedEmptyIff(num, rules);
  }

  /** The fallback depends on the accumulator, not on whether a rule matched:
      if every dividing rule has an empty response, the token is the numeral. */
  lemma SilentMatchesGiveNumeral(num: int, rules: seq<Rule>)
    requires NonZeroDivisors(rules)
    requires forall i :: 0 <= i < |rules| && Matches(num, rules[i]) ==> rules[i].Response == ""
    ensures Token(num, rules) == IntToDecimal(num)
  {
    AccumulatedEmptyIff(num, rules);
  }

  /** A rule that divides the number but has an empty response still leaves the
      numeral as the token. */
  lemma MatchedRuleWithEmptyResponse()
    ensures Matches(3, Rule(3, "")) && Token(3, [Rule(3, "")]) == "3"
  {
    assert Matching(3, [Rule(3, "")]) == [Rule(3, "")];
    assert NatToDecimal(3) == "3";
  }

  /** When exactly one rule divides `num` and its response is non-empty, the
      token is that response. */
  lemma SingleMatchGivesItsResponse(num: int, rules: seq<Rule>, j: nat)
    requires NonZeroDivisors(rules)
    requires j < |rules| && Matches(num, rules[j]) && rules[j].Response != ""
    requires forall i :: 0 <= i < |rules| && i != j ==> !Matches(num, rules[i])
    ensures Token(num, rules) == rules[j].Response
  {
    OnlyMatch(num, rules, j);
    assert ConcatResponses([rules[j]]) == rules[j].Response + ConcatResponses([]);
  }

  /** When exactly one rule matches, it is the whole filtered list. */
  lemma OnlyMatch(num: int, rules: seq<Rule>, j: nat)
    requires NonZeroDivisors(rules)
    requires j < |rules| && Matches(num, rules[j])
    requires forall i :: 0 <= i < |rules| && i != j ==> !Matches(num, rules[i])
    ensures Matching(num, rules) == [rules[j]]
  {
    var before, after := rules[..j], rules[j + 1..];
    assert rules == before + ([rules[j]] + after);
    assert NonZeroDivisors(before) && NonZeroDivisors(after);
    assert Matching(num, before) == [] by {
      forall i | 0 <= i < |before| ensures !Matches(num, before[i]) {
        assert before[i] == rules[i];
      }
      NoMatchIsEmpty(num, before);
    }
    assert Matching(num, after) == [] by {
      forall i | 0 <= i < |after| ensures !Matches(num, after[i]) {
        assert after[i] == rules[j + 1 + i];
      }
      NoMatchIsEmpty(num, after);
    }
    MatchingAppend(num, [rules[j]], after);
    MatchingAppend(num, before, [rules[j]] + after);
  }


  /** When no rule matches, the filtered list is empty. */
  lemma NoMatchIsEmpty(num: int, rules: seq<Rule>)
    requires NonZeroDivisors(rules)
    requires forall i :: 0 <= i < |rules| ==> !Matches(num, rules[i])
    ensures Matching(num, rules) == []
  {
  }

  lemma {:induction false} ConcatResponsesAvoids(rules: seq<Rule>, c: char)
    requires ResponsesAvoid(rules, c)
    ensures c !in ConcatResponses(rules)
    decreases |rules|
  {
    if rules != [] {
      assert ResponsesAvoid(rules[1..], c);
      ConcatResponsesAvoids(rules[1..], c);
    }
  }

  /** A token holds no character that is neither in a response nor in a
      numeral (a digit or '-'). */
  lemma TokenAvoids(num: int, rules: seq<Rule>, c: char)
    requires NonZeroDivisors(rules) && ResponsesAvoid(rules, c)
    requires !IsDigit(c) && c != '-'
    ensures c !in Token(num, rules)
  {
    var m := Matching(num, rules);
    forall i | 0 <= i < |m| ensures c !in m[i].Response {
      assert m[i] in rules;
    }
    ConcatResponsesAvoids(m, c);
  }

  /** A list that holds, entry by entry, the token of each number is the
      token list, so joining it gives the answer: what the slice of `Solve`
      holds after its loop. */
  lemma AnswerByEntries(ts: seq<string>, numbers: seq<int>, rules: seq<Rule>)
    requires NonZeroDivisors(rules)
    requires |numbers| >= 1 && |ts| == |numbers|
    requires forall k :: 0 <= k < |numbers| ==> ts[k] == Token(numbers[k], rules)
    ensures ts == Tokens(numbers, rules)
    ensures Answer(numbers, rules) == Join(ts, " ")
  {
  }

  /** A question without numbers is answered with the starter answer "go",
      whatever the rules. */
  lemma AnswerWithoutNumbers(rules: seq<Rule>)
    ensures Answer([], rules) == "go"
  {
  }

  /** A single number is answered with its token alone. */
  lemma AnswerOfOneNumber(num: int, rules: seq<Rule>)
    requires NonZeroDivisors(rules)
    ensures Answer([num], rules) == Token(num, rules)
  {
  }

  /** The answer for two non-empty runs of numbers is the answer for the first
      run, a single space, and the answer for the second: tokens stay in input
      order and nothing else is inserted. */
  lemma AnswerAppend(a: seq<int>, b: seq<int>, rules: seq<Rule>)
    requires NonZeroDivisors(rules)
    requires |a| >= 1 && |b| >= 1
    ensures Answer(a + b, rules) == Answer(a, rules) + " " + Answer(b, rules)
  {
    assert Tokens(a + b, rules) == Tokens(a, rules) + Tokens(b, rules);
    JoinAppend(Tokens(a, rules), Tokens(b, rules), " ");
  }

  /** Cutting the numbers at two places: the answer is the answers of the
      three runs joined with single spaces. */
  lemma AnswerOfThree(numbers: seq<int>, i: nat, j: nat, rules: seq<Rule>)
    requires NonZeroDivisors(rules)
    requires 1 <= i < j < |numbers|
    ensures Answer(numbers, rules)
         == Answer(numbers[..i], rules) + " " + Answer(numbers[i..j], rules) + " " + Answer(numbers[j..], rules)
  {
    var a, b, c := numbers[..i], numbers[i..j], numbers[j..];
    assert numbers == (a + b) + c;
    AnswerAppend(a, b, rules);
    AnswerAppend(a + b, c, rules);
  }

  /** The answer to five numbers is their five tokens joined by single spaces. */
  lemma AnswerOfFive(numbers: seq<int>, rules: seq<Rule>)
    requires NonZeroDivisors(rules)
    requires |numbers| == 5
    ensures Answer(numbers, rules)
         == Token(numbers[0], rules) + " " + Token(numbers[1], rules) + " " + Token(numbers[2], rules) + " "
          + Token(numbers[3], rules) + " " + Token(numbers[4], rules)
  {
    JoinOfFive(Tokens(numbers, rules), " ");
  }

  /** When no response contains a space, splitting a non-empty answer at its
      spaces gives back exactly one token per number, in input order. */
  lemma AnswerSplitsIntoTokens(numbers: seq<int>, rules: seq<Rule>)
    requires NonZeroDivisors(rules) && ResponsesAvoid(rules, ' ')
    requires |numbers| >= 1
    ensures var pieces := Split(Answer(numbers, rules), ' ');
            |pieces| == |numbers| &&
            forall i :: 0 <= i < |numbers| ==> pieces[i] == Token(numbers[i], rules)
  {
    var ts := Tokens(numbers, rules);
    forall i | 0 <= i < |ts| ensures ' ' !in ts[i] {
      TokenAvoids(numbers[i], rules, ' ');
    }
    SplitJoin(ts, ' ');
  }
}
