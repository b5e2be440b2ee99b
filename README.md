# fizzbot rule engine in Dafny

This project models the answer engine of the fizzbot client, a Go program that
plays a generalised FizzBuzz. A question is made of an ordered list of rules,
each a pair (divisor, response), and a list of numbers.

- `FizzBuzz(num, rules)` walks the rules in order. It appends the response of
  every rule whose divisor divides `num`, using Go's `%`. If the accumulated
  string is empty, it answers the decimal numeral of `num`.
- `Solve(numbers, rules)` answers the starter question, which has no numbers,
  with `"go"`. Otherwise it fills a slice with the `FizzBuzz` token of each
  number and joins the slice with single spaces.

Both Go functions update local state in a loop. They are modelled as the
methods `FizzBot.FizzBuzz` and `FizzBot.Solve`, each proved equal to a pure
specification function (`Token` and `Answer`). The properties are proved as
lemmas about those functions.

Modules:
- `GoInt` models Go's truncating remainder (`GoRem`) and relates it to
  Dafny's Euclidean `%`.
- `Numerals` models `fmt.Sprintf("%d", n)` (`IntToDecimal`). Its partner is
  `ParseInt`.
- `Strings` models `strings.Join`. Its partner is `Split`.
- `FizzBot` models the rule engine itself.
- `ClassicGame`, `ClassicText` and `FizzBuzzRound` work through the classic
  instance. The rules are (3, "Fizz") and (5, "Buzz"), played on 1 to 15.

A rule is the datatype `FizzBot.Rule(Number, Response)`, the Go struct
`Rule` (fizzbot/fizzbot.go:13-16). The constant `FizzBot.StarterAnswer` is the
`"go"` that `Solve` returns for the starter question (fizzbot/fizzbot.go:108).

`num%v.Number` panics in Go when the divisor is zero. So `FizzBuzz` requires
every divisor to be non-zero (`NonZeroDivisors`). `Solve` requires it only when
there are numbers to answer: with no numbers it returns "go" before it looks
at any rule. A zero divisor is not treated as a rule that never matches.

## Model

| member | source | states |
|---|---|---|
| FizzBot.FizzBuzz | fizzbot/fizzbot.go:89-103 | With every divisor non-zero, the loop over the rules returns exactly `Token(num, rules)`: the responses of the dividing rules in list order, or the numeral when that is empty. The loop invariant is that the accumulator equals the responses of the dividing rules seen so far. |
| FizzBot.Solve | fizzbot/fizzbot.go:105-115 | The method returns `Answer(numbers, rules)`: "go" for no numbers, whatever the rules, even with zero divisors; otherwise, with every divisor non-zero, the token of each number joined with single spaces. The loop invariant is that each filled slice slot holds its number's token. |
| FizzBot.Answer | fizzbot/fizzbot.go:105-115 | Defines the answer to a question: "go" when there are no numbers, otherwise the tokens joined with single spaces. It needs non-zero divisors only when there are numbers, and the answer is never empty. |
| FizzBot.AnswerByEntries | fizzbot/fizzbot.go:110-114 | A slice whose entry k is the token of number k is the token list, and joining it with spaces gives the answer. |
| FizzBot.Matches | fizzbot/fizzbot.go:93 | Defines the test `num%v.Number == 0` with Go's truncating remainder, for a non-zero divisor. |
| FizzBot.MatchesIffDivides | fizzbot/fizzbot.go:93 | A rule's test holds exactly when its divisor divides the number. |
| FizzBot.Accumulated | fizzbot/fizzbot.go:90-96 | Defines the value of `result` after the loop: the responses of the matching rules, in list order. |
| FizzBot.ConcatResponses | fizzbot/fizzbot.go:94 | Defines the responses of a rule list run together in order, with no separator. |
| FizzBot.Matching | fizzbot/fizzbot.go:92-96 | The rules the loop takes a response from are exactly those in the list whose divisor divides `num`, and there are no more of them than rules. |
| FizzBot.Token | fizzbot/fizzbot.go:98-102 | A token is never empty: the fallback replaces an empty accumulator by a numeral, which has at least one character. |
| FizzBot.Tokens | fizzbot/fizzbot.go:110-113 | The slice has one entry per number, and entry k is the token of number k. |
| FizzBot.AccumulatedSnoc | fizzbot/fizzbot.go:92-96 | One loop step extends the accumulator by the rule's response exactly when its divisor divides `num`, and otherwise leaves it unchanged. |
| FizzBot.EmptyRulesGiveNumeral | fizzbot/fizzbot.go:89-102 | With no rules, the token is the numeral of `num`. |
| FizzBot.NoMatchGivesNumeral | fizzbot/fizzbot.go:92-100 | When no divisor divides `num`, the token is its numeral. |
| FizzBot.AccumulatedEmptyIff | fizzbot/fizzbot.go:90-98 | The accumulator is empty if and only if every dividing rule has an empty response. |
| FizzBot.TokenIsConcatenation | fizzbot/fizzbot.go:90-100 | If some dividing rule has a non-empty response, the token is the concatenation, in rule order and without separator, of the responses of all dividing rules. |
| FizzBot.SilentMatchesGiveNumeral | fizzbot/fizzbot.go:98-100 | The fallback depends on an empty accumulator, not on "no rule matched": if every dividing rule has an empty response, the token is still the numeral. |
| FizzBot.MatchedRuleWithEmptyResponse | fizzbot/fizzbot.go:98-100 | Concrete case: rule (3, "") matches 3, yet the token of 3 is "3". |
| FizzBot.OnlyMatch | fizzbot/fizzbot.go:92-96 | When exactly one rule divides `num`, that rule is the only one the loop takes a response from. |
| FizzBot.NoMatchIsEmpty | fizzbot/fizzbot.go:92-96 | When no rule divides `num`, the loop takes no response. |
| FizzBot.SingleMatchGivesItsResponse | fizzbot/fizzbot.go:90-100 | When exactly one rule divides `num` and its response is non-empty, the token is that response. |
| FizzBot.ConcatResponsesAvoids | fizzbot/fizzbot.go:94 | A character that no response contains does not appear in the concatenation of responses. |
| FizzBot.TokenAvoids | fizzbot/fizzbot.go:89-102 | A token contains only characters from the responses or from a numeral (digits and '-'). |
| FizzBot.AnswerWithoutNumbers | fizzbot/fizzbot.go:106-108 | A question without numbers is answered "go", whatever the rules, rules with a zero divisor included. |
| FizzBot.AnswerOfOneNumber | fizzbot/fizzbot.go:110-114 | A single number is answered with its token alone. |
| FizzBot.AnswerAppend | fizzbot/fizzbot.go:110-114 | The answer for two non-empty runs of numbers is the first run's answer, one space, then the second run's answer. Order is kept and nothing else is inserted. |
| FizzBot.AnswerOfThree | fizzbot/fizzbot.go:110-114 | Cut the numbers at two places into three non-empty runs: the answer is the three runs' answers separated by single spaces. |
| FizzBot.AnswerOfFive | fizzbot/fizzbot.go:110-114 | The answer for five numbers is their five tokens separated by single spaces. |
| FizzBot.AnswerSplitsIntoTokens | fizzbot/fizzbot.go:110-114 | When no response contains a space, splitting a non-empty answer at its spaces gives back exactly one piece per number, and piece i is the token of number i. |
| FizzBot.MatchingAppend | fizzbot/fizzbot.go:92-96 | Filtering a concatenated rule list filters each part in order. |
| FizzBot.ConcatResponsesAppend | fizzbot/fizzbot.go:94 | Concatenating the responses of two rule lists concatenates the two results. |
| GoInt.GoRem | fizzbot/fizzbot.go:93 | Go's `%` is defined only for a non-zero divisor. Its result is smaller in magnitude than the divisor, has the sign of the dividend, and differs from the dividend by a multiple of the divisor. |
| GoInt.NonNegativeRemainder | fizzbot/fizzbot.go:93 | For a non-negative dividend, the dividend minus its remainder by the divisor's magnitude is a multiple of the divisor. |
| GoInt.NegativeRemainder | fizzbot/fizzbot.go:93 | For a negative dividend, the dividend plus the remainder of its negation is a multiple of the divisor. |
| GoInt.GoRemZeroIffDivides | fizzbot/fizzbot.go:93 | `num % d == 0` with Go's truncating `%` holds if and only if it holds with Euclidean `%`, that is, when d divides num. |
| GoInt.ModUnique | fizzbot/fizzbot.go:93 | A Euclidean remainder is unique, which is what relates the two remainder conventions. |
| GoInt.ModZeroSymmetric | fizzbot/fizzbot.go:93 | Divisibility does not depend on the sign of the divisor or of the dividend. |
| Numerals.DigitChar | fizzbot/fizzbot.go:99 | Each digit value has a digit character that reads back as that value, and only 0 gives '0'. |
| Numerals.NatToDecimal | fizzbot/fizzbot.go:99 | The numeral of a natural number is canonical: digits only, and no leading zero unless it is "0". |
| Numerals.IntToDecimal | fizzbot/fizzbot.go:99 | `%d` is non-empty and starts with '-' exactly for negative numbers. After the sign it is canonical. |
| Numerals.ParseIntToDecimal | fizzbot/fizzbot.go:99 | Reading back the numeral of n gives n. |
| Numerals.IntToDecimalOfParseInt | fizzbot/fizzbot.go:99 | Every canonical numeral is the `%d` of the number it denotes. |
| Numerals.IntToDecimalInjective | fizzbot/fizzbot.go:99 | Different numbers have different numerals. |
| Numerals.NatValueOfNatToDecimal | fizzbot/fizzbot.go:99 | The value of the numeral of n is n. |
| Numerals.NatToDecimalOfNatValue | fizzbot/fizzbot.go:99 | A canonical digit string is the numeral of its value. |
| Strings.Join | fizzbot/fizzbot.go:114 | Defines `strings.Join`: "" for no elements, the element itself for one, otherwise the elements with the separator between neighbours. A non-empty join starts with its first element. |
| Strings.JoinAppend | fizzbot/fizzbot.go:114 | Joining two non-empty lists gives the join of each with one separator between them. |
| Strings.JoinSuffix | fizzbot/fizzbot.go:114 | Joining a suffix of at least two elements gives its first element, the separator, then the join of the rest. |
| Strings.JoinOfFive | fizzbot/fizzbot.go:114 | The join of five elements is the elements with the separator between neighbours. |
| Strings.Split | fizzbot/fizzbot.go:114 | Splitting always gives at least one piece. It is the partner of `Join`. |
| Strings.SplitPrefix | fizzbot/fizzbot.go:114 | A prefix without the separator stays glued to the first piece of what follows it. |
| Strings.SplitJoin | fizzbot/fizzbot.go:114 | Joining with a one-character separator that no element contains, then splitting at it, gives back the elements. |
| ClassicGame.ClassicToken | fizzbot/fizzbot.go:89-103 | Under the rules (3, "Fizz"), (5, "Buzz"), the token is "Fizz" if 3 divides n, followed by "Buzz" if 5 divides n. It is the numeral if neither divides n. |
| ClassicGame.ClassicNumeral | fizzbot/fizzbot.go:89-103 | Under the classic rules, a number divisible by neither 3 nor 5 gets its numeral. |
| ClassicGame.ClassicFizz | fizzbot/fizzbot.go:89-103 | Under the classic rules, a number divisible by 3 but not by 5 gets "Fizz". |
| ClassicGame.ClassicBuzz | fizzbot/fizzbot.go:89-103 | Under the classic rules, a number divisible by 5 but not by 3 gets "Buzz". |
| ClassicGame.ClassicFizzBuzz | fizzbot/fizzbot.go:89-103 | Under the classic rules, a number divisible by both gets "FizzBuzz", with the responses in rule order. |
| ClassicGame.ClassicSamples | fizzbot/fizzbot.go:89-103 | Under the classic rules, 15 gives "FizzBuzz", 9 gives "Fizz", 10 gives "Buzz" and 7 gives "7". |
| ClassicGame.TwoDigitNumerals | fizzbot/fizzbot.go:99 | The numerals of 11, 13 and 14 are "11", "13" and "14". |
| FizzBuzzRound.TokensOneToFive | fizzbot/fizzbot.go:89-103 | Under the classic rules, the tokens of 1 to 5 are 1, 2, Fizz, 4, Buzz. |
| FizzBuzzRound.TokensSixToTen | fizzbot/fizzbot.go:89-103 | Under the classic rules, the tokens of 6 to 10 are Fizz, 7, 8, Fizz, Buzz. |
| FizzBuzzRound.TokensElevenToFifteen | fizzbot/fizzbot.go:89-103 | Under the classic rules, the tokens of 11 to 15 are 11, Fizz, 13, 14, FizzBuzz. |
| FizzBuzzRound.AnswerOneToFive | fizzbot/fizzbot.go:105-115 | Under the classic rules, the numbers 1 to 5 are answered "1 2 Fizz 4 Buzz". |
| FizzBuzzRound.AnswerSixToTen | fizzbot/fizzbot.go:105-115 | Under the classic rules, the numbers 6 to 10 are answered "Fizz 7 8 Fizz Buzz". |
| FizzBuzzRound.AnswerElevenToFifteen | fizzbot/fizzbot.go:105-115 | Under the classic rules, the numbers 11 to 15 are answered "11 Fizz 13 14 FizzBuzz". |
| FizzBuzzRound.CountsUpFromSlices | main.go:135-137 | The three runs of five inside the worked input 1 to 15 count up from 1, 6 and 11. |
| FizzBuzzRound.ClassicFifteen | main.go:135-137 | Under the classic rules, the numbers 1 to 15 are answered "1 2 Fizz 4 Buzz Fizz 7 8 Fizz Buzz 11 Fizz 13 14 FizzBuzz", the answer written in the commented-out submission at main.go:135-137. |
| FizzBuzzRound.ClassicRound | main.go:135-137 | The same answer, stated for the literal rule list `[Rule(3, "Fizz"), Rule(5, "Buzz")]`. |

## Left out

- `GetQuestion` and `PostAnswer` (fizzbot/fizzbot.go:41-87, main.go:171-257) are left out. They do HTTP requests and JSON decoding, which is network I/O.
- The YAML save file and the stage archive are left out. This covers `GetLastStage` (main.go:24-36) and the file writes inside `PostAnswer` (main.go:220-255). Both are file I/O.
- The next-question hash extraction (main.go:227) is left out. It indexes into the output of `strings.Split` and is tied to the persistence side effects.
- The cobra command-line wiring and the unused prompt completer (main.go:45-141) are left out. They are user-interface plumbing.
- `Rule.String` (fizzbot/fizzbot.go:18-20, main.go:150-152) is left out. It only formats a rule for display.
- No session loop is modelled, because the program has none. Each command handles one question and then exits; none of them loops.
- FizzBot.FizzBuzz: the model uses unbounded integers, so it does not model Go's fixed-width `int`. For every value that fits, `%` and `%d` give the model's result. The numbers come from JSON decoding, which is not modelled.
- FizzBot.FizzBuzz: Go's `%` panics for a zero divisor, so every rule's divisor being non-zero is a precondition. The same holds for `Solve` when it has numbers. The panic itself is not modelled.
- Go strings are byte sequences. The model uses `seq<char>`, with no encoding.
- `Solve` fills a Go slice. The model fills a Dafny array of the same length, and no other code can see that array.
