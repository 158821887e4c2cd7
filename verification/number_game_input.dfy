/**
 * `handleSolve`: turns the two text fields of the number-game form into a
 * call of the solver, or into one of three error messages. The numbers
 * field is split on commas, each piece trimmed and blank pieces dropped;
 * every remaining token must `parseInt` to a positive number and the
 * trimmed target field must `parseInt` to a number at all. The numbers are
 * sorted ascending before they are solved, which the lemmas show cannot
 * change the answer.
 */
module NumberGameInput {
  import opened Wrappers
  import opened JsText
  import opened NumberGame
  import opened NumberGameProperties

  const ERROR_NO_INPUT := "Please enter at least one number."
  const ERROR_TARGET := "Invalid Target. Please enter an integer."

  function InvalidNumberMessage(token: string): string
  {
    "Invalid number found: \"" + token + "\". All numbers must be positive integers."
  }

  /** What `handleSolve` does with its input: show an error message, or call the solver. */
  datatype Decision = Rejected(message: string) | Solve(numbers: seq<int>, target: int)

  /** The trimmed pieces that are not empty, in order. */
  function NonBlankTrimmed(pieces: seq<string>): (r: seq<string>)
    ensures forall k :: 0 <= k < |r| ==> r[k] != ""
  {
    if pieces == [] then []
    else
      var t := Trim(pieces[0]);
      var rest := NonBlankTrimmed(pieces[1..]);
      if t == "" then rest else [t] + rest
  }

  /** No token survives exactly when every piece is blank. */
  lemma {:induction false} NoTokensIffBlank(pieces: seq<string>)
    ensures NonBlankTrimmed(pieces) == [] <==> forall k :: 0 <= k < |pieces| ==> IsBlank(pieces[k])
  {
    if pieces != [] {
      TrimEmptyIffBlank(pieces[0]);
      NoTokensIffBlank(pieces[1..]);
      assert forall k :: 1 <= k < |pieces| ==> pieces[k] == pieces[1..][k - 1];
    }
  }

  /** Every character of `s` is the separator or white space. */
  predicate OnlySeparatorsAndSpace(s: string, sep: char)
  {
    forall i :: 0 <= i < |s| ==> s[i] == sep || IsWhiteSpace(s[i])
  }

  /** The pieces `Split` cuts a string into are all blank exactly when the string holds only separators and white space. */
  lemma {:induction false} JoinBlank(pieces: seq<string>, sep: char)
    requires |pieces| >= 1 && forall k :: 0 <= k < |pieces| ==> sep !in pieces[k]
    ensures (forall k :: 0 <= k < |pieces| ==> IsBlank(pieces[k]))
        <==> OnlySeparatorsAndSpace(Join(pieces, sep), sep)
  {
    if |pieces| > 1 {
      var rest := pieces[1..];
      assert forall k :: 1 <= k < |pieces| ==> pieces[k] == rest[k - 1];
      JoinBlank(rest, sep);
      var head := pieces[0] + [sep];
      var tail := Join(rest, sep);
      var s := Join(pieces, sep);
      assert s == head + tail;
      if forall k :: 0 <= k < |pieces| ==> IsBlank(pieces[k]) {
        forall i | 0 <= i < |s| ensures s[i] == sep || IsWhiteSpace(s[i]) {
          if i < |pieces[0]| {
            assert s[i] == pieces[0][i];
          } else if |head| <= i {
            assert s[i] == tail[i - |head|];
          }
        }
      }
      if OnlySeparatorsAndSpace(s, sep) {
        forall i | 0 <= i < |tail| ensures tail[i] == sep || IsWhiteSpace(tail[i]) {
          assert s[|head| + i] == tail[i];
        }
        forall i | 0 <= i < |pieces[0]| ensures IsWhiteSpace(pieces[0][i]) {
          assert s[i] == pieces[0][i];
        }
      }
    }
  }

  /** No number is entered exactly when the field holds nothing but commas and white space. */
  lemma NoNumbersIffOnlySeparators(input: string)
    ensures RawNumbers(input) == [] <==> OnlySeparatorsAndSpace(input, ',')
  {
    var pieces := Split(input, ',');
    NoTokensIffBlank(pieces);
    JoinBlank(pieces, ',');
  }

  /** `numbersInput.split(",").map((s) => s.trim()).filter((s) => s !== "")` */
  function RawNumbers(input: string): (r: seq<string>)
    ensures forall k :: 0 <= k < |r| ==> r[k] != "" && ',' !in r[k]
  {
    var pieces := Split(input, ',');
    var r := NonBlankTrimmed(pieces);
    assert forall k :: 0 <= k < |r| ==> ',' !in r[k] by {
      NonBlankTrimmedFrom(pieces);
    }
    r
  }

  /** Each token comes from a piece, so it has no separator in it. */
  lemma {:induction false} NonBlankTrimmedFrom(pieces: seq<string>)
    requires forall k :: 0 <= k < |pieces| ==> ',' !in pieces[k]
    ensures forall k :: 0 <= k < |NonBlankTrimmed(pieces)| ==> ',' !in NonBlankTrimmed(pieces)[k]
  {
    if pieces != [] {
      var rest := NonBlankTrimmed(pieces[1..]);
      assert forall k :: 0 <= k < |pieces[1..]| ==> ',' !in pieces[1..][k] by {
        forall k | 0 <= k < |pieces[1..]| ensures ',' !in pieces[1..][k] {
          assert pieces[1..][k] == pieces[k + 1];
        }
      }
      NonBlankTrimmedFrom(pieces[1..]);
      var t := Trim(pieces[0]);
      if ',' in t {
        TrimmedFrom(pieces[0], ',');
      }
      assert ',' !in t;
      var r := NonBlankTrimmed(pieces);
      forall k | 0 <= k < |r| ensures ',' !in r[k] {
        if t == "" {
          assert r == rest;
        } else if k == 0 {
          assert r[k] == t;
        } else {
          assert r[k] == rest[k - 1];
        }
      }
    }
  }

  /** A token the loop accepts: `parseInt` gives a number that is not NaN and is above 0. */
  predicate IsPositiveNumber(token: string)
  {
    ParseInt(token).Some? && ParseInt(token).value > 0
  }

  predicate AllPositive(tokens: seq<string>)
  {
    forall k :: 0 <= k < |tokens| ==> IsPositiveNumber(tokens[k])
  }

  /** `i` is the first token the loop rejects. */
  predicate FirstInvalid(tokens: seq<string>, i: int)
  {
    && 0 <= i < |tokens|
    && !IsPositiveNumber(tokens[i])
    && forall k :: 0 <= k < i ==> IsPositiveNumber(tokens[k])
  }

  /** The numbers the tokens denote, in the order entered. */
  function Values(tokens: seq<string>): (r: seq<int>)
    requires AllPositive(tokens)
    ensures |r| == |tokens| && forall k :: 0 <= k < |r| ==> r[k] > 0 && ParseInt(tokens[k]) == Some(r[k])
  {
    seq(|tokens|, k requires 0 <= k < |tokens| => ParseInt(tokens[k]).value)
  }

  predicate SortedAscending(s: seq<int>)
  {
    forall i, j :: 0 <= i < j < |s| ==> s[i] <= s[j]
  }

  function Insert(x: int, s: seq<int>): (r: seq<int>)
    requires SortedAscending(s)
    ensures SortedAscending(r) && multiset(r) == multiset(s) + multiset{x}
    ensures |r| == |s| + 1 && (r[0] == x || (s != [] && r[0] == s[0]))
  {
    if s == [] || x <= s[0] then [x] + s
    else
      var rest := Insert(x, s[1..]);
      assert s == [s[0]] + s[1..];
      assert s[0] <= rest[0];
      [s[0]] + rest
  }

  /** `numbers.sort((a, b) => a - b)`: the ascending rearrangement of the numbers. */
  function SortAscending(s: seq<int>): (r: seq<int>)
    ensures SortedAscending(r) && multiset(r) == multiset(s)
  {
    if s == [] then []
    else
      assert s == [s[0]] + s[1..];
      Insert(s[0], SortAscending(s[1..]))
  }

  /** What the token loop of `handleSolve` ends with: every number, or the first token it rejects. */
  datatype Parsed = Numbers(values: seq<int>) | InvalidToken(token: string)

  /** The token loop over `tokens`, one token at a time, stopping at the first rejected one. */
  function ParseTokens(tokens: seq<string>): Parsed
  {
    if tokens == [] then Numbers([])
    else match ParseTokens(tokens[..|tokens| - 1])
      case InvalidToken(t) => InvalidToken(t)
      case Numbers(values) =>
        var last := tokens[|tokens| - 1];
        var num := ParseInt(last);
        if num.None? || num.value <= 0 then InvalidToken(last) else Numbers(values + [num.value])
  }

  /** One more turn of the loop: the next token is rejected, or its value is appended. */
  lemma ParseTokensStep(tokens: seq<string>, i: nat)
    requires i < |tokens| && ParseTokens(tokens[..i]).Numbers?
    ensures var num := ParseInt(tokens[i]);
      ParseTokens(tokens[..i + 1])
        == if num.None? || num.value <= 0 then InvalidToken(tokens[i])
           else Numbers(ParseTokens(tokens[..i]).values + [num.value])
  {
    assert tokens[..i + 1][..i] == tokens[..i];
  }

  lemma WholePrefix<T>(s: seq<T>)
    ensures s[..|s|] == s
  {
  }

  /** Once a prefix of the tokens is rejected, the whole list is rejected for the same token. */
  lemma {:induction false} RejectionPersists(tokens: seq<string>, i: nat)
    requires i <= |tokens| && ParseTokens(tokens[..i]).InvalidToken?
    ensures ParseTokens(tokens) == ParseTokens(tokens[..i])
    decreases |tokens| - i
  {
    if i < |tokens| {
      assert tokens[..i + 1][..i] == tokens[..i];
      RejectionPersists(tokens, i + 1);
    } else {
      assert tokens[..i] == tokens;
    }
  }

  /** The loop accepts the tokens exactly when each is a positive number, and then yields their values. */
  lemma {:induction false} ParseTokensAccepts(tokens: seq<string>)
    ensures ParseTokens(tokens).Numbers? <==> AllPositive(tokens)
    ensures ParseTokens(tokens).Numbers? ==> ParseTokens(tokens).values == Values(tokens)
  {
    if tokens != [] {
      var init := tokens[..|tokens| - 1];
      ParseTokensAccepts(init);
      assert forall k :: 0 <= k < |init| ==> init[k] == tokens[k];
      if AllPositive(tokens) {
        assert AllPositive(init);
        assert Values(tokens) == Values(init) + [ParseInt(tokens[|tokens| - 1]).value];
      }
    }
  }

  /** When the loop rejects the tokens, it names the first token that is not a positive number. */
  lemma {:induction false} ParseTokensRejects(tokens: seq<string>)
    ensures forall i :: FirstInvalid(tokens, i) ==> ParseTokens(tokens) == InvalidToken(tokens[i])
  {
    if tokens != [] {
      var init := tokens[..|tokens| - 1];
      ParseTokensRejects(init);
      ParseTokensAccepts(init);
      forall i | FirstInvalid(tokens, i) ensures ParseTokens(tokens) == InvalidToken(tokens[i]) {
        if i < |init| {
          assert FirstInvalid(init, i);
        } else {
          assert AllPositive(init);
        }
      }
    }
  }

  /**
   * What `handleSolve()` decides for the two input fields: an error message,
   * or the numbers (sorted ascending) and target handed to the solver.
   */
  function Decide(numbersInput: string, targetInput: string): (d: Decision)
    ensures d.Solve? ==> SortedAscending(d.numbers)
  {
    var raw := RawNumbers(numbersInput);
    if raw == [] then Rejected(ERROR_NO_INPUT)
    else match ParseTokens(raw)
      case InvalidToken(token) => Rejected(InvalidNumberMessage(token))
      case Numbers(values) =>
        match ParseInt(Trim(targetInput))
        case None => Rejected(ERROR_TARGET)
        case Some(target) => Solve(SortAscending(values), target)
  }

  /** The loop of `handleSolve()` that converts the tokens to numbers and stops at the first bad one. */
  method ParseNumbers(rawNumbers: seq<string>) returns (parsed: Parsed)
    ensures parsed == ParseTokens(rawNumbers)
  {
    var numbers: seq<int> := [];
    for i := 0 to |rawNumbers|
      invariant ParseTokens(rawNumbers[..i]) == Numbers(numbers)
    {
      var numStr := rawNumbers[i];
      var num := ParseInt(numStr);
      ParseTokensStep(rawNumbers, i);
      if num.None? || num.value <= 0 {
        RejectionPersists(rawNumbers, i + 1);
        return InvalidToken(numStr);
      }
      numbers := numbers + [num.value];
    }
    WholePrefix(rawNumbers);
    return Numbers(numbers);
  }

  /** The checks `handleSolve()` makes before it calls the solver. */
  method ReadInput(numbersInput: string, targetInput: string) returns (d: Decision)
    ensures d == Decide(numbersInput, targetInput)
  {
    var rawNumbers := RawNumbers(numbersInput);
    if |rawNumbers| == 0 {
      return Rejected(ERROR_NO_INPUT);
    }
    var parsed := ParseNumbers(rawNumbers);
    if parsed.InvalidToken? {
      return Rejected(InvalidNumberMessage(parsed.token));
    }
    var target := ParseInt(Trim(targetInput));
    if target.None? {
      return Rejected(ERROR_TARGET);
    }
    var numbers := SortAscending(parsed.values);
    return Solve(numbers, target.value);
  }

  /**
   * `handleSolve()` on the two input fields: it clears both messages, then
   * sets either the error message or the solver's answer.
   */
  method HandleSolve(numbersInput: string, targetInput: string)
    returns (solution: Option<string>, errorMessage: Option<string>)
    ensures solution.None? || errorMessage.None?
    ensures var d := Decide(numbersInput, targetInput);
      d.Rejected? ==> solution == None && errorMessage == Some(d.message)
    ensures var d := Decide(numbersInput, targetInput);
      d.Solve? ==> solution == Some(Solution(d.numbers, d.target)) && errorMessage == None
  {
    solution := None;
    errorMessage := None;
    var d := ReadInput(numbersInput, targetInput);
    if d.Rejected? {
      errorMessage := Some(d.message);
      return;
    }
    var result := SolveNumberGame(d.numbers, d.target);
    solution := Some(result);
  }

  /** With no number entered, the form says so and nothing else is checked. */
  lemma NoNumbersRejected(numbersInput: string, targetInput: string)
    requires OnlySeparatorsAndSpace(numbersInput, ',')
    ensures Decide(numbersInput, targetInput) == Rejected(ERROR_NO_INPUT)
  {
    NoNumbersIffOnlySeparators(numbersInput);
  }

  /** The first token that is not a positive number is the one reported, whatever the target. */
  lemma FirstInvalidReported(numbersInput: string, targetInput: string, i: int)
    requires FirstInvalid(RawNumbers(numbersInput), i)
    ensures Decide(numbersInput, targetInput) == Rejected(InvalidNumberMessage(RawNumbers(numbersInput)[i]))
  {
    ParseTokensRejects(RawNumbers(numbersInput));
  }

  /** Positive numbers with a target that is not a number report the target. */
  lemma BadTargetRejected(numbersInput: string, targetInput: string)
    requires RawNumbers(numbersInput) != [] && AllPositive(RawNumbers(numbersInput))
    requires ParseInt(Trim(targetInput)).None?
    ensures Decide(numbersInput, targetInput) == Rejected(ERROR_TARGET)
  {
    ParseTokensAccepts(RawNumbers(numbersInput));
  }

  /** The solver is called exactly when every token is a positive number and the target is a number. */
  lemma SolveIffValid(numbersInput: string, targetInput: string)
    ensures Decide(numbersInput, targetInput).Solve?
        <==> && RawNumbers(numbersInput) != []
             && AllPositive(RawNumbers(numbersInput))
             && ParseInt(Trim(targetInput)).Some?
  {
    ParseTokensAccepts(RawNumbers(numbersInput));
  }

  /** Positive numbers and a numeric target go to the solver, sorted, with the target's value. */
  lemma ValidInputSolved(numbersInput: string, targetInput: string)
    requires RawNumbers(numbersInput) != [] && AllPositive(RawNumbers(numbersInput))
    requires ParseInt(Trim(targetInput)).Some?
    ensures Decide(numbersInput, targetInput)
         == Solve(SortAscending(Values(RawNumbers(numbersInput))), ParseInt(Trim(targetInput)).value)
  {
    ParseTokensAccepts(RawNumbers(numbersInput));
  }

  /** Sorting the numbers before solving gives the answer for the numbers in the order entered. */
  lemma SortedAnswer(numbers: seq<int>, target: int)
    ensures Solution(SortAscending(numbers), target) == Solution(numbers, target)
  {
    SolutionOrderIndependent(SortAscending(numbers), numbers, target);
  }
}
