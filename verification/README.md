# Number game solver and username validator — a Dafny model

This project models the logic of two browser widgets.

**The number game solver.** The user enters a comma-separated list of positive
integers and a target. The solver tries every ordering of the numbers and every
choice of the operators `+`, `-`, `*` and `/` between them. A chain is evaluated
strictly from the left, with no precedence. A division counts only when it is
exact and the divisor is not zero. The solver keeps the smallest distance to the
target seen so far (`bestDiff`) and the set of distinct expression texts that
reach it (`bestExpressions`). At the end it answers with:

- the single best expression;
- "No single solution" when several different texts tie;
- "No solution found" when none was found.

Before calling the solver, `handleSolve` checks the two text fields. It splits
the numbers field on commas, trims each piece and drops the empty ones. Every
remaining token must `parseInt` to a positive number, and the trimmed target
must `parseInt` to a number at all. It then sorts the numbers ascending.

**The username validator.** It tests a name against the anchored pattern
`^[a-zA-Z][a-zA-Z0-9_]{4,14}$`. A blank field is reported first, with its own
message.

Modules:

- `Wrappers`: the `Option` type.
- `JsText`: the JavaScript string operations the widgets use:
  - `trim`, with the ECMAScript white-space and line-terminator set;
  - `split` on one character;
  - `toString` of an integer;
  - `parseInt`, which skips leading white space, takes a sign, reads `0x`/`0X` hexadecimal and the longest digit prefix, and gives `None` for NaN.
- `PermutationGenerator`: `getPermutations`, as a specification function and as a method with the source's two nested loops.
- `Expressions`:
  - `evaluateOperation`;
  - chains (a first number, then operator/number steps), their value and their text;
  - a reader for such texts that inverts rendering, so an expression string can be re-evaluated on its own.
- `NumberGame`:
  - the search as the class `Search`, whose two fields are `bestDiff` and `bestExpressions`;
  - `exploreOperators` and its leaf as methods of that class;
  - `solveNumberGame` as a method, proved equal to the ghost function `Solution`.
- `NumberGameProperties`: what the search computes. It is the arg-min over every valid chain of every ordering, and the answer does not depend on the order of the numbers.
- `NumberGameInput`: `handleSolve`, split into three parts:
  - `Decide`, the function that specifies it;
  - the loop `ParseNumbers` and the checks `ReadInput`;
  - `HandleSolve`, which returns the two messages the component would set.
- `UsernameValidator`: `validateUsername` and `handleValidate`.

## Model

All source paths are under `ts/src/components/`.

| member | source | states |
|---|---|---|
| Expressions.EvaluateOperation | ts/src/components/number-game-solver.tsx:15-29 | `+`, `-` and `*` give a+b, a−b and a*b. `/` is invalid exactly when b = 0 or b does not divide a, and otherwise gives q with q*b = a. Any other operator is invalid. |
| Expressions.ParseRender | ts/src/components/number-game-solver.tsx:102 | Reading back the text the search builds for a chain of non-negative numbers gives the same chain (numbers, operators and order). |
| Expressions.EvaluateRender | ts/src/components/number-game-solver.tsx:99-103 | Re-evaluating such a text from the left gives the chain's own value. |
| Expressions.AdditionsEvaluate | ts/src/components/number-game-solver.tsx:17-18 | A chain of additions never hits an invalid step. |
| PermutationGenerator.GetPermutations | ts/src/components/number-game-solver.tsx:37-50 | The method, with its two nested loops over items and inner permutations, returns exactly `Permutations(arr)`. |
| PermutationGenerator.PermutationsBaseCases | ts/src/components/number-game-solver.tsx:38-39 | The empty sequence has exactly `[[]]` and a one-element sequence exactly `[arr]`. |
| PermutationGenerator.PermutationsCount | ts/src/components/number-game-solver.tsx:41-49 | n elements give n! sequences. |
| PermutationGenerator.PermutationsSound | ts/src/components/number-game-solver.tsx:41-49 | Each result has the input's length and multiset. |
| PermutationGenerator.PermutationsComplete | ts/src/components/number-game-solver.tsx:41-49 | Every rearrangement of the input is among the results. |
| PermutationGenerator.PermutationsCharacterized | ts/src/components/number-game-solver.tsx:41-49 | A sequence is a result exactly when it has the input's multiset. |
| PermutationGenerator.DuplicatesKept | ts/src/components/number-game-solver.tsx:41-49 | Duplicate values give duplicate permutations, which are not removed: `[7, 7]` gives `[[7, 7], [7, 7]]`. |
| NumberGame.Record | ts/src/components/number-game-solver.tsx:78-86 | The distance never increases and never exceeds the new expression's distance. From `Infinity`, or with a strictly smaller distance, the state becomes that distance and that expression alone. An equal distance adds the expression to the set. A larger one leaves the state unchanged. |
| NumberGame.Search.constructor | ts/src/components/number-game-solver.tsx:66-67 | The search starts at `Infinity` with an empty set. |
| NumberGame.Search.Consider | ts/src/components/number-game-solver.tsx:77-87 | The leaf updates `bestDiff` and `bestExpressions` exactly as `Record` says and keeps `Valid()`. |
| NumberGame.Search.ExploreOperators | ts/src/components/number-game-solver.tsx:72-105 | The recursion records exactly the outcomes of `Explore`, in order: each operator in turn, skipping invalid steps. |
| NumberGame.SolveNumberGame | ts/src/components/number-game-solver.tsx:58-139 | It returns `Solution(nums, target)`. No numbers give "Error: No numbers provided.". One number gives its decimal text if it equals the target, and "No solution found" otherwise. |
| NumberGameProperties.RecordKeepsBest | ts/src/components/number-game-solver.tsx:77-87 | If the state is the arg-min of the expressions so far, recording one more keeps it the arg-min of the larger set. |
| NumberGameProperties.FoldIsBest | ts/src/components/number-game-solver.tsx:66-109 | After any sequence of recorded expressions, `bestDiff` is the least distance among them. `bestExpressions` is exactly the set of their texts at that distance. |
| NumberGameProperties.BestExpressionsReevaluate | ts/src/components/number-game-solver.tsx:77-87 | When every recorded text re-evaluates to its value, every text in the set re-evaluates to a value at distance `bestDiff` from the target. |
| NumberGameProperties.SearchStatesReevaluate | ts/src/components/number-game-solver.tsx:66-109 | For non-negative numbers, after any number of orderings has been searched, every text in `bestExpressions` re-evaluates to a value at distance `bestDiff` from the target. |
| NumberGameProperties.BestOfReevaluates | ts/src/components/number-game-solver.tsx:66-109 | For non-negative numbers, every text in the final `bestExpressions` re-evaluates to a value at distance `bestDiff` from the target. |
| NumberGameProperties.ExploreSound | ts/src/components/number-game-solver.tsx:72-105 | Every outcome the recursion reaches is a valid completion of the remaining numbers with the operators, with its text and value. |
| NumberGameProperties.ExploreComplete | ts/src/components/number-game-solver.tsx:72-105 | Every valid choice of operators for the remaining numbers is reached. |
| NumberGameProperties.OutcomesAreChains | ts/src/components/number-game-solver.tsx:67-108 | An outcome of the whole search is exactly a valid chain that uses every input number once, in some order, with its text and value. |
| NumberGameProperties.BestOfIsMinimal | ts/src/components/number-game-solver.tsx:67-108 | The final distance is at most that of every valid chain of the numbers. |
| NumberGameProperties.BestOfIsArgMin | ts/src/components/number-game-solver.tsx:67-108 | For one or more numbers, the final `bestDiff` is the minimum distance over all valid chains of all orderings. `bestExpressions` is non-empty and is exactly the set of texts of the chains reaching it. |
| NumberGameProperties.SolutionClassified | ts/src/components/number-game-solver.tsx:111-137 | For two or more numbers, "No single solution" comes exactly when the set has more than one text, whatever the distance. Otherwise the answer is the set's one text, and "No solution found" never comes. |
| NumberGameProperties.SolutionReevaluates | ts/src/components/number-game-solver.tsx:111-137 | For non-negative numbers, a single answer reads back as a chain over the numbers. Its value is at least as close to the target as that of any valid chain. |
| NumberGameProperties.SolutionOrderIndependent | ts/src/components/number-game-solver.tsx:173-175 | Two lists with the same multiset of numbers get the same answer. |
| NumberGameInput.RawNumbers | ts/src/components/number-game-solver.tsx:145-148 | The tokens are non-empty and contain no comma. |
| NumberGameInput.NoNumbersIffOnlySeparators | ts/src/components/number-game-solver.tsx:145-154 | There are no tokens exactly when the field holds only commas and white space. |
| NumberGameInput.SortAscending | ts/src/components/number-game-solver.tsx:176 | The numbers are sorted ascending and are a permutation of the input. |
| NumberGameInput.ParseTokensAccepts | ts/src/components/number-game-solver.tsx:156-165 | The loop ends with numbers exactly when every token parses to a positive number. Those numbers are then the tokens' values, in order. |
| NumberGameInput.ParseTokensRejects | ts/src/components/number-game-solver.tsx:156-163 | The token reported is the first one that is NaN or not positive. |
| NumberGameInput.ParseNumbers | ts/src/components/number-game-solver.tsx:156-165 | The loop, with its early return, computes `ParseTokens` of the tokens. |
| NumberGameInput.ReadInput | ts/src/components/number-game-solver.tsx:145-176 | The checks before the solver call compute `Decide`. |
| NumberGameInput.HandleSolve | ts/src/components/number-game-solver.tsx:141-183 | At most one of the two messages is set. A rejection sets the error message and no solution. Otherwise the solution is the solver's answer for the sorted numbers and the target. |
| NumberGameInput.NoNumbersRejected | ts/src/components/number-game-solver.tsx:151-154 | A field of only commas and white space gives "Please enter at least one number.". |
| NumberGameInput.FirstInvalidReported | ts/src/components/number-game-solver.tsx:156-163 | The first token that is not a positive number is reported in the message, whatever the target. |
| NumberGameInput.BadTargetRejected | ts/src/components/number-game-solver.tsx:167-171 | Positive numbers with a target that does not parse give "Invalid Target. Please enter an integer.". |
| NumberGameInput.SolveIffValid | ts/src/components/number-game-solver.tsx:145-181 | The solver is called exactly when there is a token, every token is a positive number, and the trimmed target parses. |
| NumberGameInput.ValidInputSolved | ts/src/components/number-game-solver.tsx:173-181 | Valid input goes to the solver as the tokens' values sorted ascending, with the target's value. |
| NumberGameInput.SortedAnswer | ts/src/components/number-game-solver.tsx:173-176 | Sorting before solving gives the same answer as solving the numbers in the order entered. |
| JsText.TrimEmptyIffBlank | ts/src/components/username-validator.tsx:28 | `trim()` gives the empty string exactly when the text is white space only. |
| JsText.TrimmedEnds | ts/src/components/number-game-solver.tsx:147 | A trimmed text neither starts nor ends with white space. |
| JsText.Split | ts/src/components/number-game-solver.tsx:146 | Splitting on a character gives pieces without it, whose join with it is the original text. |
| JsText.ParseIntOfIntToString | ts/src/components/number-game-solver.tsx:63 | `parseInt` reads back the decimal text `toString` writes for any integer. |
| JsText.ParseIntSkipsBlank | ts/src/components/number-game-solver.tsx:157 | `parseInt` gives the same result with or without leading white space. |
| JsText.ParseIntDecimal | ts/src/components/number-game-solver.tsx:157 | Decimal digits, alone or after `+`, read as the value of the longest digit prefix. Whatever follows it is ignored. |
| JsText.ParseIntNegativeDecimal | ts/src/components/number-game-solver.tsx:157 | Decimal digits after `-` read as the negated value of the longest digit prefix. |
| JsText.ParseIntHex | ts/src/components/number-game-solver.tsx:157 | After `0x` or `0X`, the longest run of hexadecimal digits is read in base 16. With no such digit the result is NaN. |
| JsText.ParseIntNaN | ts/src/components/number-game-solver.tsx:157 | A first character that is not white space, a sign or a digit gives NaN, with or without a sign in front. |
| JsText.ParseIntStopsAtLetter | ts/src/components/number-game-solver.tsx:157 | `"3abc"` reads as 3. |
| JsText.ParseIntStopsAtPoint | ts/src/components/number-game-solver.tsx:157 | `"2.5"` reads as 2. |
| JsText.ParseIntSpaceAndSign | ts/src/components/number-game-solver.tsx:167 | `" -12"` reads as -12. |
| JsText.ParseIntHexAndNaN | ts/src/components/number-game-solver.tsx:157 | `"0x1F"` reads as 31; `"abc"` and the empty text give NaN. |
| UsernameValidator.MatchRepeatCharacterized | ts/src/components/username-validator.tsx:23 | `[a-zA-Z0-9_]{min,max}$` matches exactly a run of `min` to `max` name characters up to the end. |
| UsernameValidator.ValidateUsernameCharacterized | ts/src/components/username-validator.tsx:22-25 | A name is accepted exactly when it has 5 to 15 characters, starts with an ASCII letter, and has only ASCII letters, digits and `_` after that. |
| UsernameValidator.ForeignCharacterRejected | ts/src/components/username-validator.tsx:23 | A space or any other symbol anywhere in the name rejects it. |
| UsernameValidator.HandleValidate | ts/src/components/username-validator.tsx:27-41 | A blank field gives false and "Username cannot be empty.". Otherwise the result is the pattern's verdict on the untrimmed text, with "Valid Username" exactly when it holds and "Invalid Name" otherwise. |
| UsernameValidator.PaddedNameInvalid | ts/src/components/username-validator.tsx:28-40 | A non-blank name with white space at its start or end is reported "Invalid Name". |

## Left out

- JavaScript numbers are IEEE doubles. Here every value is an unbounded integer, so products beyond 2^53 that lose precision, and the exponent form `toString` uses for very large values, are not modelled.
- The exact-match re-evaluation block of `solveNumberGame` (number-game-solver.tsx:114-134) is not modelled. Its result is discarded, because every branch returns "No single solution".
- `Set` iteration order (`values().next()`) is not modelled. The answer is taken from the set only when it has one element, and `Solution` picks that element.
- NumberGameProperties.SolutionReevaluates: re-evaluation of an answer text is proved for non-negative numbers only. A negative number's text starts with `-`, which the reader takes for an operator. `handleSolve` only passes positive numbers.
- NumberGameInput.SortAscending: the in-place `numbers.sort` is modelled as a function on a sequence value. The array is local to `handleSolve`, so there is no aliasing to capture.
- NumberGameInput.HandleSolve: it returns the two messages instead of calling the React state setters `setSolution` and `setErrorMessage`.
- UsernameValidator.HandleValidate: it returns the validation result and message instead of calling the React state setters.
- Strings are sequences of Unicode characters, not UTF-16 code units. `trim` uses the ECMAScript white-space and line-terminator set listed in `JsText.IsWhiteSpace`.
- The rest of the widgets is not part of this model:
  - React state, rendering, colour classes, the input's `maxLength` and `handleClear`;
  - the page files, the subsidy calculator and the climate analyser, which are floating-point arithmetic and UI glue.
- Performance (the factorial times 4^(n−1) search) is not modelled.
