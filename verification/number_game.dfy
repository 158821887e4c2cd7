/**
 * `solveNumberGame`: an exhaustive depth-first search over every ordering of
 * the numbers and every choice of operators between them, keeping the
 * smallest distance to the target seen so far (`bestDiff`) and the set of
 * distinct expression texts that reach it (`bestExpressions`), then turning
 * that set into one answer.
 *
 * The search is the class `Search`, whose two fields are the two variables
 * the source's inner `exploreOperators` closure updates. Its ghost field
 * `considered` lists, in order, every complete expression the search has
 * recorded, and `Valid()` says the two fields are exactly what `Record`
 * folded over that list gives. `Explore` is the list the recursion visits,
 * and `Solution` the answer; the lemmas show that the folded state is the
 * arg-min over all valid chains of all orderings of the numbers.
 */
module NumberGame {
  import opened Wrappers
  import opened JsText
  import opened PermutationGenerator
  import opened Expressions

  const ERROR_NO_NUMBERS := "Error: No numbers provided."
  const NO_SOLUTION := "No solution found"
  const NO_SINGLE_SOLUTION := "No single solution"

  /** A complete expression met by the search: its text and its value. */
  datatype Outcome = Outcome(expr: string, value: int)

  /** `bestDiff`, which starts at `Infinity`. */
  datatype Bound = Infinity | Finite(n: nat)

  /** The search state: `bestDiff` and `bestExpressions`. */
  datatype Best = Best(diff: Bound, exprs: set<string>)

  const Initial := Best(Infinity, {})

  function Abs(x: int): nat
  {
    if x < 0 then -x else x
  }

  function Diff(o: Outcome, target: int): nat
  {
    Abs(o.value - target)
  }

  /**
   * What reaching one complete expression does to the state: a strictly
   * smaller distance replaces the set by this expression alone, an equal one
   * adds it, a larger one changes nothing.
   */
  function Record(b: Best, o: Outcome, target: int): (r: Best)
    ensures r.diff.Finite? && r.diff.n <= Diff(o, target)
    ensures b.diff.Finite? ==> r.diff.n <= b.diff.n
    ensures b.diff.Infinity? || r.diff.n < b.diff.n ==> r.exprs == {o.expr}
    ensures r.diff == b.diff ==> r.exprs == b.exprs + (if Diff(o, target) == r.diff.n then {o.expr} else {})
    ensures b.diff.Infinity? || Diff(o, target) < b.diff.n ==> r == Best(Finite(Diff(o, target)), {o.expr})
    ensures b.diff.Finite? && Diff(o, target) == b.diff.n ==> r == Best(b.diff, b.exprs + {o.expr})
    ensures b.diff.Finite? && Diff(o, target) > b.diff.n ==> r == b
  {
    var diff := Diff(o, target);
    if b.diff.Infinity? || diff < b.diff.n then Best(Finite(diff), {o.expr})
    else if diff == b.diff.n then Best(b.diff, b.exprs + {o.expr})
    else b
  }

  /** The state after recording `outs` one after the other, starting from `b`. */
  function Fold(b: Best, outs: seq<Outcome>, target: int): Best
  {
    if outs == [] then b
    else Record(Fold(b, outs[..|outs| - 1], target), outs[|outs| - 1], target)
  }

  /** The outcomes the search meets from position `index` of `perm`, with `value` and `expr` so far. */
  function Explore(perm: seq<int>, index: nat, value: int, expr: string): seq<Outcome>
    requires index <= |perm|
    decreases |perm| - index, |OPERATIONS| + 1
  {
    if index == |perm| then [Outcome(expr, value)]
    else ExploreUpTo(perm, index, value, expr, |OPERATIONS|)
  }

  /** The outcomes met through the first `k` operators at position `index`. */
  function ExploreUpTo(perm: seq<int>, index: nat, value: int, expr: string, k: nat): seq<Outcome>
    requires index < |perm| && k <= |OPERATIONS|
    decreases |perm| - index, k
  {
    if k == 0 then []
    else ExploreUpTo(perm, index, value, expr, k - 1) + Branch(perm, index, value, expr, OPERATIONS[k - 1])
  }

  /** The outcomes met by applying `op` with the number at `index`; none if that step is invalid. */
  function Branch(perm: seq<int>, index: nat, value: int, expr: string, op: string): seq<Outcome>
    requires index < |perm|
    decreases |perm| - index, 0
  {
    match EvaluateOperation(value, op, perm[index])
    case None => []
    case Some(next) => Explore(perm, index + 1, next, expr + op + IntToString(perm[index]))
  }

  /** The outcomes met for one ordering, starting from its first number. */
  function PermOutcomes(perm: seq<int>): seq<Outcome>
  {
    if perm == [] then [] else Explore(perm, 1, perm[0], IntToString(perm[0]))
  }

  /** The outcomes met for a list of orderings, in order. */
  function AllOutcomes(perms: seq<seq<int>>): seq<Outcome>
  {
    if perms == [] then []
    else AllOutcomes(perms[..|perms| - 1]) + PermOutcomes(perms[|perms| - 1])
  }

  /** The state when the search over all orderings of `nums` ends. */
  ghost function BestOf(nums: seq<int>, target: int): Best
  {
    Fold(Initial, AllOutcomes(Permutations(nums)), target)
  }

  /** The answer for a final state: none, ambiguous, or the single expression. */
  ghost function Classify(b: Best): string
  {
    if |b.exprs| == 0 then NO_SOLUTION
    else if |b.exprs| > 1 then NO_SINGLE_SOLUTION
    else var e :| e in b.exprs; e
  }

  /** The answer `solveNumberGame(nums, target)` returns. */
  ghost function Solution(nums: seq<int>, target: int): string
  {
    if |nums| == 0 then ERROR_NO_NUMBERS
    else if |nums| == 1 then (if nums[0] == target then IntToString(nums[0]) else NO_SOLUTION)
    else Classify(BestOf(nums, target))
  }

  /** The search state of one call of `solveNumberGame`. */
  class Search {
    const target: int
    var bestDiff: Bound
    var bestExpressions: set<string>
    /** Every complete expression recorded so far, in the order met. */
    ghost var considered: seq<Outcome>

    ghost predicate Valid()
      reads this
    {
      Best(bestDiff, bestExpressions) == Fold(Initial, considered, target)
    }

    constructor (target: int)
      ensures Valid() && this.target == target && considered == []
      ensures bestDiff == Infinity && bestExpressions == {}
    {
      this.target := target;
      bestDiff := Infinity;
      bestExpressions := {};
      considered := [];
    }

    /** The leaf of `exploreOperators`: compare a complete expression with the best so far. */
    method Consider(currentExpression: string, currentValue: int)
      requires Valid()
      modifies this
      ensures Valid()
      ensures considered == old(considered) + [Outcome(currentExpression, currentValue)]
      ensures Best(bestDiff, bestExpressions)
           == Record(old(Best(bestDiff, bestExpressions)), Outcome(currentExpression, currentValue), target)
    {
      var diff := Abs(currentValue - target);
      if bestDiff.Infinity? || diff < bestDiff.n {
        bestDiff := Finite(diff);
        bestExpressions := {};
        bestExpressions := bestExpressions + {currentExpression};
      } else if diff == bestDiff.n {
        bestExpressions := bestExpressions + {currentExpression};
      }
      ghost var before := considered;
      considered := considered + [Outcome(currentExpression, currentValue)];
      assert considered[..|considered| - 1] == before;
    }

    /** `exploreOperators(index, currentValue, currentExpression)` over the ordering `perm`. */
    method ExploreOperators(perm: seq<int>, index: nat, currentValue: int, currentExpression: string)
      requires Valid() && index <= |perm|
      modifies this
      ensures Valid()
      ensures considered == old(considered) + Explore(perm, index, currentValue, currentExpression)
      decreases |perm| - index
    {
      if index == |perm| {
        Consider(currentExpression, currentValue);
        return;
      }
      for k := 0 to |OPERATIONS|
        invariant Valid()
        invariant considered == old(considered) + ExploreUpTo(perm, index, currentValue, currentExpression, k)
      {
        var op := OPERATIONS[k];
        var nextNum := perm[index];
        var nextValue := EvaluateOperation(currentValue, op, nextNum);
        if nextValue.None? {
          continue;
        }
        ExploreOperators(perm, index + 1, nextValue.value, currentExpression + op + IntToString(nextNum));
      }
    }
  }

  /** `solveNumberGame(nums, target)` */
  method SolveNumberGame(nums: seq<int>, target: int) returns (answer: string)
    ensures answer == Solution(nums, target)
    ensures |nums| == 0 ==> answer == ERROR_NO_NUMBERS
    ensures |nums| == 1 ==> answer == (if nums[0] == target then IntToString(nums[0]) else NO_SOLUTION)
  {
    if |nums| == 0 {
      return ERROR_NO_NUMBERS;
    }
    if |nums| == 1 {
      return if nums[0] == target then IntToString(nums[0]) else NO_SOLUTION;
    }
    var search := new Search(target);
    var permutations := GetPermutations(nums);
    for i := 0 to |permutations|
      invariant search.Valid() && search.target == target
      invariant search.considered == AllOutcomes(permutations[..i])
    {
      var perm := permutations[i];
      PermutationsSound(nums, perm);
      search.ExploreOperators(perm, 1, perm[0], IntToString(perm[0]));
      assert permutations[..i + 1][..i] == permutations[..i];
      assert AllOutcomes(permutations[..i + 1]) == AllOutcomes(permutations[..i]) + PermOutcomes(perm);
    }
    assert permutations[..|permutations|] == permutations;
    ghost var final := BestOf(nums, target);
    assert Best(search.bestDiff, search.bestExpressions) == final;
    assert Solution(nums, target) == Classify(final);
    if |search.bestExpressions| == 0 {
      answer := NO_SOLUTION;
    } else if |search.bestExpressions| > 1 {
      answer := NO_SINGLE_SOLUTION;
    } else {
      var e :| e in search.bestExpressions;
      answer := e;
      SingletonMember(final.exprs, e, Classify(final));
    }
  }

  /** A set of size one has one member. */
  lemma SingletonMember<T>(s: set<T>, a: T, b: T)
    requires |s| == 1 && a in s && b in s
    ensures a == b
  {
    assert |s - {a}| == 0;
  }
}
