/**
 * What the number-game search computes, stated without reference to how it
 * computes it: the final `bestDiff` is the smallest distance to the target
 * over every valid left-to-right chain that uses each input number exactly
 * once, `bestExpressions` is the set of texts of the chains reaching it, and
 * the answer is classified from that set alone.
 */
module NumberGameProperties {
  import opened Wrappers
  import opened JsText
  import opened PermutationGenerator
  import opened Expressions
  import opened NumberGame

  ghost function Elems(outs: seq<Outcome>): set<Outcome>
  {
    set o | o in outs
  }

  /** The texts of the outcomes in `s` at distance `d` from the target. */
  ghost function AtDiff(s: set<Outcome>, target: int, d: nat): set<string>
  {
    set o | o in s && Diff(o, target) == d :: o.expr
  }

  /** `b` is the arg-min of the distances in `s`: the smallest one, with every text that reaches it. */
  ghost predicate IsBest(b: Best, s: set<Outcome>, target: int)
  {
    if s == {} then b == Initial
    else
      && b.diff.Finite?
      && (forall o :: o in s ==> b.diff.n <= Diff(o, target))
      && (exists o :: o in s && Diff(o, target) == b.diff.n)
      && b.exprs == AtDiff(s, target, b.diff.n)
  }

  /** A chain over a rearrangement of `nums` using only the four operators. */
  ghost predicate IsChainOf(c: Chain, nums: seq<int>)
  {
    UsesOperations(c.steps) && multiset(Operands(c)) == multiset(nums)
  }

  /** A valid chain over `nums` whose value lies at distance `d` from the target. */
  ghost predicate Reaches(c: Chain, nums: seq<int>, target: int, d: nat)
  {
    IsChainOf(c, nums) && ChainValue(c).Some? && Abs(ChainValue(c).value - target) == d
  }

  /** Operator steps applying exactly the numbers `xs`, in order. */
  ghost predicate StepsOver(steps: seq<Step>, xs: seq<int>)
  {
    UsesOperations(steps) && StepOperands(steps) == xs
  }

  /** Recording one more outcome keeps the state the arg-min of everything recorded. */
  lemma RecordKeepsBest(b: Best, s: set<Outcome>, o: Outcome, target: int)
    requires IsBest(b, s, target)
    ensures IsBest(Record(b, o, target), s + {o}, target)
  {
    var r := Record(b, o, target);
    var d := Diff(o, target);
    var t := s + {o};
    if s == {} {
      assert t == {o};
      assert AtDiff(t, target, d) == {o.expr};
    } else if d < b.diff.n {
      assert forall x :: x in AtDiff(t, target, d) ==> x == o.expr;
      assert o.expr in AtDiff(t, target, d);
    } else if d == b.diff.n {
      assert AtDiff(t, target, d) == AtDiff(s, target, d) + {o.expr};
    } else {
      assert AtDiff(t, target, b.diff.n) == AtDiff(s, target, b.diff.n);
    }
  }

  /** After recording any list of outcomes the state is their arg-min. */
  lemma {:induction false} FoldIsBest(outs: seq<Outcome>, target: int)
    ensures IsBest(Fold(Initial, outs, target), Elems(outs), target)
    decreases |outs|
  {
    if outs != [] {
      var prefix := outs[..|outs| - 1];
      var last := outs[|outs| - 1];
      FoldIsBest(prefix, target);
      assert outs == prefix + [last];
      assert Elems(outs) == Elems(prefix) + {last};
      RecordKeepsBest(Fold(Initial, prefix, target), Elems(prefix), last, target);
    }
  }

  /** The arg-min of a set is unique, so it does not depend on the order the outcomes were met. */
  lemma BestUnique(b1: Best, b2: Best, s: set<Outcome>, target: int)
    requires IsBest(b1, s, target) && IsBest(b2, s, target)
    ensures b1 == b2
  {
    if s != {} {
      var o1 :| o1 in s && Diff(o1, target) == b1.diff.n;
      var o2 :| o2 in s && Diff(o2, target) == b2.diff.n;
      assert b1.diff == b2.diff;
    }
  }

  /** Every state the search passes through keeps the invariant: each kept text re-evaluates to `bestDiff`. */
  lemma BestExpressionsReevaluate(outs: seq<Outcome>, target: int)
    requires forall k :: 0 <= k < |outs| ==> EvaluateExpression(outs[k].expr) == Some(outs[k].value)
    ensures var b := Fold(Initial, outs, target);
      forall e :: e in b.exprs ==>
        b.diff.Finite? && EvaluateExpression(e).Some? && Abs(EvaluateExpression(e).value - target) == b.diff.n
  {
    var b := Fold(Initial, outs, target);
    FoldIsBest(outs, target);
    forall e | e in b.exprs
      ensures b.diff.Finite? && EvaluateExpression(e).Some? && Abs(EvaluateExpression(e).value - target) == b.diff.n
    {
      var o :| o in Elems(outs) && Diff(o, target) == b.diff.n && o.expr == e;
      var k :| 0 <= k < |outs| && outs[k] == o;
    }
  }

  lemma {:induction false} ExploreUpToMember(perm: seq<int>, index: nat, value: int, expr: string, k: nat, o: Outcome)
    requires index < |perm| && k <= |OPERATIONS|
    ensures o in ExploreUpTo(perm, index, value, expr, k)
        <==> exists j :: 0 <= j < k && o in Branch(perm, index, value, expr, OPERATIONS[j])
  {
    if k > 0 {
      ExploreUpToMember(perm, index, value, expr, k - 1, o);
    }
  }

  /** `steps` apply the numbers `xs` from `value` and `expr` and end in the outcome `o`. */
  ghost predicate Completes(steps: seq<Step>, xs: seq<int>, value: int, expr: string, o: Outcome)
  {
    StepsOver(steps, xs) && EvalSteps(value, steps) == Some(o.value) && o.expr == expr + RenderSteps(steps)
  }

  lemma ExtendCompletion(op: string, x: int, next: int, rest: seq<Step>, xs: seq<int>, value: int, expr: string, o: Outcome)
    requires op in OPERATIONS && EvaluateOperation(value, op, x) == Some(next)
    requires Completes(rest, xs, next, expr + op + IntToString(x), o)
    ensures Completes([Step(op, x)] + rest, [x] + xs, value, expr, o)
  {
    var steps := [Step(op, x)] + rest;
    assert steps[0] == Step(op, x) && steps[1..] == rest;
    assert UsesOperations(steps) by {
      forall k | 0 <= k < |steps| ensures steps[k].op in OPERATIONS {
        if k > 0 {
          assert steps[k] == rest[k - 1];
        }
      }
    }
    assert StepOperands(steps) == [x] + StepOperands(rest);
    assert EvalSteps(value, steps) == EvalSteps(next, rest);
    var text := op + IntToString(x);
    assert RenderSteps(steps) == text + RenderSteps(rest);
    ConcatAssociative(expr, text, RenderSteps(rest));
    ConcatAssociative(expr, op, IntToString(x));
  }

  lemma ConcatAssociative(a: string, b: string, c: string)
    ensures a + (b + c) == (a + b) + c
  {
  }

  /** Whatever the recursion reaches is a valid choice of operators over the rest of the ordering. */
  lemma {:induction false} ExploreSound(perm: seq<int>, index: nat, value: int, expr: string, o: Outcome)
    requires index <= |perm| && o in Explore(perm, index, value, expr)
    ensures exists steps :: Completes(steps, perm[index..], value, expr, o)
    decreases |perm| - index
  {
    if index == |perm| {
      var steps: seq<Step> := [];
      assert Completes(steps, perm[index..], value, expr, o);
    } else {
      ExploreUpToMember(perm, index, value, expr, |OPERATIONS|, o);
      var j :| 0 <= j < |OPERATIONS| && o in Branch(perm, index, value, expr, OPERATIONS[j]);
      var op := OPERATIONS[j];
      var x := perm[index];
      var tail := perm[index + 1..];
      assert [x] + tail == perm[index..];
      var next := EvaluateOperation(value, op, x).value;
      var expr' := expr + op + IntToString(x);
      ExploreSound(perm, index + 1, next, expr', o);
      var rest :| Completes(rest, tail, next, expr', o);
      ExtendCompletion(op, x, next, rest, tail, value, expr, o);
      var steps := [Step(op, x)] + rest;
      assert Completes(steps, perm[index..], value, expr, o);
    }
  }

  /** Steps over a non-empty list of numbers: a first step on its head, then steps over its tail. */
  lemma StepsOverTail(steps: seq<Step>, xs: seq<int>)
    requires StepsOver(steps, xs) && xs != []
    ensures steps != [] && steps[0].op in OPERATIONS && steps[0].operand == xs[0]
    ensures StepsOver(steps[1..], xs[1..])
  {
    assert steps[0].op in OPERATIONS;
    forall k | 0 <= k < |steps| - 1 ensures steps[1..][k].op in OPERATIONS {
      assert steps[1..][k] == steps[k + 1];
    }
  }

  /** The text of non-empty steps after `expr`: the first operator and number, then the rest. */
  lemma RenderCons(expr: string, steps: seq<Step>)
    requires steps != []
    ensures expr + RenderSteps(steps)
         == (expr + steps[0].op + IntToString(steps[0].operand)) + RenderSteps(steps[1..])
  {
    var text := steps[0].op + IntToString(steps[0].operand);
    ConcatAssociative(expr, text, RenderSteps(steps[1..]));
    ConcatAssociative(expr, steps[0].op, IntToString(steps[0].operand));
  }

  /** Every valid choice of operators over the rest of the ordering is reached by the recursion. */
  lemma {:induction false} ExploreComplete(perm: seq<int>, index: nat, value: int, expr: string, steps: seq<Step>)
    requires index <= |perm| && StepsOver(steps, perm[index..]) && EvalSteps(value, steps).Some?
    ensures Outcome(expr + RenderSteps(steps), EvalSteps(value, steps).value) in Explore(perm, index, value, expr)
    decreases |perm| - index
  {
    if index == |perm| {
      assert steps == [];
      assert expr + RenderSteps(steps) == expr;
    } else {
      StepsOverTail(steps, perm[index..]);
      assert perm[index..][1..] == perm[index + 1..];
      var op := steps[0].op;
      var j :| 0 <= j < |OPERATIONS| && OPERATIONS[j] == op;
      var next := EvaluateOperation(value, op, perm[index]).value;
      var expr' := expr + op + IntToString(perm[index]);
      var rest := steps[1..];
      ExploreComplete(perm, index + 1, next, expr', rest);
      RenderCons(expr, steps);
      var o := Outcome(expr + RenderSteps(steps), EvalSteps(value, steps).value);
      assert o in Branch(perm, index, value, expr, OPERATIONS[j]);
      ExploreUpToMember(perm, index, value, expr, |OPERATIONS|, o);
    }
  }

  /** `c` is a chain over exactly the ordering `perm` with the text and value of `o`. */
  ghost predicate ChainOver(c: Chain, perm: seq<int>, o: Outcome)
  {
    Operands(c) == perm && UsesOperations(c.steps) && ChainValue(c) == Some(o.value) && Render(c) == o.expr
  }

  /** The outcomes of one ordering are exactly the texts and values of the valid chains over it. */
  lemma PermOutcomesAreChains(perm: seq<int>, o: Outcome)
    ensures o in PermOutcomes(perm) <==> exists c :: ChainOver(c, perm, o)
  {
    if perm != [] {
      if o in PermOutcomes(perm) {
        ExploreSound(perm, 1, perm[0], IntToString(perm[0]), o);
        var steps :| Completes(steps, perm[1..], perm[0], IntToString(perm[0]), o);
        var c := Chain(perm[0], steps);
        assert Operands(c) == perm;
        assert ChainOver(c, perm, o);
      }
      if exists c :: ChainOver(c, perm, o) {
        var c :| ChainOver(c, perm, o);
        assert StepsOver(c.steps, perm[1..]);
        ExploreComplete(perm, 1, perm[0], IntToString(perm[0]), c.steps);
      }
    }
  }

  lemma {:induction false} AllOutcomesMember(perms: seq<seq<int>>, o: Outcome)
    ensures o in AllOutcomes(perms) <==> exists i :: 0 <= i < |perms| && o in PermOutcomes(perms[i])
    decreases |perms|
  {
    if perms != [] {
      var prefix := perms[..|perms| - 1];
      AllOutcomesMember(prefix, o);
      if o in AllOutcomes(prefix) {
        var i :| 0 <= i < |prefix| && o in PermOutcomes(prefix[i]);
        assert perms[i] == prefix[i];
      }
      if exists i :: 0 <= i < |perms| && o in PermOutcomes(perms[i]) {
        var i :| 0 <= i < |perms| && o in PermOutcomes(perms[i]);
        if i < |perms| - 1 {
          assert prefix[i] == perms[i];
        }
      }
    }
  }

  /** `c` is a valid chain over a rearrangement of `nums` with the text and value of `o`. */
  ghost predicate ChainFor(c: Chain, nums: seq<int>, o: Outcome)
  {
    IsChainOf(c, nums) && ChainValue(c) == Some(o.value) && Render(c) == o.expr
  }

  lemma OutcomeIsChain(nums: seq<int>, o: Outcome)
    requires o in AllOutcomes(Permutations(nums))
    ensures exists c :: ChainFor(c, nums, o)
  {
    var perms := Permutations(nums);
    AllOutcomesMember(perms, o);
    var i :| 0 <= i < |perms| && o in PermOutcomes(perms[i]);
    PermutationsSound(nums, perms[i]);
    PermOutcomesAreChains(perms[i], o);
    var c :| ChainOver(c, perms[i], o);
    assert ChainFor(c, nums, o);
  }

  lemma ChainIsOutcome(nums: seq<int>, o: Outcome, c: Chain)
    requires ChainFor(c, nums, o)
    ensures o in AllOutcomes(Permutations(nums))
  {
    var perms := Permutations(nums);
    var p := Operands(c);
    PermutationsComplete(nums, p);
    var i :| 0 <= i < |perms| && perms[i] == p;
    PermOutcomesAreChains(p, o);
    assert ChainOver(c, p, o);
    AllOutcomesMember(perms, o);
  }

  /**
   * The search meets an outcome exactly when some valid chain over a
   * rearrangement of `nums` has that text and that value.
   */
  lemma OutcomesAreChains(nums: seq<int>, o: Outcome)
    ensures o in AllOutcomes(Permutations(nums)) <==> exists c :: ChainFor(c, nums, o)
  {
    if o in AllOutcomes(Permutations(nums)) {
      OutcomeIsChain(nums, o);
    }
    if exists c :: ChainFor(c, nums, o) {
      var c :| ChainFor(c, nums, o);
      ChainIsOutcome(nums, o, c);
    }
  }

  /** `n0 + n1 + ... ` over the numbers in their given order is always a valid chain. */
  lemma AdditionChainExists(nums: seq<int>) returns (c: Chain)
    requires |nums| >= 1
    ensures IsChainOf(c, nums) && ChainValue(c).Some?
  {
    var steps := seq(|nums| - 1, k requires 0 <= k < |nums| - 1 => Step("+", nums[k + 1]));
    c := Chain(nums[0], steps);
    assert Operands(c) == nums;
    AdditionsEvaluate(nums[0], steps);
  }

  /** The final state is the arg-min of the set of outcomes, and that set is not empty. */
  lemma BestOfIsBest(nums: seq<int>, target: int)
    requires |nums| >= 1
    ensures IsBest(BestOf(nums, target), Elems(AllOutcomes(Permutations(nums))), target)
    ensures Elems(AllOutcomes(Permutations(nums))) != {}
  {
    var outs := AllOutcomes(Permutations(nums));
    FoldIsBest(outs, target);
    var c0 := AdditionChainExists(nums);
    var o0 := Outcome(Render(c0), ChainValue(c0).value);
    ChainIsOutcome(nums, o0, c0);
    assert o0 in Elems(outs);
  }

  /** No valid chain over `nums` gets closer to the target than the final `bestDiff`. */
  lemma BestOfIsMinimal(nums: seq<int>, target: int, c: Chain)
    requires |nums| >= 1 && IsChainOf(c, nums) && ChainValue(c).Some?
    ensures BestOf(nums, target).diff.Finite?
    ensures BestOf(nums, target).diff.n <= Abs(ChainValue(c).value - target)
  {
    BestOfIsBest(nums, target);
    var o := Outcome(Render(c), ChainValue(c).value);
    ChainIsOutcome(nums, o, c);
    assert o in Elems(AllOutcomes(Permutations(nums)));
  }

  lemma BestExpressionHasChain(nums: seq<int>, target: int, e: string)
    requires |nums| >= 1 && e in BestOf(nums, target).exprs
    ensures BestOf(nums, target).diff.Finite?
    ensures exists c :: Reaches(c, nums, target, BestOf(nums, target).diff.n) && Render(c) == e
  {
    var s := Elems(AllOutcomes(Permutations(nums)));
    var b := BestOf(nums, target);
    BestOfIsBest(nums, target);
    var o :| o in s && Diff(o, target) == b.diff.n && o.expr == e;
    OutcomeIsChain(nums, o);
    var c :| ChainFor(c, nums, o);
    assert Reaches(c, nums, target, b.diff.n) && Render(c) == e;
  }

  lemma ChainHasBestExpression(nums: seq<int>, target: int, c: Chain)
    requires |nums| >= 1
    requires BestOf(nums, target).diff.Finite? && Reaches(c, nums, target, BestOf(nums, target).diff.n)
    ensures Render(c) in BestOf(nums, target).exprs
  {
    var s := Elems(AllOutcomes(Permutations(nums)));
    var b := BestOf(nums, target);
    BestOfIsBest(nums, target);
    var o := Outcome(Render(c), ChainValue(c).value);
    ChainIsOutcome(nums, o, c);
    assert o in s && Diff(o, target) == b.diff.n;
  }

  /** A text is in the final `bestExpressions` exactly when a valid chain reaching `bestDiff` has it. */
  lemma BestOfExpressions(nums: seq<int>, target: int, e: string)
    requires |nums| >= 1
    ensures BestOf(nums, target).diff.Finite?
    ensures e in BestOf(nums, target).exprs
        <==> exists c :: Reaches(c, nums, target, BestOf(nums, target).diff.n) && Render(c) == e
  {
    BestOfIsBest(nums, target);
    if e in BestOf(nums, target).exprs {
      BestExpressionHasChain(nums, target, e);
    }
    if exists c :: Reaches(c, nums, target, BestOf(nums, target).diff.n) && Render(c) == e {
      var c :| Reaches(c, nums, target, BestOf(nums, target).diff.n) && Render(c) == e;
      ChainHasBestExpression(nums, target, c);
    }
  }

  /**
   * When the search ends, `bestDiff` is the smallest distance any valid chain
   * over `nums` reaches, and `bestExpressions` holds exactly the texts of the
   * chains reaching it, so it is never empty.
   */
  lemma BestOfIsArgMin(nums: seq<int>, target: int)
    requires |nums| >= 1
    ensures var b := BestOf(nums, target);
      && b.diff.Finite? && b.exprs != {}
      && (forall c :: IsChainOf(c, nums) && ChainValue(c).Some? ==> b.diff.n <= Abs(ChainValue(c).value - target))
      && (forall e :: e in b.exprs <==> exists c :: Reaches(c, nums, target, b.diff.n) && Render(c) == e)
  {
    var b := BestOf(nums, target);
    BestOfIsBest(nums, target);
    var w :| w in Elems(AllOutcomes(Permutations(nums))) && Diff(w, target) == b.diff.n;
    assert w.expr in b.exprs;
    forall c | IsChainOf(c, nums) && ChainValue(c).Some?
      ensures b.diff.n <= Abs(ChainValue(c).value - target)
    {
      BestOfIsMinimal(nums, target, c);
    }
    forall e
      ensures e in b.exprs <==> exists c :: Reaches(c, nums, target, b.diff.n) && Render(c) == e
    {
      BestOfExpressions(nums, target, e);
    }
  }

  /**
   * With two or more numbers the answer is "No single solution" exactly when
   * more than one text reaches the best distance, whether or not that
   * distance is 0, and otherwise the one text that does; "No solution found"
   * never comes out.
   */
  lemma SolutionClassified(nums: seq<int>, target: int)
    requires |nums| >= 2
    ensures var b := BestOf(nums, target);
      && (Solution(nums, target) == NO_SINGLE_SOLUTION <==> |b.exprs| > 1)
      && (|b.exprs| <= 1 ==> b.exprs == {Solution(nums, target)})
      && Solution(nums, target) != NO_SOLUTION
  {
    var b := BestOf(nums, target);
    BestOfIsArgMin(nums, target);
    if |b.exprs| <= 1 {
      var e := Solution(nums, target);
      assert e in b.exprs;
      assert |b.exprs - {e}| == 0;
      assert b.exprs == {e};
      var c :| Reaches(c, nums, target, b.diff.n) && Render(c) == e;
      assert e[0] != 'N';
    }
  }

  /** A chain over numbers that are not negative is one the expression reader inverts. */
  lemma NonNegativeChain(nums: seq<int>, c: Chain)
    requires IsChainOf(c, nums)
    requires forall k :: 0 <= k < |nums| ==> nums[k] >= 0
    ensures WellFormed(c)
  {
    var p := Operands(c);
    forall k | 0 <= k < |p| ensures p[k] >= 0 {
      assert p[k] in multiset(nums);
    }
    assert c.first == p[0];
    forall k | 0 <= k < |c.steps| ensures c.steps[k].operand >= 0 {
      assert c.steps[k].operand == p[k + 1];
    }
  }

  /**
   * For numbers that are not negative, a single expression returned by the
   * solver reads back as a chain over a rearrangement of the numbers (each
   * used exactly once) and re-evaluates to a value no valid chain beats.
   */
  lemma SolutionReevaluates(nums: seq<int>, target: int)
    requires |nums| >= 2
    requires forall k :: 0 <= k < |nums| ==> nums[k] >= 0
    requires Solution(nums, target) != NO_SINGLE_SOLUTION
    ensures var e := Solution(nums, target);
      && ParseExpression(e).Some? && IsChainOf(ParseExpression(e).value, nums)
      && EvaluateExpression(e).Some?
      && forall c :: IsChainOf(c, nums) && ChainValue(c).Some? ==>
           Abs(EvaluateExpression(e).value - target) <= Abs(ChainValue(c).value - target)
  {
    var b := BestOf(nums, target);
    var e := Solution(nums, target);
    SolutionClassified(nums, target);
    BestOfIsArgMin(nums, target);
    assert e in b.exprs;
    var c :| Reaches(c, nums, target, b.diff.n) && Render(c) == e;
    NonNegativeChain(nums, c);
    ParseRender(c);
  }

  /** Search outcomes for numbers that are not negative re-evaluate from their text to their value. */
  lemma OutcomesReevaluate(nums: seq<int>, o: Outcome)
    requires forall k :: 0 <= k < |nums| ==> nums[k] >= 0
    requires o in AllOutcomes(Permutations(nums))
    ensures EvaluateExpression(o.expr) == Some(o.value)
  {
    OutcomeIsChain(nums, o);
    var c :| ChainFor(c, nums, o);
    NonNegativeChain(nums, c);
    EvaluateRender(c);
  }

  /**
   * The search invariant for every state the solver's loop over the orderings
   * passes through: after the first `i` orderings, every text in
   * `bestExpressions` re-evaluates to a value at distance `bestDiff`.
   */
  lemma SearchStatesReevaluate(nums: seq<int>, target: int, i: nat)
    requires forall k :: 0 <= k < |nums| ==> nums[k] >= 0
    requires i <= |Permutations(nums)|
    ensures var b := Fold(Initial, AllOutcomes(Permutations(nums)[..i]), target);
      forall e :: e in b.exprs ==>
        b.diff.Finite? && EvaluateExpression(e).Some? && Abs(EvaluateExpression(e).value - target) == b.diff.n
  {
    var perms := Permutations(nums);
    var outs := AllOutcomes(perms[..i]);
    forall k | 0 <= k < |outs| ensures EvaluateExpression(outs[k].expr) == Some(outs[k].value) {
      var o := outs[k];
      AllOutcomesMember(perms[..i], o);
      var j :| 0 <= j < i && o in PermOutcomes(perms[..i][j]);
      assert perms[..i][j] == perms[j];
      AllOutcomesMember(perms, o);
      OutcomesReevaluate(nums, o);
    }
    BestExpressionsReevaluate(outs, target);
  }

  /** The search invariant for the final state of the search. */
  lemma BestOfReevaluates(nums: seq<int>, target: int)
    requires forall k :: 0 <= k < |nums| ==> nums[k] >= 0
    ensures var b := BestOf(nums, target);
      forall e :: e in b.exprs ==>
        b.diff.Finite? && EvaluateExpression(e).Some? && Abs(EvaluateExpression(e).value - target) == b.diff.n
  {
    var perms := Permutations(nums);
    SearchStatesReevaluate(nums, target, |perms|);
    assert perms[..|perms|] == perms;
  }

  /** The answer depends only on which numbers are given, not on the order they are given in. */
  lemma SolutionOrderIndependent(a: seq<int>, b: seq<int>, target: int)
    requires multiset(a) == multiset(b)
    ensures Solution(a, target) == Solution(b, target)
  {
    assert |a| == |multiset(a)| == |b|;
    if |a| == 1 {
      assert a[0] in multiset(b);
      assert a == b;
    } else if |a| >= 2 {
      var outsA := AllOutcomes(Permutations(a));
      var outsB := AllOutcomes(Permutations(b));
      forall o ensures o in Elems(outsA) <==> o in Elems(outsB) {
        OutcomesAreChains(a, o);
        OutcomesAreChains(b, o);
        assert forall c :: ChainFor(c, a, o) <==> ChainFor(c, b, o);
      }
      assert Elems(outsA) == Elems(outsB);
      FoldIsBest(outsA, target);
      FoldIsBest(outsB, target);
      BestUnique(BestOf(a, target), BestOf(b, target), Elems(outsA), target);
    }
  }
}
