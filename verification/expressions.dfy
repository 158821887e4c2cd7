/**
 * One arithmetic step (`evaluateOperation`) and the left-to-right chains the
 * number game builds from it: `n0 op1 n1 op2 n2 ...`, evaluated strictly from
 * the left with no precedence and no parentheses, and written out as the
 * source writes them (each number's decimal text, each operator's symbol,
 * no spaces). `ParseExpression` reads such a text back; it is the inverse of
 * `Render` on chains of non-negative numbers, so an expression string can be
 * re-evaluated on its own.
 */
module Expressions {
  import opened Wrappers
  import opened JsText

  /** The operators in the order the search tries them. */
  const OPERATIONS: seq<string> := ["+", "-", "*", "/"]

  /**
   * `evaluateOperation(a, op, b)`; `None` stands for the NaN the source returns
   * for a division by zero, an inexact division or an unknown operator.
   */
  function EvaluateOperation(a: int, op: string, b: int): (r: Option<int>)
    ensures op == "+" ==> r == Some(a + b)
    ensures op == "-" ==> r == Some(a - b)
    ensures op == "*" ==> r == Some(a * b)
    ensures op == "/" ==> (r.Some? <==> b != 0 && a % b == 0)
    ensures op == "/" && r.Some? ==> r.value * b == a
    ensures r.None? <==> op !in OPERATIONS || (op == "/" && (b == 0 || a % b != 0))
  {
    if op == "+" then Some(a + b)
    else if op == "-" then Some(a - b)
    else if op == "*" then Some(a * b)
    else if op == "/" then
      if b == 0 then None
      else if a % b != 0 then None
      else
        assert (a / b) * b == a by {
          assert a == (a / b) * b + a % b;
        }
        Some(a / b)
    else None
  }

  /** One `op` + operand pair after the first number of a chain. */
  datatype Step = Step(op: string, operand: int)

  /** A left-to-right chain: the first number, then each operator with the number it applies. */
  datatype Chain = Chain(first: int, steps: seq<Step>)

  function StepOperands(steps: seq<Step>): (r: seq<int>)
    ensures |r| == |steps|
    ensures forall k :: 0 <= k < |steps| ==> r[k] == steps[k].operand
  {
    if steps == [] then [] else [steps[0].operand] + StepOperands(steps[1..])
  }

  /** The numbers a chain uses, in the order it uses them. */
  function Operands(c: Chain): (r: seq<int>)
    ensures |r| == |c.steps| + 1 && r[0] == c.first && r[1..] == StepOperands(c.steps)
  {
    [c.first] + StepOperands(c.steps)
  }

  /** Every operator is one of the four the search tries. */
  predicate UsesOperations(steps: seq<Step>)
  {
    forall k :: 0 <= k < |steps| ==> steps[k].op in OPERATIONS
  }

  /** The value of `value op1 x1 op2 x2 ...` from the left, `None` once a step is invalid. */
  function EvalSteps(value: int, steps: seq<Step>): Option<int>
    decreases steps
  {
    if steps == [] then Some(value)
    else match EvaluateOperation(value, steps[0].op, steps[0].operand)
      case None => None
      case Some(next) => EvalSteps(next, steps[1..])
  }

  function ChainValue(c: Chain): Option<int>
  {
    EvalSteps(c.first, c.steps)
  }

  function RenderSteps(steps: seq<Step>): string
  {
    if steps == [] then "" else steps[0].op + IntToString(steps[0].operand) + RenderSteps(steps[1..])
  }

  /** The expression text the search builds for a chain. */
  function Render(c: Chain): (r: string)
    ensures |r| >= 1 && (IsDecimalDigit(r[0]) || r[0] == '-')
  {
    IntToString(c.first) + RenderSteps(c.steps)
  }

  /** A decimal numeral at the start of `s`, with what follows it. */
  function ParseNumber(s: string): (r: Option<(nat, string)>)
    ensures r.Some? ==> |r.value.1| < |s|
  {
    var d := DigitPrefix(s, 10);
    if d == [] then None else Some((DigitsValue(d, 10), s[|d|..]))
  }

  function ParseSteps(s: string): Option<seq<Step>>
    decreases |s|
  {
    if s == [] then Some([])
    else if [s[0]] !in OPERATIONS then None
    else match ParseNumber(s[1..])
      case None => None
      case Some((n, rest)) =>
        match ParseSteps(rest)
        case None => None
        case Some(steps) => Some([Step([s[0]], n)] + steps)
  }

  /** Reads an expression text: a numeral, then operator-numeral pairs to the end. */
  function ParseExpression(s: string): Option<Chain>
  {
    match ParseNumber(s)
    case None => None
    case Some((n, rest)) =>
      match ParseSteps(rest)
      case None => None
      case Some(steps) => Some(Chain(n, steps))
  }

  /** Re-evaluates an expression text left to right with exact division. */
  function EvaluateExpression(s: string): Option<int>
  {
    match ParseExpression(s)
    case None => None
    case Some(c) => ChainValue(c)
  }

  /** A chain the search can build from numbers that are not negative. */
  predicate WellFormed(c: Chain)
  {
    && c.first >= 0
    && UsesOperations(c.steps)
    && forall k :: 0 <= k < |c.steps| ==> c.steps[k].operand >= 0
  }

  lemma ParseNumeral(n: nat, rest: string)
    requires rest == [] || !IsDecimalDigit(rest[0])
    ensures ParseNumber(NatToString(n) + rest) == Some((n, rest))
  {
    var d := NatToString(n);
    DigitPrefixOfDigits(d, rest, 10);
    DecimalRoundTrip(n);
    assert (d + rest)[|d|..] == rest;
  }

  /** The text of an operator the search uses is one character, and not a digit. */
  lemma OperatorSymbol(op: string)
    requires op in OPERATIONS
    ensures |op| == 1 && !IsDecimalDigit(op[0]) && [op[0]] in OPERATIONS
  {
  }

  /** Reading one operator in front of a numeral and text that reads as `steps`. */
  lemma ParseStepsCons(op: string, n: nat, rest: string, tail: string, steps: seq<Step>)
    requires op in OPERATIONS
    requires ParseNumber(rest) == Some((n, tail))
    requires ParseSteps(tail) == Some(steps)
    ensures ParseSteps(op + rest) == Some([Step(op, n)] + steps)
  {
    OperatorSymbol(op);
    var s := op + rest;
    assert s[0] == op[0] && s[1..] == rest;
    assert [s[0]] == op;
  }

  /** The text of steps that use the search's operators starts with an operator. */
  lemma RenderStepsStart(steps: seq<Step>)
    requires UsesOperations(steps)
    ensures RenderSteps(steps) == [] || !IsDecimalDigit(RenderSteps(steps)[0])
  {
    if steps != [] {
      OperatorSymbol(steps[0].op);
    }
  }

  /** The text of non-empty steps whose first number is not negative: operator, numeral, the rest. */
  lemma RenderStepsHead(steps: seq<Step>)
    requires steps != [] && steps[0].operand >= 0
    ensures RenderSteps(steps) == steps[0].op + (NatToString(steps[0].operand) + RenderSteps(steps[1..]))
  {
  }

  lemma {:induction false} ParseRenderSteps(steps: seq<Step>)
    requires UsesOperations(steps)
    requires forall k :: 0 <= k < |steps| ==> steps[k].operand >= 0
    ensures ParseSteps(RenderSteps(steps)) == Some(steps)
  {
    if steps != [] {
      var rest := steps[1..];
      assert UsesOperations(rest) by {
        forall k | 0 <= k < |rest| ensures rest[k].op in OPERATIONS {
          assert rest[k] == steps[k + 1];
        }
      }
      ParseRenderSteps(rest);
      RenderStepsStart(rest);
      var op := steps[0].op;
      var n: nat := steps[0].operand;
      var tail := RenderSteps(rest);
      ParseNumeral(n, tail);
      ParseStepsCons(op, n, NatToString(n) + tail, tail, rest);
      RenderStepsHead(steps);
      assert [Step(op, n)] + rest == steps;
    }
  }

  /** Reading back the text of a chain of non-negative numbers gives the same chain. */
  lemma ParseRender(c: Chain)
    requires WellFormed(c)
    ensures ParseExpression(Render(c)) == Some(c)
  {
    ParseRenderSteps(c.steps);
    RenderStepsStart(c.steps);
    ParseNumeral(c.first, RenderSteps(c.steps));
  }

  /** Re-evaluating the text of such a chain gives the chain's own value. */
  lemma EvaluateRender(c: Chain)
    requires WellFormed(c)
    ensures EvaluateExpression(Render(c)) == ChainValue(c)
  {
    ParseRender(c);
  }

  /** `+` and `-` never fail, so a chain of additions always has a value. */
  lemma {:induction false} AdditionsEvaluate(value: int, steps: seq<Step>)
    requires forall k :: 0 <= k < |steps| ==> steps[k].op == "+"
    ensures EvalSteps(value, steps).Some?
    decreases steps
  {
    if steps != [] {
      AdditionsEvaluate(value + steps[0].operand, steps[1..]);
    }
  }
}
