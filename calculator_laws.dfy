/** What the calculator promises, stated over CalculatorModel and proved:
    how typed digits accumulate, when the arithmetic is exact, what the
    division guard and the default branch do, why equals can be pressed
    repeatedly, and which states the buttons can reach. */
module CalculatorLaws {
  import opened JavaInt
  import opened CalculatorModel

  // ---------------------------------------------------------------------
  // The buttons

  /** The grid holds exactly one button per input event: every digit, every
      operator, equals and clear, each once. */
  lemma GridHasEveryButtonOnce()
    ensures |Grid| == 16
    ensures forall b: Button :: b in Grid
    ensures forall i, j :: 0 <= i < j < |Grid| ==> Grid[i] != Grid[j]
  {
    forall b: Button ensures b in Grid {
      match b
      case DigitKey(d) =>
        assert d in {0, 1, 2, 3, 4, 5, 6, 7, 8, 9};
      case OperationKey(c) =>
        assert c in {'+', '-', '*', '/'};
      case _ =>
    }
  }

  // ---------------------------------------------------------------------
  // Typing digits

  function Pow10(n: nat): nat {
    if n == 0 then 1 else 10 * Pow10(n - 1)
  }

  /** The number that the digits `ds` denote in decimal, most significant
      first: the independent reading of what typing them should give. */
  function DecimalValue(ds: seq<DigitValue>): nat {
    if ds == [] then 0 else DecimalValue(ds[..|ds| - 1]) * 10 + ds[|ds| - 1]
  }

  /** The digit buttons for `ds`, in order. */
  function DigitKeys(ds: seq<DigitValue>): (bs: seq<Button>)
    ensures |bs| == |ds|
  {
    if ds == [] then [] else DigitKeys(ds[..|ds| - 1]) + [DigitKey(ds[|ds| - 1])]
  }

  /** Typing the digits `ds` places them after the operand already there:
      the operand becomes the int32 wrap of `current * 10^|ds| + value(ds)`.
      The result and the pending operation are untouched, and once a digit
      has been typed the display shows the operand. */
  lemma {:induction false} TypingDigits(s: State, ds: seq<DigitValue>)
    ensures Run(s, DigitKeys(ds)).current == Wrap(s.current * Pow10(|ds|) + DecimalValue(ds))
    ensures Run(s, DigitKeys(ds)).result == s.result
    ensures Run(s, DigitKeys(ds)).operation == s.operation
    ensures ds != [] ==> Run(s, DigitKeys(ds)).display == Number(Run(s, DigitKeys(ds)).current)
    decreases |ds|
  {
    if ds == [] {
      assert s.current * Pow10(0) + DecimalValue(ds) == s.current;
    } else {
      var init, d := ds[..|ds| - 1], ds[|ds| - 1];
      var keys := DigitKeys(ds);
      assert keys[..|keys| - 1] == DigitKeys(init);
      TypingDigits(s, init);
      var t := Run(s, DigitKeys(init));
      assert Run(s, keys) == AppendDigit(t, d);
      AppendToDecimal(s.current, Pow10(|init|), DecimalValue(init), d, t.current);
      assert Pow10(|ds|) == 10 * Pow10(|init|);
      assert DecimalValue(ds) == DecimalValue(init) * 10 + d;
    }
  }

  /** One more digit `d` after an operand that is the wrap of `c * p + v`
      gives the wrap of `c * (10 * p) + (v * 10 + d)`. */
  lemma AppendToDecimal(c: int, p: int, v: int, d: int, w: int)
    requires w == Wrap(c * p + v)
    ensures Wrap(w * 10 + d) == Wrap(c * (10 * p) + (v * 10 + d))
  {
    WrapMulAdd(c * p + v, 10, d);
    assert (c * p + v) * 10 + d == c * (10 * p) + (v * 10 + d);
  }

  /** Fewer than `|ds|` + 1 decimal digits stay below `10^|ds|`. */
  lemma {:induction false} DecimalValueBound(ds: seq<DigitValue>)
    ensures DecimalValue(ds) < Pow10(|ds|)
    decreases |ds|
  {
    if ds != [] {
      DecimalValueBound(ds[..|ds| - 1]);
    }
  }

  /** Up to nine digits typed after a zero operand (the state after a clear,
      an operator or at start-up) give exactly the decimal number they spell:
      no wrap-around can happen before the tenth digit. */
  lemma ShortNumbersAreExact(s: State, ds: seq<DigitValue>)
    requires s.current == 0 && |ds| <= 9
    ensures Run(s, DigitKeys(ds)).current == DecimalValue(ds)
  {
    TypingDigits(s, ds);
    DecimalValueBound(ds);
    var p := Pow10(|ds|);
    Pow10Monotone(|ds|, 9);
    assert p <= 1_000_000_000;
  }

  lemma {:induction false} Pow10Monotone(m: nat, n: nat)
    requires m <= n
    ensures Pow10(m) <= Pow10(n)
    decreases n
  {
    if m < n {
      Pow10Monotone(m, n - 1);
    }
  }

  /** `appendDigit` loses nothing while the operand does not overflow, even
      when it is negative: the previous operand and the digit can be read
      back as the quotient and remainder by ten. Here `/` and `%` are
      Dafny's Euclidean operators (the remainder is never negative), so a
      negative operand -2 followed by 7 gives -13, and -13 / 10 is -2 with
      remainder 7; Java's own `-13 / 10` would be -1. */
  lemma LastDigitRecoverable(s: State, d: DigitValue)
    requires MIN <= s.current * 10 + d <= MAX
    ensures AppendDigit(s, d).current / 10 == s.current
    ensures AppendDigit(s, d).current % 10 == d
  {
  }

  /** The tenth digit can overflow: typing 8 after 214748364 gives the
      smallest int, and typing 9 after it gives a negative number whose
      last digit is no longer 9. */
  lemma TenthDigitWraps(s: State)
    requires s.current == 214748364
    ensures AppendDigit(s, 8).current == MIN
    ensures AppendDigit(s, 9).current == MIN + 1
    ensures AppendDigit(s, 7).current == MAX
  {
  }

  /** From any state, clear followed by 1, 2, 3 leaves the operand 123 and
      shows it; so does 1, 2, 3 on a new calculator. */
  lemma TypingOneTwoThree(s: State)
    ensures Run(s, [ClearKey, DigitKey(1), DigitKey(2), DigitKey(3)]).current == 123
    ensures Run(s, [ClearKey, DigitKey(1), DigitKey(2), DigitKey(3)]).display == Number(123)
    ensures Run(Initial(), [DigitKey(1), DigitKey(2), DigitKey(3)]).current == 123
  {
    RunSnoc(s, [], ClearKey);
    RunSnoc(s, [ClearKey], DigitKey(1));
    RunSnoc(s, [ClearKey, DigitKey(1)], DigitKey(2));
    RunSnoc(s, [ClearKey, DigitKey(1), DigitKey(2)], DigitKey(3));
    assert [ClearKey, DigitKey(1), DigitKey(2)] + [DigitKey(3)] == [ClearKey, DigitKey(1), DigitKey(2), DigitKey(3)];
    RunSnoc(Initial(), [], DigitKey(1));
    RunSnoc(Initial(), [DigitKey(1)], DigitKey(2));
    RunSnoc(Initial(), [DigitKey(1), DigitKey(2)], DigitKey(3));
  }

  // ---------------------------------------------------------------------
  // Operators and equals

  /** The exact mathematical meaning of each operator button: `/` is the
      quotient rounded toward zero, which needs a nonzero divisor. */
  function Exact(op: OperatorSymbol, a: int, b: int): int
    requires op == '/' ==> b != 0
  {
    match op
    case '+' => a + b
    case '-' => a - b
    case '*' => a * b
    case '/' => TruncDiv(a, b)
  }

  /** `calculate` with an operator pending (and, for `/`, a nonzero
      operand) computes the true outcome of `result op operand` up to a
      multiple of 2^32, and exactly that outcome whenever it fits in an int:
      wrap-around is the only way it can differ. The operator stays pending,
      and the new result becomes the operand and is shown. */
  lemma CalculateMatchesArithmetic(s: State)
    requires IsOperatorSymbol(s.operation)
    requires s.operation == '/' ==> s.current != 0
    ensures (Exact(s.operation, s.result, s.current) - Calculate(s).result) % MODULUS == 0
    ensures InRange(Exact(s.operation, s.result, s.current)) ==>
              Calculate(s).result == Exact(s.operation, s.result, s.current)
    ensures Calculate(s).current == Calculate(s).result
    ensures Calculate(s).operation == s.operation
    ensures Calculate(s).display == Number(Calculate(s).result)
  {
    var r := Calculate(s).result;
    var e := Exact(s.operation, s.result, s.current);
    assert (e - r) % MODULUS == 0;
    if InRange(e) {
      WrapUnique(e, r);
    }
  }

  /** Dividing the smallest int by -1 is the one quotient that overflows;
      Java gives back the smallest int and raises nothing. */
  lemma DivisionOverflowWraps()
    ensures Apply('/', MIN, -1) == MIN
    ensures !InRange(Exact('/', MIN, -1))
  {
    DivOverflowsOnlyAtMinByMinusOne(MIN, -1);
  }

  /** Dividing by a zero operand is silently skipped: the result stays, and
      it is still copied into the operand and shown. */
  lemma DivisionByZeroIgnored(s: State)
    requires s.operation == '/' && s.current == 0
    ensures Calculate(s).result == s.result
    ensures Calculate(s).current == s.result
    ensures Calculate(s).display == Number(s.result)
  {
  }

  /** Without a recognised operator (such as NUL, before any operator was
      pressed), equals keeps the result, makes it the operand, and is then
      idempotent. */
  lemma UnknownOperatorKeepsResult(s: State)
    requires !IsOperatorSymbol(s.operation)
    ensures Calculate(s).result == s.result
    ensures Calculate(Calculate(s)) == Calculate(s)
  {
  }

  /** `n` presses of equals. */
  function EqualsPresses(n: nat): (bs: seq<Button>)
    ensures |bs| == n
  {
    if n == 0 then [] else EqualsPresses(n - 1) + [EqualsKey]
  }

  function Pow2(n: nat): nat {
    if n == 0 then 1 else 2 * Pow2(n - 1)
  }

  /** Doubling the wrap of `r * p` is wrapping `r * (2 * p)`. */
  lemma DoubleWrapped(r: int, p: int, w: int)
    requires w == Wrap(r * p)
    ensures Wrap(w * 2) == Wrap(r * (2 * p))
  {
    WrapMulAdd(r * p, 2, 0);
    assert w * 2 + 0 == w * 2;
    assert (r * p) * 2 + 0 == r * (2 * p);
  }

  /** After an equals (operand == result) with `+` pending, each further
      press of equals adds the result to itself: `n` presses multiply it by
      `2^n`, wrapped to int32. */
  lemma {:induction false} RepeatedEqualsDoubles(s: State, n: nat)
    requires s.operation == '+' && s.current == s.result
    ensures Run(s, EqualsPresses(n)).result == Wrap(s.result * Pow2(n))
    ensures Run(s, EqualsPresses(n)).current == Run(s, EqualsPresses(n)).result
    ensures Run(s, EqualsPresses(n)).operation == '+'
    decreases n
  {
    if n > 0 {
      var keys := EqualsPresses(n);
      assert keys[..n - 1] == EqualsPresses(n - 1);
      RepeatedEqualsDoubles(s, n - 1);
      var t := Run(s, EqualsPresses(n - 1));
      assert Run(s, keys) == Calculate(t);
      assert Calculate(t).result == Wrap(t.result * 2);
      DoubleWrapped(s.result, Pow2(n - 1), t.result);
      assert Pow2(n) == 2 * Pow2(n - 1);
    }
  }

  /** Pressing one more button after `bs` is one more `onClick`. */
  lemma RunSnoc(s: State, bs: seq<Button>, b: Button)
    ensures Run(s, bs + [b]) == OnClick(Run(s, bs), b)
  {
    assert (bs + [b])[..|bs|] == bs;
  }

  /** clear, 4 + 2 = = : the first equals gives 6, the second adds the
      operand 6 again and gives 12. */
  lemma ChainedEqualsExample(s: State)
    ensures Run(s, [ClearKey, DigitKey(4), OperationKey('+'), DigitKey(2), EqualsKey]).result == 6
    ensures Run(s, [ClearKey, DigitKey(4), OperationKey('+'), DigitKey(2), EqualsKey, EqualsKey]).result == 12
  {
    var k1 := [ClearKey];
    var k2 := k1 + [DigitKey(4)];
    var k3 := k2 + [OperationKey('+')];
    var k4 := k3 + [DigitKey(2)];
    var k5 := k4 + [EqualsKey];
    var k6 := k5 + [EqualsKey];
    RunSnoc(s, [], ClearKey);
    RunSnoc(s, k1, DigitKey(4));
    RunSnoc(s, k2, OperationKey('+'));
    RunSnoc(s, k3, DigitKey(2));
    RunSnoc(s, k4, EqualsKey);
    RunSnoc(s, k5, EqualsKey);
    assert k5 == [ClearKey, DigitKey(4), OperationKey('+'), DigitKey(2), EqualsKey];
    assert k6 == [ClearKey, DigitKey(4), OperationKey('+'), DigitKey(2), EqualsKey, EqualsKey];
  }

  /** clear, 5 + 3 = gives and shows 8; clear, 5 / 0 = keeps 5; and just
      after clear, 5 + the result is 5 and the operand 0. */
  lemma ArithmeticExamples(s: State)
    ensures Run(s, [ClearKey, DigitKey(5), OperationKey('+')]).result == 5
    ensures Run(s, [ClearKey, DigitKey(5), OperationKey('+')]).current == 0
    ensures Run(s, [ClearKey, DigitKey(5), OperationKey('+'), DigitKey(3), EqualsKey]).display == Number(8)
    ensures Run(s, [ClearKey, DigitKey(5), OperationKey('/'), DigitKey(0), EqualsKey]).result == 5
  {
    var five := [ClearKey, DigitKey(5)];
    RunSnoc(s, [], ClearKey);
    RunSnoc(s, [ClearKey], DigitKey(5));
    var add := five + [OperationKey('+')];
    RunSnoc(s, five, OperationKey('+'));
    RunSnoc(s, add, DigitKey(3));
    RunSnoc(s, add + [DigitKey(3)], EqualsKey);
    assert add + [DigitKey(3)] + [EqualsKey] == [ClearKey, DigitKey(5), OperationKey('+'), DigitKey(3), EqualsKey];
    var div := five + [OperationKey('/')];
    RunSnoc(s, five, OperationKey('/'));
    RunSnoc(s, div, DigitKey(0));
    RunSnoc(s, div + [DigitKey(0)], EqualsKey);
    assert div + [DigitKey(0)] + [EqualsKey] == [ClearKey, DigitKey(5), OperationKey('/'), DigitKey(0), EqualsKey];
  }

  /** An operator does not evaluate the one already pending: it only moves
      the operand into the result. So 2 + 3 + 4 = gives 7, not 9, and two
      operators in a row leave the result 0. */
  lemma OperatorDropsPendingOperation(s: State, c1: OperatorSymbol, c2: OperatorSymbol)
    ensures SetOperation(SetOperation(s, c1), c2).result == 0
    ensures Run(Initial(), [DigitKey(2), OperationKey('+'), DigitKey(3), OperationKey('+'), DigitKey(4), EqualsKey]).result == 7
  {
    var k1 := [DigitKey(2)];
    var k2 := k1 + [OperationKey('+')];
    var k3 := k2 + [DigitKey(3)];
    var k4 := k3 + [OperationKey('+')];
    var k5 := k4 + [DigitKey(4)];
    RunSnoc(Initial(), [], DigitKey(2));
    RunSnoc(Initial(), k1, OperationKey('+'));
    RunSnoc(Initial(), k2, DigitKey(3));
    RunSnoc(Initial(), k3, OperationKey('+'));
    RunSnoc(Initial(), k4, DigitKey(4));
    RunSnoc(Initial(), k5, EqualsKey);
    assert k5 + [EqualsKey] == [DigitKey(2), OperationKey('+'), DigitKey(3), OperationKey('+'), DigitKey(4), EqualsKey];
  }

  // ---------------------------------------------------------------------
  // Clear

  /** Clear forgets everything: whatever was pressed before, pressing clear
      gives the start-up state, and pressing it again changes nothing. */
  lemma ClearForgetsHistory(s: State, bs: seq<Button>)
    ensures Run(s, bs + [ClearKey]) == Initial()
    ensures Run(s, bs + [ClearKey, ClearKey]) == Run(s, bs + [ClearKey])
  {
    assert (bs + [ClearKey])[..|bs|] == bs;
    assert (bs + [ClearKey, ClearKey])[..|bs| + 1] == bs + [ClearKey];
  }

  // ---------------------------------------------------------------------
  // Reachable states

  /** What the buttons can never break: the pending operation is NUL or an
      operator symbol, and the display agrees with the fields — empty only
      in the start-up state, a number only when it is the operand, and a
      symbol only when it is the pending operator and the operand is 0. */
  predicate Consistent(s: State) {
    (s.operation == NUL || IsOperatorSymbol(s.operation)) &&
    match s.display
    case Empty => s == Initial()
    case Number(n) => n == s.current
    case Symbol(c) => c == s.operation && s.current == 0
  }

  /** Every button press keeps the state consistent. */
  lemma OnClickKeepsConsistent(s: State, b: Button)
    requires Consistent(s)
    ensures Consistent(OnClick(s, b))
  {
  }

  /** Every state reachable from a consistent one (in particular from
      start-up) by pressing buttons is consistent: the display always shows
      the operand, the pending operator or, only when nothing is pending,
      nothing. */
  lemma {:induction false} RunKeepsConsistent(s: State, bs: seq<Button>)
    requires Consistent(s)
    ensures Consistent(Run(s, bs))
    ensures Consistent(Run(Initial(), bs))
    decreases |bs|
  {
    if bs != [] {
      RunKeepsConsistent(s, bs[..|bs| - 1]);
      OnClickKeepsConsistent(Run(s, bs[..|bs| - 1]), bs[|bs| - 1]);
      OnClickKeepsConsistent(Run(Initial(), bs[..|bs| - 1]), bs[|bs| - 1]);
    }
  }
}
