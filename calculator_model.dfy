/** The calculator's state machine as values: the three fields of the
    controller plus what its display shows, the closed set of buttons, and
    one function per transition. The class in CalculatorClass is proved to
    follow these functions step by step. */
module CalculatorModel {
  import opened JavaInt

  /** The `char` default, which `currentOperation` holds until an operator
      button is pressed and again after a clear. */
  const NUL: char := '\0'

  predicate IsOperatorSymbol(c: char) {
    c == '+' || c == '-' || c == '*' || c == '/'
  }

  /** The digits that have a button. */
  type DigitValue = d: int | 0 <= d <= 9

  /** The operators that have a button. */
  type OperatorSymbol = c: char | IsOperatorSymbol(c) witness '+'

  /** What the display text field shows, abstracted from its text: nothing,
      a number rendered in decimal, or an operator symbol. */
  datatype Display = Empty | Number(value: int) | Symbol(symbol: char)

  /** The controller's fields `result`, `currentNumber` and
      `currentOperation`, and the display. */
  datatype State = State(result: Int32, current: Int32, operation: char, display: Display)

  /** One press of a button of the grid: a digit button, an operation
      button, the equality button or the clear button. */
  datatype Button =
    | DigitKey(digit: DigitValue)
    | OperationKey(symbol: OperatorSymbol)
    | EqualsKey
    | ClearKey

  /** The state of a freshly built calculator: every field at its Java
      default (the constructor assigns none of them) and an empty display. */
  function Initial(): (t: State)
    ensures t.result == 0 && t.current == 0 && t.operation == NUL
    ensures t.display == Empty
  {
    State(0, 0, NUL, Empty)
  }

  /** `appendDigit`: shifts the operand one decimal place left, adds the
      digit, and shows the new operand. Java's `int` arithmetic wraps. */
  function AppendDigit(s: State, digit: Int32): (t: State)
    ensures ((s.current * 10 + digit) - t.current) % MODULUS == 0
    ensures t.result == s.result && t.operation == s.operation
    ensures t.display == Number(t.current)
  {
    var n := Wrap(s.current * 10 + digit);
    s.(current := n, display := Number(n))
  }

  /** `setOperation`: the operand becomes the result, typing starts over at
      0, the operator is remembered and its symbol shown. The operation that
      was pending before is dropped, not applied. */
  function SetOperation(s: State, op: char): (t: State)
    ensures t.result == s.current && t.current == 0
    ensures t.operation == op && t.display == Symbol(op)
  {
    State(s.current, 0, op, Symbol(op))
  }

  /** The `switch` of `calculate`: the new result for operator `op`, old
      result `a` and operand `b`. Division by zero and any operator without
      a case leave the result as it was. */
  function Apply(op: char, a: Int32, b: Int32): (r: Int32)
    ensures op == '+' ==> ((a + b) - r) % MODULUS == 0
    ensures op == '-' ==> ((a - b) - r) % MODULUS == 0
    ensures op == '*' ==> (a * b - r) % MODULUS == 0
    ensures op == '/' && b != 0 ==> (TruncDiv(a, b) - r) % MODULUS == 0
    ensures (op == '/' && b == 0) || !IsOperatorSymbol(op) ==> r == a
  {
    match op
    case '+' => Wrap(a + b)
    case '-' => Wrap(a - b)
    case '*' => Wrap(a * b)
    case '/' => if b != 0 then Div(a, b) else a
    case _ => a
  }

  /** `calculate`: applies the pending operation, copies the new result into
      the operand and shows it. The pending operation is kept, so pressing
      equals again applies it once more. */
  function Calculate(s: State): (t: State)
    ensures t.result == Apply(s.operation, s.result, s.current)
    ensures t.current == t.result && t.operation == s.operation
    ensures t.display == Number(t.result)
  {
    var r := Apply(s.operation, s.result, s.current);
    s.(result := r, current := r, display := Number(r))
  }

  /** `clear`: every field back to its default and an empty display. */
  function Clear(s: State): (t: State)
    ensures t == Initial()
  {
    State(0, 0, NUL, Empty)
  }

  /** What one button press does: each button's `onClick` calls exactly one
      controller method. What the display shows afterwards tells which kind
      of button was pressed: nothing only after clear, a symbol only after
      an operator, a number after a digit or equals. */
  function OnClick(s: State, b: Button): (t: State)
    ensures t.display == Empty <==> b.ClearKey?
    ensures t.display.Symbol? <==> b.OperationKey?
    ensures t.display.Number? <==> (b.DigitKey? || b.EqualsKey?)
    ensures b.DigitKey? ==> t.current == Wrap(s.current * 10 + b.digit) && t.display == Number(t.current)
    ensures b.DigitKey? ==> t.result == s.result && t.operation == s.operation
    ensures b.OperationKey? ==> t.display == Symbol(b.symbol)
    ensures b.EqualsKey? ==> t.result == Apply(s.operation, s.result, s.current) && t.display == Number(t.result)
    ensures b.OperationKey? ==> t.result == s.current && t.current == 0 && t.operation == b.symbol
    ensures b.EqualsKey? ==> t.current == t.result && t.operation == s.operation
    ensures b.ClearKey? ==> t == Initial()
  {
    match b
    case DigitKey(d) => AppendDigit(s, d)
    case OperationKey(c) => SetOperation(s, c)
    case EqualsKey => Calculate(s)
    case ClearKey => Clear(s)
  }

  /** The state after pressing `buttons` in order, starting from `s`. */
  function Run(s: State, buttons: seq<Button>): State
    decreases |buttons|
  {
    if buttons == [] then s
    else OnClick(Run(s, buttons[..|buttons| - 1]), buttons[|buttons| - 1])
  }

  /** The sixteen buttons in the order the grid lays them out, row by row. */
  const Grid: seq<Button> := [
    DigitKey(7), DigitKey(8), DigitKey(9), OperationKey('/'),
    DigitKey(4), DigitKey(5), DigitKey(6), OperationKey('*'),
    DigitKey(1), DigitKey(2), DigitKey(3), OperationKey('-'),
    DigitKey(0), OperationKey('+'), EqualsKey, ClearKey
  ]
}
