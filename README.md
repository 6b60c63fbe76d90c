# Four-function calculator: the controller's state machine

The program is a desktop calculator with a 4×4 button grid and a one-line
display. Its logic lives in the controller class `Calculator`. This class has
three fields: `result`, `currentNumber` (the operand being typed) and
`currentOperation` (the pending operator). Four methods update them:

- `appendDigit` shifts the operand one decimal place and adds a digit.
- `setOperation` moves the operand into the result and remembers the operator.
- `calculate` applies the pending operator to the result and the operand. It then copies the new result back into the operand, so pressing equals again applies the operator again.
- `clear` resets everything.

Each button's `onClick` calls exactly one of these methods.

The project has four modules:

- `JavaInt` (java_int.dfy) models Java's 32-bit `int`. `Wrap` is the narrowing that silent overflow performs: it gives the unique int32 congruent modulo 2^32. `TruncDiv` is `/` rounded toward zero, specified the way Java defines it. `Div` wraps that quotient, so `MIN / -1` gives `MIN`.
- `CalculatorModel` (calculator_model.dfy) holds the state as a value. This is the three fields plus an abstract display: `Empty`, `Number(n)` or `Symbol(c)`. It also holds the closed set of buttons `DigitKey(0..9)`, `OperationKey('+'|'-'|'*'|'/')`, `EqualsKey` and `ClearKey`, with one function per controller method. `OnClick` dispatches a button, `Run` presses a sequence of buttons, and `Grid` is the grid in layout order.
- `CalculatorLaws` (calculator_laws.dfy) holds the properties, each proved for all inputs. Typed digits accumulate to the wrapped decimal value. Arithmetic is exact unless it overflows. Division by zero is skipped. An unknown operator keeps the result. Repeated equals re-applies the operator. Clear forgets history. Every state the buttons can reach keeps the display consistent with the fields.
- `CalculatorClass` (calculator_class.dfy) holds the class `Calculator`. It has the same fields and methods, which update the fields in place. Each method is proved to move the object exactly as the model's function moves the state. `Press` is the `onClick` dispatch.

The pending operator is a character. It starts as NUL, the Java default, because the constructor never assigns it. `setOperation` accepts any character, but the buttons only ever pass `+ - * /`. A direct call with any other character is modelled too: `calculate` then takes its default branch and keeps the result. Because `appendDigit` takes any `int`, the model takes any int32 digit too. Only the digit buttons restrict it to 0..9.

`result` is assigned in `setOperation` and `clear` as well as in `calculate` (Main.java:133, Main.java:163). Typing digits does not only make the operand grow: with Java's `int`, the tenth digit can wrap it to a negative or smaller number (see `TypingDigits`, `ShortNumbersAreExact` and `TenthDigitWraps`).

## Model

| member | source | states |
|---|---|---|
| JavaInt.Wrap | Main.java:126 | Java `int` arithmetic keeps the int32 congruent to the true value modulo 2^32, and changes nothing that already fits |
| JavaInt.TruncDiv | Main.java:153 | integer `/` rounds toward zero: the quotient's magnitude is `\|a\| / \|b\|`; it is positive or negative exactly when `\|a\| >= \|b\|` and the operands' signs agree or differ |
| JavaInt.TruncDivIsJavaDivision | Main.java:153 | the quotient `q` satisfies Java's definition `\|q*b\| <= \|a\| < \|q*b\| + \|b\|` |
| JavaInt.DivOverflowsOnlyAtMinByMinusOne | Main.java:153 | the true quotient of two ints fits in an int unless the operands are `MIN` and `-1`; then Java's `/` gives `MIN` |
| JavaInt.Div | Main.java:153 | `int` division by a nonzero divisor gives a value congruent to the truncated quotient modulo 2^32 |
| CalculatorModel.Initial | Main.java:71-73 | the start-up state has result 0, operand 0, operator NUL and an empty display |
| CalculatorModel.SetOperation | Main.java:130-137 | the result becomes the old operand, the operand becomes 0, the operator is stored and its symbol is shown |
| CalculatorModel.Calculate | Main.java:139-159 | the result becomes `Apply(operator, result, operand)`; the operand becomes the new result; the operator is kept; the result is shown |
| CalculatorModel.OnClick | Main.java:18-65 | a digit sets the operand to `Wrap(operand * 10 + digit)` and shows it, keeping the result and operator; an operator moves the operand into the result, zeroes the operand, stores itself and shows its symbol; equals sets the result to `Apply(operator, result, operand)`, copies it into the operand, keeps the operator and shows the result; clear gives the start-up state; the display is empty exactly after clear, a symbol exactly after an operator, and a number after a digit or equals |
| CalculatorModel.AppendDigit | Main.java:124-128 | the new operand is congruent to `operand * 10 + digit` modulo 2^32; the result and the operator are unchanged; the display shows the new operand |
| CalculatorModel.Apply | Main.java:141-156 | the `switch`: `+ - *` give a value congruent to the true sum, difference or product; `/` gives one congruent to the truncated quotient; `/` by zero and any other operator leave the result unchanged |
| CalculatorModel.Clear | Main.java:161-166 | clearing any state gives the start-up state |
| CalculatorLaws.GridHasEveryButtonOnce | Main.java:91-106 | the 16 buttons of the grid are exactly the input events: each digit, each operator, equals and clear, each once |
| CalculatorLaws.TypingDigits | Main.java:124-128 | typing digits `ds` makes the operand `Wrap(operand * 10^\|ds\| + decimal value of ds)`; result and operator are unchanged; the display shows the operand |
| CalculatorLaws.DecimalValueBound | Main.java:126 | `n` typed digits spell a number below `10^n` |
| CalculatorLaws.ShortNumbersAreExact | Main.java:126 | up to nine digits typed on a zero operand give exactly the decimal number they spell |
| CalculatorLaws.LastDigitRecoverable | Main.java:126 | whenever `operand * 10 + digit` fits in an int (negative operands included), the previous operand and the digit are the new operand's floor quotient and non-negative remainder by ten |
| CalculatorLaws.TenthDigitWraps | Main.java:126 | typing 8, 9 or 7 after 214748364 gives `MIN`, `MIN + 1` and `MAX`: the tenth digit can wrap the operand negative |
| CalculatorLaws.TypingOneTwoThree | Main.java:124-128 | clear then 1, 2, 3 from any state (or 1, 2, 3 on a new calculator) leaves the operand 123, and the display shows it |
| CalculatorLaws.CalculateMatchesArithmetic | Main.java:139-159 | with an operator pending (and for `/` a nonzero operand), equals gives the true `result op operand` up to 2^32, and exactly that value when it fits; the operator stays pending; the operand becomes the result; the display shows it |
| CalculatorLaws.DivisionOverflowWraps | Main.java:151-155 | `MIN / -1` overflows the true quotient, and equals gives `MIN` without an error |
| CalculatorLaws.DivisionByZeroIgnored | Main.java:151-158 | with `/` pending and a zero operand, equals keeps the result, makes it the operand and shows it, and raises nothing |
| CalculatorLaws.UnknownOperatorKeepsResult | Main.java:141-158 | with no recognised operator pending (NUL at start-up), equals keeps the result, and pressing it again changes nothing |
| CalculatorLaws.RepeatedEqualsDoubles | Main.java:142-158 | after an equals with `+` pending, `n` further presses of equals multiply the result by `2^n` (wrapped); the operand keeps tracking the result |
| CalculatorLaws.ChainedEqualsExample | Main.java:139-159 | clear, 4 + 2 = gives 6, and a second = gives 12 |
| CalculatorLaws.ArithmeticExamples | Main.java:130-159 | after clear, 5 + leaves result 5 and operand 0; 5 + 3 = shows 8; 5 / 0 = keeps 5 |
| CalculatorLaws.OperatorDropsPendingOperation | Main.java:130-137 | an operator does not evaluate the pending one: two operators in a row leave the result 0, and 2 + 3 + 4 = gives 7 |
| CalculatorLaws.ClearForgetsHistory | Main.java:161-166 | after any sequence of presses, clear gives the start-up state, and a second clear changes nothing |
| CalculatorLaws.OnClickKeepsConsistent | Main.java:124-166 | each button press keeps the state consistent: the operator is NUL or a button symbol; the display is empty only at start-up, shows a number only when it is the operand, and shows a symbol only when it is the pending operator and the operand is 0 |
| CalculatorLaws.RunKeepsConsistent | Main.java:124-166 | every state that button presses reach from start-up, or from any consistent state, is consistent |
| CalculatorClass.Calculator.constructor | Main.java:71-75 | a new calculator has result 0, operand 0, operator NUL and an empty display |
| CalculatorClass.Calculator.AppendDigit | Main.java:124-128 | the operand becomes `Wrap(operand * 10 + digit)` and is shown; result and operator are unchanged; the object follows `CalculatorModel.AppendDigit` |
| CalculatorClass.Calculator.SetOperation | Main.java:130-137 | the result becomes the old operand, the operand becomes 0, the operator is stored and its symbol shown; the object follows `CalculatorModel.SetOperation` |
| CalculatorClass.Calculator.Calculate | Main.java:139-159 | the result becomes `Apply(operator, result, operand)`; the operand becomes the new result; the operator is unchanged; the result is shown; the object follows `CalculatorModel.Calculate` |
| CalculatorClass.Calculator.Clear | Main.java:161-166 | all three fields go back to their defaults and the display is emptied, from any state |
| CalculatorClass.Calculator.Press | Main.java:18-65 | a button press moves the object exactly as `CalculatorModel.OnClick` moves its state |
| CalculatorClass.ChainedEqualsOnObject | Main.java:139-159 | on a new calculator object, 4 + 2 = = shows 12 |

## Left out

- Swing construction and layout (`JFrame`, `JTextField`, `JPanel`, `GridLayout`, button sizes, `pack`, `setVisible`) is left out. It only renders and has no logic. The grid survives only as the order of `CalculatorModel.Grid`.
- The `ActionListener` wiring in `addButton` is reduced to `Press`: one button press calls one method.
- `Main.main` and `SwingUtilities.invokeLater` are left out. They hand work to the event thread, which is concurrency and I/O.
- Decimal rendering with `Integer.toString` and `Character.toString` is left out. The display holds the number or the symbol itself, not its text.
- Java's `char` is a UTF-16 code unit, and Dafny's `char` is a Unicode scalar value. So `SetOperation` accepts characters above U+FFFF and no lone surrogates. No button can show the difference, because `calculate` treats every character other than `+ - * /` alike.
