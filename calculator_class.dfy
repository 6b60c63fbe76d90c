/** The controller object: the `Calculator` class with its three fields and
    the display, each method updating them in place. Every method is proved
    to take the object from state `s` to the state the matching function of
    CalculatorModel gives for `s`, so all the laws proved there hold of the
    object as well. */
module CalculatorClass {
  import opened JavaInt
  import opened CalculatorModel

  class Calculator {
    var result: Int32
    var currentNumber: Int32
    var currentOperation: char
    /** The text field, as what it shows rather than as text. */
    var display: Display

    /** The fields as one value of the model. */
    function Snapshot(): State
      reads this
    {
      State(result, currentNumber, currentOperation, display)
    }

    /** A new calculator: the three fields keep their Java defaults and the
        display starts empty. */
    constructor ()
      ensures result == 0 && currentNumber == 0 && currentOperation == NUL
      ensures display == Empty
      ensures Snapshot() == Initial()
    {
      result := 0;
      currentNumber := 0;
      currentOperation := NUL;
      display := Empty;
    }

    method AppendDigit(digit: Int32)
      modifies this
      ensures currentNumber == Wrap(old(currentNumber) * 10 + digit)
      ensures result == old(result) && currentOperation == old(currentOperation)
      ensures display == Number(currentNumber)
      ensures Snapshot() == CalculatorModel.AppendDigit(old(Snapshot()), digit)
    {
      currentNumber := Wrap(currentNumber * 10 + digit);
      display := Number(currentNumber);
    }

    method SetOperation(operation: char)
      modifies this
      ensures result == old(currentNumber) && currentNumber == 0
      ensures currentOperation == operation && display == Symbol(operation)
      ensures Snapshot() == CalculatorModel.SetOperation(old(Snapshot()), operation)
    {
      result := currentNumber;
      currentNumber := 0;
      currentOperation := operation;
      display := Symbol(operation);
    }

    method Calculate()
      modifies this
      ensures result == Apply(old(currentOperation), old(result), old(currentNumber))
      ensures currentNumber == result && currentOperation == old(currentOperation)
      ensures display == Number(result)
      ensures Snapshot() == CalculatorModel.Calculate(old(Snapshot()))
    {
      match currentOperation {
        case '+' =>
          result := Wrap(result + currentNumber);
        case '-' =>
          result := Wrap(result - currentNumber);
        case '*' =>
          result := Wrap(result * currentNumber);
        case '/' =>
          if currentNumber != 0 {
            result := Div(result, currentNumber);
          }
        case _ =>
      }
      currentNumber := result;
      display := Number(result);
    }

    method Clear()
      modifies this
      ensures result == 0 && currentNumber == 0 && currentOperation == NUL
      ensures display == Empty
      ensures Snapshot() == Initial()
    {
      result := 0;
      currentNumber := 0;
      currentOperation := NUL;
      display := Empty;
    }

    /** A button's `onClick`: the digit, operation, equality and clear
        buttons each call their one method. */
    method Press(button: Button)
      modifies this
      ensures Snapshot() == OnClick(old(Snapshot()), button)
    {
      match button
      case DigitKey(d) => AppendDigit(d);
      case OperationKey(c) => SetOperation(c);
      case EqualsKey => Calculate();
      case ClearKey => Clear();
    }
  }

  /** A client of the object: 4 + 2 = = on a new calculator shows 12. */
  method ChainedEqualsOnObject() returns (shown: Display)
    ensures shown == Number(12)
  {
    var c := new Calculator();
    c.Press(DigitKey(4));
    c.Press(OperationKey('+'));
    c.Press(DigitKey(2));
    c.Press(EqualsKey);
    c.Press(EqualsKey);
    shown := c.display;
  }
}
