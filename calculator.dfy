/** The simple calculator page (Task3.py): one operator dispatch. */
module Calculator {

  const AddOp := "Add (+)"
  const SubtractOp := "Subtract (-)"
  const MultiplyOp := "Multiply (×)"
  const DivideOp := "Divide (÷)"
  const DivideByZeroMessage := "Error: Cannot divide by zero"

  /** What `calculate` returns: a number, the error text, or Python's None. */
  datatype Value = Number(x: real) | Message(text: string) | Nothing

  /** `calculate(n1, n2, op)`. */
  function Calculate(n1: real, n2: real, op: string): (r: Value)
    ensures r.Nothing? <==> op !in {AddOp, SubtractOp, MultiplyOp, DivideOp}
    ensures r.Message? <==> op == DivideOp && n2 == 0.0
    ensures r.Message? ==> r.text == DivideByZeroMessage
    ensures op == AddOp ==> r == Number(n1 + n2)
    ensures op == SubtractOp ==> r == Number(n1 - n2)
    ensures op == MultiplyOp ==> r == Number(n1 * n2)
    ensures op == DivideOp && n2 != 0.0 ==> r.Number? && r.x * n2 == n1
  {
    if op == AddOp then Number(n1 + n2)
    else if op == SubtractOp then Number(n1 - n2)
    else if op == MultiplyOp then Number(n1 * n2)
    else if op == DivideOp then (if n2 == 0.0 then Message(DivideByZeroMessage) else Number(n1 / n2))
    else Nothing
  }

  /** Subtracting undoes adding. */
  lemma SubtractUndoesAdd(n1: real, n2: real)
    ensures Calculate(Calculate(n1, n2, AddOp).x, n2, SubtractOp) == Number(n1)
  {
  }

  /** Dividing by a non-zero number undoes multiplying by it, and the other way round. */
  lemma DivideUndoesMultiply(n1: real, n2: real)
    requires n2 != 0.0
    ensures Calculate(Calculate(n1, n2, MultiplyOp).x, n2, DivideOp) == Number(n1)
    ensures Calculate(Calculate(n1, n2, DivideOp).x, n2, MultiplyOp) == Number(n1)
  {
    var q := Calculate(n1, n2, DivideOp).x;
    assert q * n2 == n1;
  }

  /** The four operators the page offers always give a result; division by
      zero is the only error. */
  lemma OfferedOperatorsAnswer(n1: real, n2: real, op: string)
    requires op in [AddOp, SubtractOp, MultiplyOp, DivideOp]
    ensures !Calculate(n1, n2, op).Nothing?
    ensures Calculate(n1, n2, op).Number? || (op == DivideOp && n2 == 0.0)
  {
  }
}
