/**
 * `updateCalculator`: the price of a requested amount of one item, and how many
 * whole stacks and loose items that amount makes.
 */
module Calculator {
  import opened Wrappers
  import opened Numbers
  import opened Catalog

  /**
   * `parseInt(value) || 1`: text that does not parse (NaN) and a parsed 0 both become 1;
   * every other parsed number is the amount.
   */
  function Amount(input: string): (n: int)
    ensures n != 0
    ensures ParseInt(input) == None || ParseInt(input) == Some(0) ==> n == 1
    ensures ParseInt(input).Some? && ParseInt(input).value != 0 ==> n == ParseInt(input).value
  {
    match ParseInt(input)
    case None => 1
    case Some(v) => if v == 0 then 1 else v
  }

  /** An emptied field, or one holding only white space, is read as the amount 1. */
  lemma AmountOfBlank(input: string)
    requires forall i :: 0 <= i < |input| ==> IsJsSpace(input[i])
    ensures Amount(input) == 1
  {
  }

  /** Text that starts with neither white space, a sign nor a digit is read as the amount 1. */
  lemma AmountOfNonNumber(input: string)
    requires input != [] && !IsJsSpace(input[0]) && input[0] != '-' && input[0] != '+'
    requires DigitValue(input[0]) >= 10
    ensures Amount(input) == 1
  {
    TrimStartNoSpace(input);
  }

  /** `"-0"` and `"00"` parse to 0, so they too are read as the amount 1. */
  lemma AmountOfZeros()
    ensures Amount("-0") == 1 && Amount("00") == 1
  {
    ParseIntZeros();
  }

  /** Every amount other than 0, typed in decimal, is taken as it is; 0 becomes 1. */
  lemma AmountOfDecimal(n: int)
    ensures Amount(DecimalString(n)) == if n == 0 then 1 else n
  {
    ParseIntDecimal(n);
  }

  /** What the calculator shows: the total price, whole stacks and the items left over. */
  datatype Breakdown = Breakdown(total: int, stacks: int, remainder: int)

  /**
   * The three values `updateCalculator` writes. For an amount that is not negative
   * the whole stacks and the rest add up to the amount, and the rest is less than a stack.
   */
  function Calculate(item: Item, input: string): (b: Breakdown)
    ensures b.total == item.price * Amount(input)
    ensures Amount(input) >= 0 ==>
      b.stacks * item.stack + b.remainder == Amount(input) && 0 <= b.remainder < item.stack
  {
    var amount := Amount(input);
    Breakdown(item.price * amount, FloorDiv(amount, item.stack), JsRem(amount, item.stack))
  }

  /**
   * For a negative amount the rounded-down quotient and the truncated remainder do not
   * fit together: unless the amount is a whole number of stacks (the remainder is 0),
   * they add up to one stack less than the amount.
   */
  lemma NegativeAmountShort(item: Item, input: string)
    requires Amount(input) < 0
    ensures var b := Calculate(item, input);
      b.stacks * item.stack + b.remainder == if b.remainder == 0 then Amount(input) else Amount(input) - item.stack
    ensures -(item.stack as int) < Calculate(item, input).remainder <= 0
  {
    var a, s := Amount(input), item.stack as int;
    var b := Calculate(item, input);
    assert b.stacks == FloorDiv(a, s) && b.remainder == JsRem(a, s);
    FloorRemNegative(a, s);
  }

  /** "-5" with stacks of 64 shows -1 stacks and -5 items, which add up to -69. */
  lemma NegativeAmountExample(item: Item)
    requires item.stack == 64
    ensures Amount("-5") == -5
    ensures Calculate(item, "-5").stacks == -1 && Calculate(item, "-5").remainder == -5
  {
    AmountOfDecimal(-5);
    assert DecimalString(-5) == "-5";
  }

  /**
   * The whole handler: nothing is written when the amount field or one of the two
   * result fields is missing.
   */
  function UpdateCalculator(item: Item, amountField: Option<string>, hasResultFields: bool): (r: Option<Breakdown>)
    ensures r.Some? <==> amountField.Some? && hasResultFields
    ensures r.Some? ==> r.value == Calculate(item, amountField.value)
  {
    match amountField
    case None => None
    case Some(v) => if hasResultFields then Some(Calculate(item, v)) else None
  }

  /** Fewer items than a stack holds make no whole stack, only loose items. */
  lemma LessThanAStack(item: Item, input: string)
    requires 0 < Amount(input) < item.stack
    ensures Calculate(item, input).stacks == 0 && Calculate(item, input).remainder == Amount(input)
  {
    DivSmall(Amount(input), item.stack);
  }

  /** Opening the calculator sets the amount to 1: the total is the unit price, and one loose item. */
  lemma OpenCalculator(item: Item)
    ensures Calculate(item, "1").total == item.price
    ensures Calculate(item, "1").stacks == (if item.stack == 1 then 1 else 0)
    ensures Calculate(item, "1").remainder == (if item.stack == 1 then 0 else 1)
  {
    ParseIntNatDigits(1);
    assert NatDigits(1) == "1";
    assert Amount("1") == 1;
    var b := Calculate(item, "1");
    assert b.total == item.price * 1;
    if item.stack == 1 {
      DivOne(1);
    } else {
      LessThanAStack(item, "1");
    }
  }
}
