# Streamlit mini-apps: the logic behind the pages

This project models the computational core of a small collection of
Streamlit pages and proves properties of that model:

- **Expense splitter** (`Task2.py`). Pressing "Calculate Split" runs the
  settlement engine:
  - it rejects a zero total;
  - it rejects contributions that do not add up to the total;
  - otherwise it gives everybody the equal share `total / num_people`;
  - it computes each person's signed balance, paid minus share;
  - it partitions the people into those who owe (negative balance) and those
    who get money back (positive balance);
  - it settles the two lists with a greedy two-cursor loop. Each turn moves
    `min(owed, due)` from the current debtor to the current creditor, and a
    cursor moves on when its entry reaches exactly zero.
- **Calculator** (`Task3.py`): `calculate(n1, n2, op)`, four operators
  selected by their menu labels, with a text result for division by zero.
  An unknown label gives `None`.
- **Unit converter** (`Task5.py`): the eight conversion helpers for
  currency, temperature, length and weight. `inr_to_usd` returns 0 for a
  zero rate.
- **BMI calculator** (`Task4.py`): the guard on positive height and
  weight, the formula `weight / (height / 100)²`, and the if/elif/else
  category ladder.

Each page is one module: `Splitter`, `Calculator`, `Converter`, `BodyMass`.

Design choices:

- **Exact reals.** Amounts are exact `real` numbers, so the source's `==`
  and `!=` tests are modelled as exact comparisons. That makes the
  settlement loop's test `owes[i][1] == 0` decidable exactly as written.
- **Exact equality on the total.** The code compares `sum(contributions)`
  with the total using `!=`, with no tolerance. The model follows the code.
- **The two loops are methods.** `Splitter.Partition` models the partition
  `for` loop. `Splitter.Settle` models the settlement `while` loop, with
  both lists updated in place.
- **What the methods are proved against.** Each method is proved against a
  recursive function: `Ledger` for the partition, `Greedy` for the
  settlement. The properties of the settlement are proved about those
  functions.
- **Example lemmas.** `FirstExample` and `SecondExample` work two inputs
  through the whole pipeline.

## Model

| member | source | states |
|---|---|---|
| `Splitter.Balances` | Task2.py:35-39 | one balance per person, each equal to what they paid minus the share |
| `Splitter.BalancesSum` | Task2.py:35-39 | the balances sum to the sum of the contributions minus count × share |
| `Splitter.BalancesCancel` | Task2.py:28-39 | once the contributions add up to the total, the balances around the share total / count sum to zero |
| `Splitter.TotalNonNegative` | Task2.py:72-78 | a list of non-negative amounts has a non-negative total, and the total is zero exactly when every amount is zero |
| `Splitter.PickedSpec` | Task2.py:56-60 | the positions that enter a list are exactly those whose balance has that list's sign, each taken once, in input order |
| `Splitter.LedgerPicked` | Task2.py:56-60 | entry k of owes (gets) is the k-th such person's name with -balance (balance) |
| `Splitter.LedgerPositive` | Task2.py:56-60 | every amount recorded in owes or gets is strictly positive |
| `Splitter.LedgerNet` | Task2.py:56-60 | for every name, what gets records minus what owes records equals that name's summed balance |
| `Splitter.LedgerTotals` | Task2.py:56-60 | the total of gets minus the total of owes is the sum of all balances |
| `Splitter.LedgerSizes` | Task2.py:56-60 | each person lands in at most one list; both lists are empty exactly when every balance is zero |
| `Splitter.LedgersDisjoint` | Task2.py:56-60 | with distinct names, no name appears both in owes and in gets |
| `Splitter.NetOfDistinct` | Task2.py:39 | with distinct names, a name's summed balance is that person's own balance |
| `Splitter.Partition` | Task2.py:53-60 | the loop builds owes and gets as the lists specified by `Ledger` |
| `Splitter.Min` | Task2.py:69 | the result is one of the two arguments and is at most both |
| `Splitter.Rest` | Task2.py:72-78 | the list shrinks by one exactly when the amount taken equals the current entry |
| `Splitter.RestStep` | Task2.py:69-78 | one turn keeps amounts positive, lowers the total and the current name's due by the amount, and adds no names |
| `Splitter.GreedyPositive` | Task2.py:65-73 | every emitted transfer is strictly positive |
| `Splitter.GreedyLength` | Task2.py:65-78 | no transfers when a list is empty, otherwise at least one and fewer than the combined list lengths |
| `Splitter.GreedyParties` | Task2.py:65-70 | each transfer goes from a name in owes to a name in gets |
| `Splitter.GreedyConserves` | Task2.py:65-78 | when debts and credits total the same, the transfers move exactly that total |
| `Splitter.GreedySettlesEach` | Task2.py:65-78 | when debts and credits total the same, each name pays exactly what owes records for it and receives exactly what gets records for it |
| `Splitter.Take` | Task2.py:72-78 | taking the amount off the current entry in place keeps every amount between 0 and the original; it lowers the total by the amount and leaves the rest of the list to settle |
| `Splitter.SettleStep` | Task2.py:65-78 | one turn of the loop keeps the loop invariant and moves at least one cursor |
| `Splitter.GreedyUnfold` | Task2.py:65-78 | the first turn's transfer followed by the settlement of the rest is the whole greedy settlement |
| `Splitter.Settle` | Task2.py:62-78 | the loop emits exactly `Greedy(owes, gets)`; the remainders keep their names and lie between 0 and the original amounts; if debts and credits total the same, every remainder is 0 |
| `Splitter.SettleDone` | Task2.py:65 | once a cursor has run off its list the settlement is complete, and with equal totals nothing remains on either list |
| `Splitter.SettlementShape` | Task2.py:53-78 | every transfer is positive, and there are fewer transfers than people |
| `Splitter.SettlementConserves` | Task2.py:53-78 | with balances summing to zero, the transfers move the total of the positive balances (equally, of the negative ones), and every name's summed balance plus what it pays minus what it receives is zero |
| `Splitter.SettlementEmpty` | Task2.py:80-84 | with balances summing to zero, there are no transfers ("Everyone is settled") exactly when every balance is zero |
| `Splitter.SettlementPerPerson` | Task2.py:53-78 | with distinct names nobody pays themselves, and every person's balance is exactly cleared by the transfers |
| `Splitter.FirstExample` | Task2.py:35-78 | 100, 50 and 0 paid towards 150: C pays A 50 |
| `Splitter.SecondExample` | Task2.py:35-78 | 300, 0 and 0 paid towards 300: B pays A 100, then C pays A 100 |
| `Splitter.CalculateSplit` | Task2.py:27-84 | a zero total is rejected; otherwise a sum that differs from the total is reported with both figures; otherwise the share is total / count, the balances sum to zero, and the transfers are the greedy settlement of the partition. They are positive, move the total of the positive balances, and are empty exactly when all balances are zero |
| `Calculator.Calculate` | Task3.py:17-25 | no result exactly for an unknown operator; the error text exactly for division by zero; otherwise the sum, difference or product, or a quotient that times the divisor gives the dividend |
| `Calculator.SubtractUndoesAdd` | Task3.py:18-21 | subtracting n2 after adding n2 gives n1 back |
| `Calculator.DivideUndoesMultiply` | Task3.py:22-25 | for a non-zero n2, dividing and multiplying by n2 undo each other |
| `Calculator.OfferedOperatorsAnswer` | Task3.py:11-25 | the four menu operators always give a result, and it is a number unless dividing by zero |
| `Converter.InrToUsd` | Task5.py:9-10 | a zero rate gives 0; otherwise the result times the rate is the amount |
| `Converter.CurrencyRoundTrip` | Task5.py:6-10 | with a non-zero rate, USD→INR and INR→USD undo each other both ways |
| `Converter.CurrencyZeroRate` | Task5.py:6-10 | with a zero rate both currency conversions give 0 |
| `Converter.CurrencyIncreases` | Task5.py:6-10 | with a positive rate both currency conversions are strictly increasing |
| `Converter.TemperatureRoundTrip` | Task5.py:12-16 | Celsius→Fahrenheit and Fahrenheit→Celsius undo each other |
| `Converter.TemperatureLandmarks` | Task5.py:12-16 | 0 °C is 32 °F, 100 °C is 212 °F, −40 is the same on both scales, and back |
| `Converter.LengthRoundTrip` | Task5.py:18-22 | centimetres→inches and inches→centimetres undo each other |
| `Converter.WeightRoundTrip` | Task5.py:24-28 | kilograms→pounds and pounds→kilograms undo each other |
| `Converter.FixedConversionsIncrease` | Task5.py:12-28 | every fixed-factor conversion is strictly increasing |
| `BodyMass.Bmi` | Task4.py:16-19 | the index times the height in metres squared gives back the weight; it is positive for a positive weight |
| `BodyMass.Classify` | Task4.py:22-33 | Underweight exactly below 18.5, Normal Weight exactly in [18.5, 24.9), Overweight exactly in [25, 29.9), Obese exactly in [24.9, 25) or from 29.9 |
| `BodyMass.Assess` | Task4.py:11-46 | invalid exactly when height or weight is not positive; otherwise a positive index consistent with the formula, classified by the ladder |
| `BodyMass.GapBelowOverweightIsObese` | Task4.py:25-33 | 24.95 is classified Obese although 24.8 is Normal Weight and 25 is Overweight |
| `BodyMass.BmiMonotone` | Task4.py:16-19 | at fixed height the heavier person has the larger index; at fixed weight the taller person has the smaller one |

## Left out

- The Streamlit user interface is not modelled: widgets, layout, colours, the data frame and the markdown output.
- The `:.2f` formatting of amounts in messages is not modelled. A transfer is modelled as its three values.
- The input widgets' bounds are not modelled. These are `min_value`, `max_value` and `step` on the total, the contributions, the height and the weight.
- The default name `Person {i+1}` for an empty name field belongs to the UI. `names` is a parameter.
- IEEE-754 floating point is not modelled. All arithmetic is on exact reals, so rounding cannot stop a remainder from reaching exactly 0.0. A sum that differs from the total only by float rounding is not modelled either.
- Splitter.CalculateSplit: `num_people` is taken to be the number of contributions, which is the case on the page (`range(int(num_people))`). The page guarantees at least one person.
- Splitter.SettlementPerPerson: no-self-payment and per-person clearing are stated for distinct names. With repeated names, which the page allows, `SettlementConserves` states clearing per name, summed over everyone of that name.
- Splitter.Settle: Python mutates the inner `[name, amount]` lists in place. The model updates a sequence of entries, so aliasing of those inner lists is not modelled. Nothing else holds a reference to them.
- Converter.CurrencyIncreases: monotonicity is stated for a positive rate only. With a negative rate the conversions decrease, and with a zero rate they are constant.
- The live exchange-rate fetcher `fetch_usd_inr_rate` and its default rate are not modelled. They are network I/O, so the rate is a parameter.
- The unit converter's page logic that dispatches between helpers is UI code and is not modelled.
- Task1.py (a greeting form), Task6.py (a water-intake log kept in a CSV file), Task7.py (a workout log kept in SQLite) and demo_pyautoagui.py (desktop automation) are not part of this model: they are UI, file and database I/O, and GUI automation.
