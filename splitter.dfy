/** The expense-settlement engine of the expense splitter page (Task2.py):
    validation of the contributions, the signed balances, the owes/gets
    partition and the greedy two-cursor settlement loop.
    Amounts are exact reals, so the source's `==` and `!=` tests are exact. */
module Splitter {

  /** One row of the `owes` or `gets` list: a name and what is still outstanding. */
  datatype Entry = Entry(name: string, amount: real)

  /** "debtor pays amount to creditor", one line of the settlement list. */
  datatype Transfer = Transfer(debtor: string, creditor: string, amount: real)

  /** Which of the two lists an entry belongs to. */
  datatype Role = Owes | Gets

  /** What one press of "Calculate Split" shows. */
  datatype Outcome =
    | InvalidTotal                                   // "Please enter a valid total amount!"
    | Mismatch(totalPaid: real, total: real)          // contributions do not match the total
    | Settled(share: real, balance: seq<real>, transfers: seq<Transfer>)

  // ---------------------------------------------------------------------------
  // Sums

  /** Python's sum() over exact reals. */
  function Sum(s: seq<real>): real
  {
    if s == [] then 0.0 else Sum(s[..|s| - 1]) + s[|s| - 1]
  }

  /** Total still outstanding in a list of entries. */
  function Total(es: seq<Entry>): real
  {
    if es == [] then 0.0 else es[0].amount + Total(es[1..])
  }

  /** Total outstanding under one name. */
  function DueFrom(es: seq<Entry>, n: string): real
  {
    if es == [] then 0.0
    else (if es[0].name == n then es[0].amount else 0.0) + DueFrom(es[1..], n)
  }

  /** Total amount moved by a list of transfers. */
  function Sent(ts: seq<Transfer>): real
  {
    if ts == [] then 0.0 else ts[0].amount + Sent(ts[1..])
  }

  /** What `n` pays in a list of transfers. */
  function PaidBy(ts: seq<Transfer>, n: string): real
  {
    if ts == [] then 0.0
    else (if ts[0].debtor == n then ts[0].amount else 0.0) + PaidBy(ts[1..], n)
  }

  /** What `n` receives in a list of transfers. */
  function ReceivedBy(ts: seq<Transfer>, n: string): real
  {
    if ts == [] then 0.0
    else (if ts[0].creditor == n then ts[0].amount else 0.0) + ReceivedBy(ts[1..], n)
  }

  /** The summed balance of everybody called `n`. */
  function NetOf(names: seq<string>, balance: seq<real>, n: string): real
    requires |names| == |balance|
  {
    if balance == [] then 0.0
    else
      var k := |balance| - 1;
      NetOf(names[..k], balance[..k], n) + (if names[k] == n then balance[k] else 0.0)
  }

  predicate AllPositive(es: seq<Entry>)
  {
    forall k :: 0 <= k < |es| ==> es[k].amount > 0.0
  }

  predicate Distinct(names: seq<string>)
  {
    forall p, q :: 0 <= p < q < |names| ==> names[p] != names[q]
  }

  function NamesOf(es: seq<Entry>): set<string>
  {
    set e | e in es :: e.name
  }

  lemma {:induction false} TotalAppend(a: seq<Entry>, b: seq<Entry>)
    ensures Total(a + b) == Total(a) + Total(b)
  {
    if a == [] {
      assert a + b == b;
    } else {
      assert (a + b)[1..] == a[1..] + b;
      TotalAppend(a[1..], b);
    }
  }

  lemma {:induction false} DueFromAppend(a: seq<Entry>, b: seq<Entry>, n: string)
    ensures DueFrom(a + b, n) == DueFrom(a, n) + DueFrom(b, n)
  {
    if a == [] {
      assert a + b == b;
    } else {
      assert (a + b)[1..] == a[1..] + b;
      DueFromAppend(a[1..], b, n);
    }
  }

  lemma {:induction false} TotalUpdate(es: seq<Entry>, k: nat, e: Entry)
    requires k < |es|
    ensures Total(es[k := e]) == Total(es) - es[k].amount + e.amount
  {
    if k == 0 {
      assert es[k := e][1..] == es[1..];
    } else {
      assert es[k := e][1..] == es[1..][k - 1 := e];
      TotalUpdate(es[1..], k - 1, e);
    }
  }

  /** A list of non-negative amounts totals zero exactly when every amount is zero. */
  lemma {:induction false} TotalNonNegative(es: seq<Entry>)
    requires forall k :: 0 <= k < |es| ==> es[k].amount >= 0.0
    ensures Total(es) >= 0.0
    ensures Total(es) == 0.0 <==> forall k :: 0 <= k < |es| ==> es[k].amount == 0.0
  {
    if es != [] {
      assert forall k :: 0 <= k < |es| - 1 ==> es[1..][k] == es[k + 1];
      TotalNonNegative(es[1..]);
    }
  }

  /** A non-empty list of positive amounts has a positive total. */
  lemma TotalPositive(es: seq<Entry>)
    requires AllPositive(es)
    ensures es != [] ==> Total(es) > 0.0
  {
    if es != [] {
      TotalNonNegative(es[1..]);
    }
  }

  /** What one name has outstanding lies between zero and the list's total. */
  lemma {:induction false} DueFromBounds(es: seq<Entry>, n: string)
    requires AllPositive(es)
    ensures 0.0 <= DueFrom(es, n) <= Total(es)
  {
    if es != [] {
      assert AllPositive(es[1..]);
      DueFromBounds(es[1..], n);
    }
  }

  // ---------------------------------------------------------------------------
  // Balances (Task2.py:35-39)

  /** Each person's balance: what they paid minus the equal share. */
  function Balances(contributions: seq<real>, share: real): (balance: seq<real>)
    ensures |balance| == |contributions|
    ensures forall p :: 0 <= p < |balance| ==> balance[p] == contributions[p] - share
  {
    seq(|contributions|, p requires 0 <= p < |contributions| => contributions[p] - share)
  }

  /** Subtracting a share from every contribution lowers the sum by count * share. */
  lemma {:induction false} BalancesSum(contributions: seq<real>, share: real)
    ensures Sum(Balances(contributions, share)) == Sum(contributions) - |contributions| as real * share
  {
    if contributions != [] {
      var k := |contributions| - 1;
      assert Balances(contributions, share)[..k] == Balances(contributions[..k], share);
      BalancesSum(contributions[..k], share);
    }
  }

  /** With the equal share total / count and contributions summing to total,
      the balances sum to zero. */
  lemma BalancesCancel(contributions: seq<real>, total: real)
    requires |contributions| > 0 && Sum(contributions) == total
    ensures Sum(Balances(contributions, total / |contributions| as real)) == 0.0
  {
    var n := |contributions| as real;
    BalancesSum(contributions, total / n);
    assert n * (total / n) == total;
  }

  // ---------------------------------------------------------------------------
  // The owes / gets partition (Task2.py:53-60)

  /** Whether a balance goes into the list of `role`: negative ones into owes,
      positive ones into gets. */
  predicate Keeps(role: Role, x: real)
  {
    if role == Owes then x < 0.0 else x > 0.0
  }

  /** The amount recorded for a balance in the list of `role`. */
  function Due(role: Role, x: real): real
  {
    if role == Owes then -x else x
  }

  /** The list of `role` after the partition loop has seen every balance. */
  function Ledger(names: seq<string>, balance: seq<real>, role: Role): seq<Entry>
    requires |names| == |balance|
  {
    if balance == [] then []
    else
      var k := |balance| - 1;
      Ledger(names[..k], balance[..k], role)
        + (if Keeps(role, balance[k]) then [Entry(names[k], Due(role, balance[k]))] else [])
  }

  /** The positions whose balance goes into the list of `role`, in order. */
  function Picked(balance: seq<real>, role: Role): seq<nat>
  {
    if balance == [] then []
    else
      var k := |balance| - 1;
      Picked(balance[..k], role) + (if Keeps(role, balance[k]) then [k] else [])
  }

  /** Everyone whose balance has the sign of `role`, nobody else, in input order. */
  lemma {:induction false} PickedSpec(balance: seq<real>, role: Role)
    ensures forall k :: 0 <= k < |Picked(balance, role)| ==>
      Picked(balance, role)[k] < |balance| && Keeps(role, balance[Picked(balance, role)[k]])
    ensures forall k1, k2 :: 0 <= k1 < k2 < |Picked(balance, role)| ==>
      Picked(balance, role)[k1] < Picked(balance, role)[k2]
    ensures forall p :: 0 <= p < |balance| && Keeps(role, balance[p]) ==> p in Picked(balance, role)
  {
    if balance != [] {
      var k := |balance| - 1;
      var Q, P := Picked(balance[..k], role), Picked(balance, role);
      PickedSpec(balance[..k], role);
      assert P == Q + (if Keeps(role, balance[k]) then [k] else []);
      forall i | 0 <= i < |Q|
        ensures P[i] == Q[i] && Q[i] < k && Keeps(role, balance[Q[i]])
      {
        assert balance[..k][Q[i]] == balance[Q[i]];
      }
      forall p | 0 <= p < k && Keeps(role, balance[p]) ensures p in Q {
        assert balance[..k][p] == balance[p];
      }
    }
  }

  /** Entry k of the list of `role` is the person at position Picked[k], with
      the amount -balance (owes) or balance (gets). */
  lemma {:induction false} LedgerPicked(names: seq<string>, balance: seq<real>, role: Role)
    requires |names| == |balance|
    ensures |Ledger(names, balance, role)| == |Picked(balance, role)|
    ensures forall k :: 0 <= k < |Ledger(names, balance, role)| ==>
      Picked(balance, role)[k] < |balance| &&
      Ledger(names, balance, role)[k] == Entry(names[Picked(balance, role)[k]], Due(role, balance[Picked(balance, role)[k]]))
  {
    if balance != [] {
      var k := |balance| - 1;
      LedgerPicked(names[..k], balance[..k], role);
      assert forall p :: 0 <= p < k ==> balance[..k][p] == balance[p] && names[..k][p] == names[p];
    }
  }

  /** Every amount in either list is strictly positive. */
  lemma {:induction false} LedgerPositive(names: seq<string>, balance: seq<real>, role: Role)
    requires |names| == |balance|
    ensures AllPositive(Ledger(names, balance, role))
  {
    if balance != [] {
      var k := |balance| - 1;
      LedgerPositive(names[..k], balance[..k], role);
    }
  }

  /** Credits minus debts is the sum of the balances, name by name ... */
  lemma {:induction false} LedgerNet(names: seq<string>, balance: seq<real>, n: string)
    requires |names| == |balance|
    ensures DueFrom(Ledger(names, balance, Gets), n) - DueFrom(Ledger(names, balance, Owes), n)
         == NetOf(names, balance, n)
  {
    if balance != [] {
      var k := |balance| - 1;
      LedgerNet(names[..k], balance[..k], n);
      var e := [Entry(names[k], Due(Owes, balance[k]))];
      var f := [Entry(names[k], Due(Gets, balance[k]))];
      DueFromAppend(Ledger(names[..k], balance[..k], Owes), e, n);
      DueFromAppend(Ledger(names[..k], balance[..k], Gets), f, n);
      DueFromAppend(Ledger(names[..k], balance[..k], Owes), [], n);
      DueFromAppend(Ledger(names[..k], balance[..k], Gets), [], n);
    }
  }

  /** ... and in all. */
  lemma {:induction false} LedgerTotals(names: seq<string>, balance: seq<real>)
    requires |names| == |balance|
    ensures Total(Ledger(names, balance, Gets)) - Total(Ledger(names, balance, Owes)) == Sum(balance)
  {
    if balance != [] {
      var k := |balance| - 1;
      LedgerTotals(names[..k], balance[..k]);
      var e := [Entry(names[k], Due(Owes, balance[k]))];
      var f := [Entry(names[k], Due(Gets, balance[k]))];
      TotalAppend(Ledger(names[..k], balance[..k], Owes), e);
      TotalAppend(Ledger(names[..k], balance[..k], Gets), f);
      TotalAppend(Ledger(names[..k], balance[..k], Owes), []);
      TotalAppend(Ledger(names[..k], balance[..k], Gets), []);
    }
  }

  /** Each person lands in at most one list, and both lists are empty exactly
      when every balance is zero. */
  lemma {:induction false} LedgerSizes(names: seq<string>, balance: seq<real>)
    requires |names| == |balance|
    ensures |Ledger(names, balance, Owes)| + |Ledger(names, balance, Gets)| <= |balance|
    ensures (Ledger(names, balance, Owes) == [] && Ledger(names, balance, Gets) == [])
        <==> forall p :: 0 <= p < |balance| ==> balance[p] == 0.0
  {
    if balance != [] {
      var k := |balance| - 1;
      LedgerSizes(names[..k], balance[..k]);
      assert forall p :: 0 <= p < k ==> balance[..k][p] == balance[p];
    }
  }

  /** With distinct names, nobody is both in owes and in gets. */
  lemma LedgersDisjoint(names: seq<string>, balance: seq<real>)
    requires |names| == |balance| && Distinct(names)
    ensures NamesOf(Ledger(names, balance, Owes)) !! NamesOf(Ledger(names, balance, Gets))
  {
    var O, G := Ledger(names, balance, Owes), Ledger(names, balance, Gets);
    var PO, PG := Picked(balance, Owes), Picked(balance, Gets);
    LedgerPicked(names, balance, Owes);
    LedgerPicked(names, balance, Gets);
    PickedSpec(balance, Owes);
    PickedSpec(balance, Gets);
    forall k1, k2 | 0 <= k1 < |O| && 0 <= k2 < |G| ensures O[k1].name != G[k2].name {
      var p, q := PO[k1], PG[k2];
      assert balance[p] < 0.0 < balance[q];
      assert O[k1].name == names[p] && G[k2].name == names[q];
      if p < q {
        assert names[p] != names[q];
      } else {
        assert names[q] != names[p];
      }
    }
    forall e1, e2 | e1 in O && e2 in G ensures e1.name != e2.name {
      var k1 :| 0 <= k1 < |O| && O[k1] == e1;
      var k2 :| 0 <= k2 < |G| && G[k2] == e2;
    }
  }

  /** Nobody is called `n`: their summed balance is zero. */
  lemma {:induction false} NetOfAbsent(names: seq<string>, balance: seq<real>, n: string)
    requires |names| == |balance| && n !in names
    ensures NetOf(names, balance, n) == 0.0
  {
    if balance != [] {
      var k := |balance| - 1;
      assert n !in names[..k];
      NetOfAbsent(names[..k], balance[..k], n);
    }
  }

  /** With distinct names, the summed balance under a person's name is that person's. */
  lemma {:induction false} NetOfDistinct(names: seq<string>, balance: seq<real>, p: nat)
    requires |names| == |balance| && Distinct(names) && p < |names|
    ensures NetOf(names, balance, names[p]) == balance[p]
  {
    var k := |balance| - 1;
    assert Distinct(names[..k]);
    if p < k {
      assert names[k] != names[p];
      NetOfDistinct(names[..k], balance[..k], p);
    } else {
      assert forall q :: 0 <= q < k ==> names[..k][q] != names[p];
      NetOfAbsent(names[..k], balance[..k], names[p]);
    }
  }

  /** The partition loop: debtors with -balance into owes, creditors with
      balance into gets, zero balances into neither. */
  method Partition(names: seq<string>, balance: seq<real>) returns (owes: seq<Entry>, gets: seq<Entry>)
    requires |names| == |balance|
    ensures owes == Ledger(names, balance, Owes)
    ensures gets == Ledger(names, balance, Gets)
  {
    owes, gets := [], [];
    for i := 0 to |balance|
      invariant owes == Ledger(names[..i], balance[..i], Owes)
      invariant gets == Ledger(names[..i], balance[..i], Gets)
    {
      assert names[..i + 1][..i] == names[..i] && balance[..i + 1][..i] == balance[..i];
      if balance[i] < 0.0 {
        owes := owes + [Entry(names[i], -balance[i])];
      } else if balance[i] > 0.0 {
        gets := gets + [Entry(names[i], balance[i])];
      }
    }
    assert names[..|balance|] == names && balance[..|balance|] == balance;
  }

  // ---------------------------------------------------------------------------
  // Greedy settlement (Task2.py:62-78)

  /** Python's min(a, b). */
  function Min(a: real, b: real): (m: real)
    ensures m <= a && m <= b && (m == a || m == b)
  {
    if a <= b then a else b
  }

  /** What remains of a list when `amount` is taken off its current entry: the
      cursor moves past the entry when it reaches exactly zero. */
  function Rest(es: seq<Entry>, amount: real): (rest: seq<Entry>)
    requires es != []
    ensures |rest| == if es[0].amount == amount then |es| - 1 else |es|
  {
    var left := es[0].amount - amount;
    if left == 0.0 then es[1..] else es[0 := Entry(es[0].name, left)]
  }

  /** The settlement list the loop emits for the remaining owes and gets. */
  function Greedy(owes: seq<Entry>, gets: seq<Entry>): seq<Transfer>
    decreases |owes| + |gets|
  {
    if owes == [] || gets == [] then []
    else
      var amount := Min(owes[0].amount, gets[0].amount);
      [Transfer(owes[0].name, gets[0].name, amount)] + Greedy(Rest(owes, amount), Rest(gets, amount))
  }

  /** One step keeps the entries positive, takes `amount` off the total and
      off the name of the current entry only, and brings in no new names. */
  lemma RestStep(es: seq<Entry>, amount: real)
    requires es != [] && AllPositive(es) && 0.0 < amount <= es[0].amount
    ensures AllPositive(Rest(es, amount))
    ensures Total(Rest(es, amount)) == Total(es) - amount
    ensures forall n :: DueFrom(Rest(es, amount), n) == DueFrom(es, n) - (if n == es[0].name then amount else 0.0)
    ensures NamesOf(Rest(es, amount)) <= NamesOf(es)
  {
    var left := es[0].amount - amount;
    if left != 0.0 {
      assert es[0 := Entry(es[0].name, left)][1..] == es[1..];
    }
    forall e | e in Rest(es, amount) ensures e.name in NamesOf(es) {
      if left != 0.0 && e == Rest(es, amount)[0] {
        assert es[0] in es;
      }
    }
  }

  /** Every emitted transfer is strictly positive. */
  lemma {:induction false} GreedyPositive(owes: seq<Entry>, gets: seq<Entry>)
    requires AllPositive(owes) && AllPositive(gets)
    ensures forall k :: 0 <= k < |Greedy(owes, gets)| ==> Greedy(owes, gets)[k].amount > 0.0
    decreases |owes| + |gets|
  {
    if owes != [] && gets != [] {
      var amount := Min(owes[0].amount, gets[0].amount);
      RestStep(owes, amount);
      RestStep(gets, amount);
      GreedyPositive(Rest(owes, amount), Rest(gets, amount));
    }
  }

  /** Every step moves at least one cursor, so there are at most
      |owes| + |gets| - 1 transfers, and none when a list is empty. */
  lemma {:induction false} GreedyLength(owes: seq<Entry>, gets: seq<Entry>)
    ensures owes == [] || gets == [] ==> Greedy(owes, gets) == []
    ensures owes != [] && gets != [] ==> 0 < |Greedy(owes, gets)| < |owes| + |gets|
    decreases |owes| + |gets|
  {
    if owes != [] && gets != [] {
      var amount := Min(owes[0].amount, gets[0].amount);
      GreedyLength(Rest(owes, amount), Rest(gets, amount));
    }
  }

  /** Every transfer goes from someone in owes to someone in gets. */
  lemma {:induction false} GreedyParties(owes: seq<Entry>, gets: seq<Entry>)
    requires AllPositive(owes) && AllPositive(gets)
    ensures forall k :: 0 <= k < |Greedy(owes, gets)| ==>
      Greedy(owes, gets)[k].debtor in NamesOf(owes) && Greedy(owes, gets)[k].creditor in NamesOf(gets)
    decreases |owes| + |gets|
  {
    if owes != [] && gets != [] {
      var amount := Min(owes[0].amount, gets[0].amount);
      RestStep(owes, amount);
      RestStep(gets, amount);
      GreedyParties(Rest(owes, amount), Rest(gets, amount));
      assert owes[0] in owes && gets[0] in gets;
    }
  }

  /** When debts and credits total the same, the transfers move exactly that total. */
  lemma {:induction false} GreedyConserves(owes: seq<Entry>, gets: seq<Entry>)
    requires AllPositive(owes) && AllPositive(gets) && Total(owes) == Total(gets)
    ensures Sent(Greedy(owes, gets)) == Total(owes)
    decreases |owes| + |gets|
  {
    if owes != [] && gets != [] {
      var amount := Min(owes[0].amount, gets[0].amount);
      RestStep(owes, amount);
      RestStep(gets, amount);
      GreedyConserves(Rest(owes, amount), Rest(gets, amount));
    }
  }

  /** When debts and credits total the same, everyone pays exactly what they
      owe and receives exactly what they are owed. */
  lemma {:induction false} GreedySettlesEach(owes: seq<Entry>, gets: seq<Entry>, n: string)
    requires AllPositive(owes) && AllPositive(gets) && Total(owes) == Total(gets)
    ensures PaidBy(Greedy(owes, gets), n) == DueFrom(owes, n)
    ensures ReceivedBy(Greedy(owes, gets), n) == DueFrom(gets, n)
    decreases |owes| + |gets|
  {
    if owes == [] || gets == [] {
      DueFromBounds(owes, n);
      DueFromBounds(gets, n);
    } else {
      var amount := Min(owes[0].amount, gets[0].amount);
      RestStep(owes, amount);
      RestStep(gets, amount);
      GreedySettlesEach(Rest(owes, amount), Rest(gets, amount), n);
    }
  }

  /** The state of one list while its cursor is at i: names unchanged, every
      amount between 0 and the original, exactly 0 before the cursor and
      positive from the cursor on. */
  predicate Remainders(orig: seq<Entry>, left: seq<Entry>, i: int)
  {
    |left| == |orig| && 0 <= i <= |left| &&
    forall k :: 0 <= k < |left| ==>
      && left[k].name == orig[k].name
      && 0.0 <= left[k].amount <= orig[k].amount
      && (k < i ==> left[k].amount == 0.0)
      && (i <= k ==> left[k].amount > 0.0)
  }

  /** Taking `amount` off the entry at the cursor in place, and moving the
      cursor past it when it reaches zero, keeps Remainders, lowers the total
      by `amount`, and leaves, from the new cursor on, Rest of the list from
      the old cursor. */
  lemma Take(orig: seq<Entry>, left: seq<Entry>, i: nat, amount: real, after: seq<Entry>, i': nat)
    requires Remainders(orig, left, i) && i < |left| && 0.0 < amount <= left[i].amount
    requires after == left[i := Entry(left[i].name, left[i].amount - amount)]
    requires i' == if after[i].amount == 0.0 then i + 1 else i
    ensures Remainders(orig, after, i')
    ensures i' <= |after| && after[i'..] == Rest(left[i..], amount)
    ensures Total(after) == Total(left) - amount
    ensures i' == i + 1 <==> amount == left[i].amount
  {
    if after[i].amount == 0.0 {
      assert after[i + 1..] == left[i..][1..];
    } else {
      assert after[i..] == left[i..][0 := after[i]];
    }
    TotalUpdate(left, i, after[i]);
  }

  /** The invariant of the settlement loop started on `owes` and `gets`: what
      has been emitted followed by what the remainders will emit is the whole
      greedy settlement, and both lists have lost the same total. */
  predicate Settling(owes: seq<Entry>, gets: seq<Entry>, settlement: seq<Transfer>,
                     owesLeft: seq<Entry>, getsLeft: seq<Entry>, i: int, j: int)
  {
    && Remainders(owes, owesLeft, i) && Remainders(gets, getsLeft, j)
    && settlement + Greedy(owesLeft[i..], getsLeft[j..]) == Greedy(owes, gets)
    && Total(owes) - Total(owesLeft) == Total(gets) - Total(getsLeft)
  }

  /** One turn of the settlement loop keeps its invariant: `amount` is taken
      off both current entries, the settlement grows by one transfer, and each
      cursor moves past an entry that reached zero. */
  lemma SettleStep(owes: seq<Entry>, gets: seq<Entry>, settlement: seq<Transfer>,
                   owesLeft: seq<Entry>, getsLeft: seq<Entry>, i: nat, j: nat,
                   amount: real, owesAfter: seq<Entry>, getsAfter: seq<Entry>, i': nat, j': nat)
    requires Settling(owes, gets, settlement, owesLeft, getsLeft, i, j)
    requires i < |owesLeft| && j < |getsLeft|
    requires amount == Min(owesLeft[i].amount, getsLeft[j].amount)
    requires owesAfter == owesLeft[i := Entry(owesLeft[i].name, owesLeft[i].amount - amount)]
    requires getsAfter == getsLeft[j := Entry(getsLeft[j].name, getsLeft[j].amount - amount)]
    requires i' == if owesAfter[i].amount == 0.0 then i + 1 else i
    requires j' == if getsAfter[j].amount == 0.0 then j + 1 else j
    ensures Settling(owes, gets, settlement + [Transfer(owesLeft[i].name, getsLeft[j].name, amount)],
                     owesAfter, getsAfter, i', j')
    ensures |owesAfter| == |owes| && |getsAfter| == |gets|
    ensures i <= i' && j <= j' && (i < i' || j < j')
  {
    var t := Transfer(owesLeft[i].name, getsLeft[j].name, amount);
    Take(owes, owesLeft, i, amount, owesAfter, i');
    Take(gets, getsLeft, j, amount, getsAfter, j');
    GreedyUnfold(settlement, owesLeft[i..], getsLeft[j..], amount, t);
  }

  /** The first turn of the greedy settlement, appended to what came before. */
  lemma GreedyUnfold(settlement: seq<Transfer>, o: seq<Entry>, g: seq<Entry>, amount: real, t: Transfer)
    requires o != [] && g != []
    requires amount == Min(o[0].amount, g[0].amount)
    requires t == Transfer(o[0].name, g[0].name, amount)
    ensures (settlement + [t]) + Greedy(Rest(o, amount), Rest(g, amount)) == settlement + Greedy(o, g)
  {
  }

  /** The settlement loop. The lists are updated in place and handed back with
      what remains on them. */
  method Settle(owes: seq<Entry>, gets: seq<Entry>)
    returns (settlement: seq<Transfer>, owesLeft: seq<Entry>, getsLeft: seq<Entry>)
    requires AllPositive(owes) && AllPositive(gets)
    ensures settlement == Greedy(owes, gets)
    ensures |owesLeft| == |owes| && |getsLeft| == |gets|
    ensures forall k :: 0 <= k < |owes| ==>
      owesLeft[k].name == owes[k].name && 0.0 <= owesLeft[k].amount <= owes[k].amount
    ensures forall k :: 0 <= k < |gets| ==>
      getsLeft[k].name == gets[k].name && 0.0 <= getsLeft[k].amount <= gets[k].amount
    ensures Total(owes) == Total(gets) ==>
      (forall k :: 0 <= k < |owes| ==> owesLeft[k].amount == 0.0) &&
      (forall k :: 0 <= k < |gets| ==> getsLeft[k].amount == 0.0)
  {
    settlement, owesLeft, getsLeft := [], owes, gets;
    var i, j := 0, 0;
    while i < |owesLeft| && j < |getsLeft|
      invariant Settling(owes, gets, settlement, owesLeft, getsLeft, i, j)
      decreases |owes| - i + |gets| - j
    {
      ghost var settlement0, owesLeft0, getsLeft0, i0, j0 := settlement, owesLeft, getsLeft, i, j;
      var oweName, oweAmt := owesLeft[i].name, owesLeft[i].amount;
      var getName, getAmt := getsLeft[j].name, getsLeft[j].amount;
      var amount := Min(oweAmt, getAmt);
      settlement := settlement + [Transfer(oweName, getName, amount)];

      owesLeft := owesLeft[i := Entry(oweName, oweAmt - amount)];
      getsLeft := getsLeft[j := Entry(getName, getAmt - amount)];
      if owesLeft[i].amount == 0.0 {
        i := i + 1;
      }
      if getsLeft[j].amount == 0.0 {
        j := j + 1;
      }
      SettleStep(owes, gets, settlement0, owesLeft0, getsLeft0, i0, j0, amount, owesLeft, getsLeft, i, j);
    }
    SettleDone(owes, gets, settlement, owesLeft, getsLeft, i, j);
  }

  /** When a cursor has run off its list, the settlement is complete; if
      debts and credits totalled the same, nothing remains on either list. */
  lemma SettleDone(owes: seq<Entry>, gets: seq<Entry>, settlement: seq<Transfer>,
                   owesLeft: seq<Entry>, getsLeft: seq<Entry>, i: nat, j: nat)
    requires Settling(owes, gets, settlement, owesLeft, getsLeft, i, j)
    requires i == |owesLeft| || j == |getsLeft|
    ensures settlement == Greedy(owes, gets)
    ensures |owesLeft| == |owes| && |getsLeft| == |gets|
    ensures forall k :: 0 <= k < |owes| ==>
      owesLeft[k].name == owes[k].name && 0.0 <= owesLeft[k].amount <= owes[k].amount
    ensures forall k :: 0 <= k < |gets| ==>
      getsLeft[k].name == gets[k].name && 0.0 <= getsLeft[k].amount <= gets[k].amount
    ensures Total(owes) == Total(gets) ==>
      (forall k :: 0 <= k < |owes| ==> owesLeft[k].amount == 0.0) &&
      (forall k :: 0 <= k < |gets| ==> getsLeft[k].amount == 0.0)
  {
    assert settlement + [] == settlement;
    TotalNonNegative(owesLeft);
    TotalNonNegative(getsLeft);
  }

  // ---------------------------------------------------------------------------
  // Settling a list of balances (Task2.py:53-84)

  /** The transfers the page lists for these balances. */
  function Settlement(names: seq<string>, balance: seq<real>): seq<Transfer>
    requires |names| == |balance|
  {
    Greedy(Ledger(names, balance, Owes), Ledger(names, balance, Gets))
  }

  /** Every transfer is strictly positive, and there are fewer transfers than people. */
  lemma SettlementShape(names: seq<string>, balance: seq<real>)
    requires |names| == |balance|
    ensures forall k :: 0 <= k < |Settlement(names, balance)| ==> Settlement(names, balance)[k].amount > 0.0
    ensures |Settlement(names, balance)| < |names| || Settlement(names, balance) == []
  {
    LedgerPositive(names, balance, Owes);
    LedgerPositive(names, balance, Gets);
    GreedyPositive(Ledger(names, balance, Owes), Ledger(names, balance, Gets));
    GreedyLength(Ledger(names, balance, Owes), Ledger(names, balance, Gets));
    LedgerSizes(names, balance);
  }

  /** When the balances sum to zero, the transfers move exactly the sum of the
      positive balances, and after them everybody's summed balance is zero. */
  lemma SettlementConserves(names: seq<string>, balance: seq<real>)
    requires |names| == |balance| && Sum(balance) == 0.0
    ensures Sent(Settlement(names, balance)) == Total(Ledger(names, balance, Gets))
    ensures Sent(Settlement(names, balance)) == Total(Ledger(names, balance, Owes))
    ensures forall n :: NetOf(names, balance, n) + PaidBy(Settlement(names, balance), n)
                       - ReceivedBy(Settlement(names, balance), n) == 0.0
  {
    var owes, gets := Ledger(names, balance, Owes), Ledger(names, balance, Gets);
    LedgerPositive(names, balance, Owes);
    LedgerPositive(names, balance, Gets);
    LedgerTotals(names, balance);
    GreedyConserves(owes, gets);
    forall n ensures NetOf(names, balance, n) + PaidBy(Greedy(owes, gets), n) - ReceivedBy(Greedy(owes, gets), n) == 0.0 {
      LedgerNet(names, balance, n);
      GreedySettlesEach(owes, gets, n);
    }
  }

  /** When the balances sum to zero, there is nothing to settle exactly when
      every balance is zero ("Everyone is settled"). */
  lemma SettlementEmpty(names: seq<string>, balance: seq<real>)
    requires |names| == |balance| && Sum(balance) == 0.0
    ensures Settlement(names, balance) == [] <==> forall p :: 0 <= p < |balance| ==> balance[p] == 0.0
  {
    var owes, gets := Ledger(names, balance, Owes), Ledger(names, balance, Gets);
    LedgerPositive(names, balance, Owes);
    LedgerPositive(names, balance, Gets);
    LedgerTotals(names, balance);
    LedgerSizes(names, balance);
    GreedyLength(owes, gets);
    TotalPositive(owes);
    TotalPositive(gets);
  }

  /** With distinct names nobody pays themselves, and after the transfers every
      person's balance is exactly zero. */
  lemma SettlementPerPerson(names: seq<string>, balance: seq<real>)
    requires |names| == |balance| && Sum(balance) == 0.0 && Distinct(names)
    ensures forall k :: 0 <= k < |Settlement(names, balance)| ==>
      Settlement(names, balance)[k].debtor != Settlement(names, balance)[k].creditor
    ensures forall p :: 0 <= p < |balance| ==>
      balance[p] + PaidBy(Settlement(names, balance), names[p]) - ReceivedBy(Settlement(names, balance), names[p]) == 0.0
  {
    LedgerPositive(names, balance, Owes);
    LedgerPositive(names, balance, Gets);
    LedgersDisjoint(names, balance);
    GreedyParties(Ledger(names, balance, Owes), Ledger(names, balance, Gets));
    SettlementConserves(names, balance);
    forall p | 0 <= p < |balance|
      ensures balance[p] + PaidBy(Settlement(names, balance), names[p]) - ReceivedBy(Settlement(names, balance), names[p]) == 0.0
    {
      NetOfDistinct(names, balance, p);
    }
  }

  /** A paid 100, B 50, C 0 of 150: C pays A 50. */
  lemma FirstExample()
    ensures Balances([100.0, 50.0, 0.0], 50.0) == [50.0, 0.0, -50.0]
    ensures Settlement(["A", "B", "C"], [50.0, 0.0, -50.0]) == [Transfer("C", "A", 50.0)]
  {
    var names, balance := ["A", "B", "C"], [50.0, 0.0, -50.0];
    assert names[..2] == ["A", "B"] && balance[..2] == [50.0, 0.0];
    assert ["A", "B"][..1] == ["A"] && [50.0, 0.0][..1] == [50.0];
    assert ["A"][..0] == [] && [50.0][..0] == [];
    assert Ledger(["A"], [50.0], Owes) == [] && Ledger(["A"], [50.0], Gets) == [Entry("A", 50.0)];
    assert Ledger(["A", "B"], [50.0, 0.0], Owes) == [] && Ledger(["A", "B"], [50.0, 0.0], Gets) == [Entry("A", 50.0)];
    assert Ledger(names, balance, Owes) == [Entry("C", 50.0)];
    assert Ledger(names, balance, Gets) == [Entry("A", 50.0)];
  }

  /** A paid all of 300 for three: B and C each pay A 100. */
  lemma SecondExample()
    ensures Balances([300.0, 0.0, 0.0], 100.0) == [200.0, -100.0, -100.0]
    ensures Settlement(["A", "B", "C"], [200.0, -100.0, -100.0])
         == [Transfer("B", "A", 100.0), Transfer("C", "A", 100.0)]
  {
    SecondLedgers();
    SecondGreedy();
  }

  lemma SecondLedgers()
    ensures Ledger(["A", "B", "C"], [200.0, -100.0, -100.0], Owes) == [Entry("B", 100.0), Entry("C", 100.0)]
    ensures Ledger(["A", "B", "C"], [200.0, -100.0, -100.0], Gets) == [Entry("A", 200.0)]
  {
    var names, balance := ["A", "B", "C"], [200.0, -100.0, -100.0];
    assert names[..2] == ["A", "B"] && balance[..2] == [200.0, -100.0];
    assert ["A", "B"][..1] == ["A"] && [200.0, -100.0][..1] == [200.0];
    assert ["A"][..0] == [] && [200.0][..0] == [];
    assert Ledger(["A"], [200.0], Owes) == [] && Ledger(["A"], [200.0], Gets) == [Entry("A", 200.0)];
    assert Ledger(["A", "B"], [200.0, -100.0], Owes) == [Entry("B", 100.0)];
    assert Ledger(["A", "B"], [200.0, -100.0], Gets) == [Entry("A", 200.0)];
  }

  lemma SecondGreedy()
    ensures Greedy([Entry("B", 100.0), Entry("C", 100.0)], [Entry("A", 200.0)])
         == [Transfer("B", "A", 100.0), Transfer("C", "A", 100.0)]
  {
    var owes, gets := [Entry("B", 100.0), Entry("C", 100.0)], [Entry("A", 200.0)];
    assert owes[1..] == [Entry("C", 100.0)];
    assert Rest(owes, 100.0) == [Entry("C", 100.0)];
    assert Rest(gets, 100.0) == [Entry("A", 100.0)];
    assert Rest([Entry("C", 100.0)], 100.0) == [] && Rest([Entry("A", 100.0)], 100.0) == [];
    assert Greedy([Entry("C", 100.0)], [Entry("A", 100.0)]) == [Transfer("C", "A", 100.0)];
  }

  // ---------------------------------------------------------------------------
  // The "Calculate Split" handler (Task2.py:27-84)

  /** Validate the contributions, compute the balances and settle them. The
      people are given by `names` and `contributions`, one each. */
  method CalculateSplit(names: seq<string>, contributions: seq<real>, total: real) returns (out: Outcome)
    requires |names| == |contributions| >= 1
    ensures total == 0.0 <==> out == InvalidTotal
    ensures out.Mismatch? <==> total != 0.0 && Sum(contributions) != total
    ensures out.Mismatch? ==> out == Mismatch(Sum(contributions), total)
    ensures out.Settled? ==>
      && out.share == total / |contributions| as real
      && out.balance == Balances(contributions, out.share)
      && Sum(out.balance) == 0.0
      && out.transfers == Settlement(names, out.balance)
      && (forall k :: 0 <= k < |out.transfers| ==> out.transfers[k].amount > 0.0)
      && Sent(out.transfers) == Total(Ledger(names, out.balance, Gets))
      && (out.transfers == [] <==> forall p :: 0 <= p < |out.balance| ==> out.balance[p] == 0.0)
  {
    var totalPaid := Sum(contributions);
    if total == 0.0 {
      return InvalidTotal;
    } else if totalPaid != total {
      return Mismatch(totalPaid, total);
    }
    var share := total / |contributions| as real;
    var balance := Balances(contributions, share);
    var owes, gets := Partition(names, balance);
    LedgerPositive(names, balance, Owes);
    LedgerPositive(names, balance, Gets);
    var settlement, _, _ := Settle(owes, gets);
    BalancesCancel(contributions, total);
    SettlementShape(names, balance);
    SettlementConserves(names, balance);
    SettlementEmpty(names, balance);
    out := Settled(share, balance, settlement);
  }
}
