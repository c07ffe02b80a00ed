/**
 Native balance transfers.  The receiving balance is added to as a machine word,
 so conservation hinges on the sum fitting one.
 */
module NativeTransfers {
  import opened Words
  import opened Sums

  type Balances = map<string, U64>

  function BalanceOf(b: Balances, account: string): U64 {
    if account in b then b[account] else 0
  }

  function Supply(b: Balances): Amounts {
    map a | a in b :: b[a]
  }

  /** The ledger after a transfer, and whether it was carried out. */
  function Transfer(b: Balances, from: string, to: string, amount: U64): (Balances, bool) {
    if BalanceOf(b, from) < amount then (b, false)
    else
      var debited := b[from := BalanceOf(b, from) - amount];
      (debited[to := WrappingAdd(BalanceOf(debited, to), amount)], true)
  }

  /** Submitting a transaction resets the balance recorded for its sender. */
  function ResetBalance(b: Balances, account: string): Balances {
    b[account := 0]
  }

  /** The sender holds nothing afterwards, and everybody else what it held. */
  lemma ResetBalanceOnly(b: Balances, account: string, other: string)
    ensures BalanceOf(ResetBalance(b, account), other) == if other == account then 0 else BalanceOf(b, other)
  {
  }

  ghost function Total(b: Balances): nat {
    Sum(Supply(b))
  }

  lemma TotalUpdate(b: Balances, account: string, v: U64)
    ensures Total(b[account := v]) == Total(b) - BalanceOf(b, account) + v
  {
    assert Supply(b[account := v]) == Supply(b)[account := v];
    SumUpdate(Supply(b), account, v);
  }

  lemma BalanceBelowTotal(b: Balances, account: string)
    ensures BalanceOf(b, account) <= Total(b)
  {
    if account in b {
      SumMember(Supply(b), account);
    }
  }

  /** The receiver's balance after the debit: what the credit is added to. */
  function Receiving(b: Balances, from: string, to: string, amount: U64): nat
    requires amount <= BalanceOf(b, from)
  {
    if from == to then BalanceOf(b, from) - amount else BalanceOf(b, to)
  }

  /**
   A transfer that is carried out keeps the total exactly when the credit does
   not wrap; otherwise 2^64 goes missing.  A refused one changes nothing.
   */
  lemma TransferConservesIffNoWrap(b: Balances, from: string, to: string, amount: U64)
    ensures !Transfer(b, from, to, amount).1 ==> Transfer(b, from, to, amount).0 == b
    ensures Transfer(b, from, to, amount).1 <==> amount <= BalanceOf(b, from)
    ensures amount <= BalanceOf(b, from) ==>
              var after := Total(Transfer(b, from, to, amount).0);
              && (after == Total(b) <==> Receiving(b, from, to, amount) + amount < TWO_64)
              && (after == Total(b) || after == Total(b) - TWO_64)
  {
    if amount <= BalanceOf(b, from) {
      var debited := b[from := BalanceOf(b, from) - amount];
      TotalUpdate(b, from, BalanceOf(b, from) - amount);
      TotalUpdate(debited, to, WrappingAdd(BalanceOf(debited, to), amount));
      assert BalanceOf(debited, to) == Receiving(b, from, to, amount);
      AddCarries(BalanceOf(debited, to), amount);
    }
  }

  /** Nothing but the two accounts is touched, and the amount moves between them. */
  lemma TransferMovesAmount(b: Balances, from: string, to: string, amount: U64, other: string)
    requires amount <= BalanceOf(b, from) && Total(b) < TWO_64
    ensures var after := Transfer(b, from, to, amount).0;
            BalanceOf(after, other)
            == BalanceOf(b, other) - (if other == from then amount else 0) + (if other == to then amount else 0)
  {
    BalanceBelowTotal(b, from);
    if from != to {
      PairBelowTotal(b, from, to);
    }
    var debited := b[from := BalanceOf(b, from) - amount];
    AddCarries(BalanceOf(debited, to), amount);
  }

  lemma PairBelowTotal(b: Balances, x: string, y: string)
    requires x != y
    ensures BalanceOf(b, x) + BalanceOf(b, y) <= Total(b)
  {
    var b0 := b[x := 0];
    TotalUpdate(b, x, 0);
    BalanceBelowTotal(b0, y);
  }

  datatype Payment = Payment(from: string, to: string, amount: U64)

  function Ledger(b: Balances, ps: seq<Payment>): Balances {
    if ps == [] then b
    else
      var p := ps[|ps| - 1];
      Transfer(Ledger(b, ps[..|ps| - 1]), p.from, p.to, p.amount).0
  }

  lemma PaymentConserves(b: Balances, p: Payment)
    requires Total(b) < TWO_64
    ensures Total(Transfer(b, p.from, p.to, p.amount).0) == Total(b)
    ensures p.amount <= BalanceOf(b, p.from) ==>
              Receiving(b, p.from, p.to, p.amount) + p.amount < TWO_64
  {
    BalanceBelowTotal(b, p.from);
    if p.from != p.to {
      PairBelowTotal(b, p.from, p.to);
    }
    TransferConservesIffNoWrap(b, p.from, p.to, p.amount);
  }

  /**
   When the supply fits a word, every sequence of payments keeps it: payments to
   oneself, to or from missing accounts and refused ones included.
   */
  lemma {:induction false} PaymentsConserveSupply(b: Balances, ps: seq<Payment>)
    requires Total(b) < TWO_64
    ensures Total(Ledger(b, ps)) == Total(b)
  {
    if ps != [] {
      var n := |ps| - 1;
      PaymentsConserveSupply(b, ps[..n]);
      PaymentConserves(Ledger(b, ps[..n]), ps[n]);
    }
  }

  /** And no credit along the way wraps. */
  lemma NoCreditWraps(b: Balances, ps: seq<Payment>, next: Payment)
    requires Total(b) < TWO_64
    ensures var before := Ledger(b, ps);
            next.amount <= BalanceOf(before, next.from) ==>
              Receiving(before, next.from, next.to, next.amount) + next.amount < TWO_64
  {
    PaymentsConserveSupply(b, ps);
    PaymentConserves(Ledger(b, ps), next);
  }

  /** Submission destroys the sender's balance: the total survives iff it was zero. */
  lemma SubmissionConservesIffSenderHeldNothing(b: Balances, account: string)
    ensures Total(ResetBalance(b, account)) == Total(b) <==> BalanceOf(b, account) == 0
  {
    TotalUpdate(b, account, 0);
  }
}
