/**
 * The two borrower fee policies. Money is counted in integer cents and a
 * duration in whole days. A policy is chosen by the borrower's category.
 */
module Fees {

  /** A borrower is a resident, or a student who may be in their first year. */
  datatype Category = Resident | Student(firstYear: bool)

  /** The base fee per day a book is held, in cents. */
  const DailyFee: int := 10

  /** The fee per day a resident pays past the late threshold, in cents. */
  const LateDailyFee: int := 20

  /** How long a first-year student may hold a book for free, in days. */
  const FirstYearFreeDays: int := 15

  /** The number of days after which a held book counts as late. */
  function LateThreshold(c: Category): nat
  {
    match c
    case Resident => 60
    case Student(_) => 30
  }

  /** What a resident owes for a book held `days` days. */
  function ResidentFee(days: int): int
  {
    var late := LateThreshold(Resident);
    if days > late then late * DailyFee + (days - late) * LateDailyFee
    else days * DailyFee
  }

  /** A first-year student returning a book within 15 days pays nothing. */
  predicate FreeForFirstYearUnderFifteenDays(firstYear: bool, days: int)
  {
    firstYear && days <= FirstYearFreeDays
  }

  /** What a student owes for a book held `days` days. */
  function StudentFee(firstYear: bool, days: int): int
  {
    if FreeForFirstYearUnderFifteenDays(firstYear, days) then 0 else days * DailyFee
  }

  function Fee(c: Category, days: int): int
  {
    match c
    case Resident => ResidentFee(days)
    case Student(firstYear) => StudentFee(firstYear, days)
  }

  /** The payment is waived outright, without looking at the wallet. */
  predicate Waived(c: Category, days: int)
  {
    c.Student? && FreeForFirstYearUnderFifteenDays(c.firstYear, days)
  }

  /** Paying for `days` days succeeds: either it is waived or the wallet stays non-negative. */
  predicate CanPay(c: Category, wallet: int, days: int)
  {
    Waived(c, days) || wallet - Fee(c, days) >= 0
  }

  /*
   * An independent, day-by-day reading of the tariffs: day number `day`
   * (counting from 1) costs the base fee, except that a resident pays the
   * late fee for every day past the late threshold.
   */

  function DailyRate(c: Category, day: nat): int
  {
    if c.Resident? && day > LateThreshold(Resident) then LateDailyFee else DailyFee
  }

  function SumOfDailyRates(c: Category, days: nat): int
  {
    if days == 0 then 0 else SumOfDailyRates(c, days - 1) + DailyRate(c, days)
  }

  /** Residents pay 10 cents a day up to the threshold and 20 cents for every later day. */
  lemma {:induction false} ResidentFeeIsSumOfDailyRates(days: nat)
    ensures ResidentFee(days) == SumOfDailyRates(Resident, days)
  {
    if days > 0 {
      ResidentFeeIsSumOfDailyRates(days - 1);
    }
  }

  /** A student who is not waived pays the base fee for every single day held. */
  lemma {:induction false} StudentFeeIsSumOfDailyRates(firstYear: bool, days: nat)
    requires !FreeForFirstYearUnderFifteenDays(firstYear, days)
    ensures StudentFee(firstYear, days) == SumOfDailyRates(Student(firstYear), days)
  {
    FlatRateSum(firstYear, days);
  }

  lemma {:induction false} FlatRateSum(firstYear: bool, days: nat)
    ensures SumOfDailyRates(Student(firstYear), days) == days * DailyFee
  {
    if days > 0 {
      FlatRateSum(firstYear, days - 1);
    }
  }

  /** Every fee that is actually charged is the sum of the daily rates. */
  lemma FeeIsSumOfDailyRates(c: Category, days: nat)
    requires !Waived(c, days)
    ensures Fee(c, days) == SumOfDailyRates(c, days)
  {
    match c
    case Resident => ResidentFeeIsSumOfDailyRates(days);
    case Student(firstYear) => StudentFeeIsSumOfDailyRates(firstYear, days);
  }

  /** The resident tariff split at the late threshold, both sides. */
  lemma ResidentFeeSplit(days: int)
    ensures days <= 60 ==> ResidentFee(days) == days * 10
    ensures days > 60 ==> ResidentFee(days) == 600 + (days - 60) * 20
  {
  }

  /**
   * The first-year waiver is all or nothing: from the sixteenth day on a
   * first-year student pays for every day, exactly as any other student.
   */
  lemma FirstYearWaiverIsNotProrated(days: int)
    requires days > FirstYearFreeDays
    ensures StudentFee(true, days) == StudentFee(false, days) == days * 10
  {
  }

  /** A student's fee within 15 days is zero in the first year and 10 cents a day otherwise. */
  lemma FirstYearWaiver(days: int)
    requires days <= FirstYearFreeDays
    ensures Waived(Student(true), days) && StudentFee(true, days) == 0
    ensures !Waived(Student(false), days) && StudentFee(false, days) == days * 10
  {
  }

  /** The late thresholds: 60 days for a resident, 30 for any student. */
  lemma LateThresholds(firstYear: bool)
    ensures LateThreshold(Resident) == 60 && LateThreshold(Student(firstYear)) == 30
  {
  }

  /** Holding a book longer never costs less (for non-negative durations). */
  lemma FeeMonotone(c: Category, d1: nat, d2: nat)
    requires d1 <= d2
    ensures Fee(c, d1) <= Fee(c, d2)
  {
  }

  /** Returning a book on the day it was borrowed is free and always payable from a non-negative wallet. */
  lemma ZeroDaysIsFree(c: Category, wallet: int)
    requires wallet >= 0
    ensures Fee(c, 0) == 0 && CanPay(c, wallet, 0)
  {
  }

  /**
   * The wallet after paying for a book held `days` days: the fee is taken
   * when the payment succeeds, and nothing is taken when it fails.
   */
  function WalletAfterPayment(c: Category, wallet: int, days: int): int
  {
    if CanPay(c, wallet, days) then wallet - Fee(c, days) else wallet
  }

  /**
   * A payment never drives a non-negative wallet negative, whether it
   * fails, is waived or is taken; and for a non-negative duration it never
   * adds money.
   */
  lemma PaymentNeverOverdraws(c: Category, wallet: int, days: int)
    requires wallet >= 0
    ensures WalletAfterPayment(c, wallet, days) >= 0
    ensures days >= 0 ==> WalletAfterPayment(c, wallet, days) <= wallet
  {
  }

  /** The wallet after paying, one after the other, for books held the given numbers of days. */
  function WalletAfterPayments(c: Category, wallet: int, durations: seq<int>): int
    decreases durations
  {
    if durations == [] then wallet
    else WalletAfterPayments(c, WalletAfterPayment(c, wallet, durations[0]), durations[1..])
  }

  /**
   * However many books a member returns, a wallet that starts non-negative
   * stays non-negative, and for non-negative durations it never grows.
   */
  lemma {:induction false} PaymentsNeverOverdraw(c: Category, wallet: int, durations: seq<int>)
    requires wallet >= 0
    ensures WalletAfterPayments(c, wallet, durations) >= 0
    ensures (forall i :: 0 <= i < |durations| ==> durations[i] >= 0) ==>
              WalletAfterPayments(c, wallet, durations) <= wallet
    decreases durations
  {
    if durations != [] {
      PaymentNeverOverdraws(c, wallet, durations[0]);
      PaymentsNeverOverdraw(c, WalletAfterPayment(c, wallet, durations[0]), durations[1..]);
      if forall i :: 0 <= i < |durations| ==> durations[i] >= 0 {
        assert forall i :: 0 <= i < |durations[1..]| ==> durations[1..][i] == durations[i + 1];
      }
    }
  }
}
