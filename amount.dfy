/** Amounts of money in satoshis and the consensus bound on them. */
module Amount {
  import opened Ints

  /** Satoshis in one BTB. */
  const COIN: int64 := 100_000_000

  /** The block reward before any reduction. */
  const INITIAL_REWARD: int64 := 10000 * COIN

  const DROP_DIVISOR: int32 := 20

  /** No valid amount exceeds this many satoshis; a sanity bound, not the supply. */
  const MAX_MONEY: int64 := 210 * COIN * COIN

  /** An amount is valid when it is neither negative nor above MAX_MONEY. */
  predicate MoneyRange(nValue: int64)
  {
    nValue >= 0 && nValue <= MAX_MONEY
  }

  /** The constants as decimal numbers: a coin is 10^8 satoshis, the first
      reward 10^4 coins, and the bound 2.1 * 10^18 satoshis (21 billion coins),
      which is below INT64_MAX, so none of the products overflows. */
  lemma ConstantValues()
    ensures COIN == 100_000_000
    ensures INITIAL_REWARD == 1_000_000_000_000
    ensures MAX_MONEY == 2_100_000_000_000_000_000
    ensures MAX_MONEY == 21_000_000_000 * COIN
    ensures 210 * COIN * COIN <= INT64_MAX
    ensures INITIAL_REWARD <= MAX_MONEY
  {
  }

  /** MoneyRange is exactly the closed interval [0, MAX_MONEY]. */
  lemma MoneyRangeMeaning(v: int64)
    ensures MoneyRange(v) <==> 0 <= v <= MAX_MONEY
    ensures MoneyRange(v) ==> !MoneyRange(-v) || v == 0
  {
  }

  /** Its two ends are in range and the values just beyond them are not. */
  lemma MoneyRangeBoundaries()
    ensures MoneyRange(0) && MoneyRange(MAX_MONEY)
    ensures !MoneyRange(-1) && !MoneyRange(MAX_MONEY + 1)
    ensures MoneyRange(COIN) && MoneyRange(INITIAL_REWARD)
  {
  }

  /** Two valid amounts add up without leaving int64, so a sum can be checked
      with MoneyRange after it is formed. */
  lemma SumOfTwoFits(a: int64, b: int64)
    requires MoneyRange(a) && MoneyRange(b)
    ensures 0 <= a + b <= 2 * MAX_MONEY <= INT64_MAX
  {
  }
}
