/** `SlowQueryEntry` (src/main.rs:41-58) and its validity rule. */
module Entries {
  import opened Text

  /** Rust's `u64`. */
  newtype u64 = x: int | 0 <= x < 0x1_0000_0000_0000_0000

  /**
   * One slow-query event. `queryTime` and `lockTime` hold the text the log
   * captured for the `f64` fields (empty while no `Query_time` line was seen);
   * `query` is the raw, newline-terminated body text.
   */
  datatype Entry = Entry(
    time: string,
    user: string,
    host: string,
    threadId: string,
    schema: string,
    qcHit: string,
    queryTime: string,
    lockTime: string,
    rowsSent: u64,
    rowsExamined: u64,
    rowsAffected: u64,
    bytesSent: u64,
    query: string)
  {
    /** `is_valid`: an entry is written out iff it carries a thread id. */
    predicate IsValid() {
      threadId != []
    }
  }

  /** `SlowQueryEntry::default()`: empty strings, zero counters, empty query. */
  const Default: Entry := Entry("", "", "", "", "", "", "", "", 0, 0, 0, 0, "")

  /** The entry a `User@Host` line starts: the default with time, user and host filled in. */
  function Started(time: string, user: string, host: string): (e: Entry)
    ensures e.time == time && e.user == user && e.host == host
    ensures !e.IsValid()
    ensures e.(time := "", user := "", host := "") == Default
  {
    Default.(time := time, user := user, host := host)
  }

  /**
   * `s.parse::<u64>().unwrap_or(0)` on a captured run of digits: the decimal value,
   * or 0 when it does not fit in 64 bits (or the text is not a digit string).
   */
  function ParseU64(s: string): u64
  {
    if s != [] && AllDigits(s) && DecimalValue(s) < 0x1_0000_0000_0000_0000 then DecimalValue(s) as u64 else 0
  }

  /** `u64::to_string` followed by `parse::<u64>` gives the number back. */
  lemma ParseShowU64(n: u64)
    ensures ParseU64(ShowDecimal(n as nat)) == n
  {
    DecimalRoundTrip(n as nat);
  }

  /** A run of digits too large for 64 bits reads as 0 rather than failing. */
  lemma ParseU64Overflow(s: string)
    requires AllDigits(s) && |s| > 20 && s[0] != '0'
    ensures ParseU64(s) == 0
  {
    LeadingDigitBound(s);
    Pow10Grows(20, |s| - 1);
    Pow10Sum(5, 5);
    Pow10Sum(10, 10);
    assert Pow10(5) == 100_000;
  }

  /** A digit string without a leading zero is at least 10^(|s|-1). */
  lemma {:induction false} LeadingDigitBound(s: string)
    requires AllDigits(s) && s != [] && s[0] != '0'
    ensures DecimalValue(s) >= Pow10(|s| - 1)
  {
    if |s| > 1 {
      LeadingDigitBound(s[..|s| - 1]);
    }
  }

  function Pow10(k: nat): (p: nat)
    ensures p >= 1
  {
    if k == 0 then 1 else 10 * Pow10(k - 1)
  }

  lemma {:induction false} Pow10Sum(j: nat, k: nat)
    ensures Pow10(j + k) == Pow10(j) * Pow10(k)
    decreases k
  {
    if k > 0 {
      Pow10Sum(j, k - 1);
    }
  }

  lemma {:induction false} Pow10Grows(j: nat, k: nat)
    requires j <= k
    ensures Pow10(j) <= Pow10(k)
    decreases k
  {
    if j < k {
      Pow10Grows(j, k - 1);
    }
  }
}
