/**
 * The deliberately leaky string comparison of the signature server
 * (`insecureCompare` with its `cmpDigit` continuation).
 *
 * The comparison walks both strings from index 0. At each index it either
 * stops and calls the callback with its verdict, or delays and moves on to
 * the next index. Wall-clock time is not modelled: every delay is recorded
 * as a `Wait` event tagged with the mechanism that would have produced it
 * (a blocking busy-wait or a scheduled timer) and the index whose match it
 * follows; the callback is recorded as a final `Callback` event. The number
 * of `Wait` events is the timing signal an observer measures.
 */
module TimingCompare {

  /** How one delay step is carried out: spinning on the clock, or a timer. */
  datatype DelayKind = BusyWait | Scheduled

  /**
   * The `sleep` value the comparison receives: an integer number of
   * milliseconds, or the NaN that `parseInt` yields for non-numeric text.
   */
  datatype Sleep = Millis(ms: int) | NotANumber

  /** One observable step of a comparison. */
  datatype Event =
    | Wait(kind: DelayKind, digit: nat)
    | Callback(result: bool)

  /** The threshold below which a delay blocks instead of yielding. */
  const BusyWaitLimit: int := 50

  /**
   * The delay branch taken for a given `sleep`: `sleep < 50` spins, anything
   * else (including NaN, for which `<` is false) goes through `setTimeout`.
   */
  function KindOf(sleep: Sleep): (k: DelayKind)
    ensures k == BusyWait <==> sleep.Millis? && sleep.ms < BusyWaitLimit
  {
    match sleep
    case Millis(ms) => if ms < BusyWaitLimit then BusyWait else Scheduled
    case NotANumber => Scheduled
  }

  /**
   * The events produced by the continuation for index `digit`, in order.
   * It always ends in a call of the callback, after at most one delay per
   * index left in the shorter string.
   */
  function CmpDigit(a: string, b: string, sleep: Sleep, digit: nat): (t: seq<Event>)
    requires digit <= |a| && digit <= |b|
    ensures |t| >= 1 && t[|t| - 1].Callback?
    ensures digit + |t| - 1 <= |a| && digit + |t| - 1 <= |b|
    decreases |a| - digit
  {
    if digit == |a| && digit == |b| then
      [Callback(true)]
    else if digit == |a| || digit == |b| then
      [Callback(false)]
    else if a[digit] != b[digit] then
      [Callback(false)]
    else
      [Wait(KindOf(sleep), digit)] + CmpDigit(a, b, sleep, digit + 1)
  }

  /** The whole comparison: the continuation for index 0. */
  function InsecureCompare(a: string, b: string, sleep: Sleep): (t: seq<Event>)
    ensures |t| >= 1 && t[|t| - 1].Callback?
    ensures |t| - 1 <= |a| && |t| - 1 <= |b|
  {
    CmpDigit(a, b, sleep, 0)
  }

  /** The value the callback receives at the end of a comparison trace. */
  function Verdict(t: seq<Event>): bool
    requires |t| >= 1 && t[|t| - 1].Callback?
  {
    t[|t| - 1].result
  }

  /** The number of delay steps in a comparison trace. */
  function DelayCount(t: seq<Event>): nat
    requires |t| >= 1
  {
    |t| - 1
  }

  /**
   * Reference definition of the timing signal: the length of the longest
   * common prefix of two strings.
   */
  function CommonPrefix(a: string, b: string): (n: nat)
    ensures n <= |a| && n <= |b|
    ensures a[..n] == b[..n]
    ensures n < |a| && n < |b| ==> a[n] != b[n]
  {
    if a == [] || b == [] || a[0] != b[0] then
      0
    else
      var n := 1 + CommonPrefix(a[1..], b[1..]);
      assert a[..n] == [a[0]] + a[1..][..n - 1];
      assert b[..n] == [b[0]] + b[1..][..n - 1];
      n
  }

  /**
   * The continuation for index `digit` delays once per character of the
   * common prefix of the remaining suffixes, and reports whether those
   * suffixes are equal.
   */
  lemma {:induction false} CmpDigitMeasures(a: string, b: string, sleep: Sleep, digit: nat)
    requires digit <= |a| && digit <= |b|
    ensures DelayCount(CmpDigit(a, b, sleep, digit)) == CommonPrefix(a[digit..], b[digit..])
    ensures Verdict(CmpDigit(a, b, sleep, digit)) == (a[digit..] == b[digit..])
    decreases |a| - digit
  {
    if digit == |a| && digit == |b| {
    } else if digit == |a| || digit == |b| {
      assert |a[digit..]| != |b[digit..]|;
    } else if a[digit] != b[digit] {
      assert a[digit..][0] != b[digit..][0];
    } else {
      CmpDigitMeasures(a, b, sleep, digit + 1);
      assert a[digit..] == [a[digit]] + a[digit + 1..];
      assert b[digit..] == [b[digit]] + b[digit + 1..];
      assert a[digit..][1..] == a[digit + 1..];
      assert b[digit..][1..] == b[digit + 1..];
    }
  }

  /**
   * The callback is called once, as the last event: every earlier event is
   * a delay of the kind `sleep` selects, and the delays follow the indexes
   * in order, one per index, from `digit` on.
   */
  lemma {:induction false} CmpDigitDelaysInOrder(a: string, b: string, sleep: Sleep, digit: nat)
    requires digit <= |a| && digit <= |b|
    ensures forall i :: 0 <= i < |CmpDigit(a, b, sleep, digit)| - 1 ==>
      CmpDigit(a, b, sleep, digit)[i] == Wait(KindOf(sleep), digit + i)
    decreases |a| - digit
  {
    if digit < |a| && digit < |b| && a[digit] == b[digit] {
      CmpDigitDelaysInOrder(a, b, sleep, digit + 1);
      var t, rest := CmpDigit(a, b, sleep, digit), CmpDigit(a, b, sleep, digit + 1);
      assert t == [Wait(KindOf(sleep), digit)] + rest;
      forall i | 1 <= i < |t| - 1 ensures t[i] == Wait(KindOf(sleep), digit + i) {
        assert t[i] == rest[i - 1];
      }
    }
  }

  /**
   * Every event but the last call of the callback is a delay of the branch
   * `sleep` selects, taken at index 0, 1, 2, ... in turn.
   */
  lemma CompareDelaysInOrder(a: string, b: string, sleep: Sleep)
    ensures forall i :: 0 <= i < |InsecureCompare(a, b, sleep)| - 1 ==>
      InsecureCompare(a, b, sleep)[i] == Wait(KindOf(sleep), i)
  {
    CmpDigitDelaysInOrder(a, b, sleep, 0);
  }

  /** The callback receives `true` exactly when the two strings are equal. */
  lemma CompareIsExact(a: string, b: string, sleep: Sleep)
    ensures Verdict(InsecureCompare(a, b, sleep)) <==> |a| == |b| && forall i :: 0 <= i < |a| ==> a[i] == b[i]
  {
    CmpDigitMeasures(a, b, sleep, 0);
    assert a[0..] == a && b[0..] == b;
  }

  /**
   * The number of delay steps is the length of the longest common prefix,
   * and every delay step follows a match at the index it records.
   */
  lemma CompareLeaksPrefix(a: string, b: string, sleep: Sleep)
    ensures DelayCount(InsecureCompare(a, b, sleep)) == CommonPrefix(a, b)
    ensures forall i :: 0 <= i < DelayCount(InsecureCompare(a, b, sleep)) ==> a[i] == b[i]
  {
    CmpDigitMeasures(a, b, sleep, 0);
    assert a[0..] == a && b[0..] == b;
    var n := CommonPrefix(a, b);
    forall i | 0 <= i < n ensures a[i] == b[i] {
      assert a[..n][i] == b[..n][i];
    }
  }

  /** Comparing equal strings delays once per character, then succeeds. */
  lemma EqualStringsDelayFully(a: string, sleep: Sleep)
    ensures DelayCount(InsecureCompare(a, a, sleep)) == |a|
    ensures Verdict(InsecureCompare(a, a, sleep))
  {
    CompareLeaksPrefix(a, a, sleep);
    CompareIsExact(a, a, sleep);
  }

  /** A first-character mismatch calls back `false` at once, whatever `sleep` is. */
  lemma FirstMismatchHasNoDelay(a: string, b: string, sleep: Sleep)
    requires |a| > 0 && |b| > 0 && a[0] != b[0]
    ensures InsecureCompare(a, b, sleep) == [Callback(false)]
  {
  }

  /**
   * When one string is a proper prefix of the other, the comparison delays
   * once per character of the shorter one and then fails with no further
   * delay.
   */
  lemma ExhaustedStringStopsComparison(a: string, b: string, sleep: Sleep)
    requires |a| != |b|
    requires |a| < |b| ==> a == b[..|a|]
    requires |b| < |a| ==> b == a[..|b|]
    ensures DelayCount(InsecureCompare(a, b, sleep)) == if |a| < |b| then |a| else |b|
    ensures !Verdict(InsecureCompare(a, b, sleep))
  {
    CompareLeaksPrefix(a, b, sleep);
    CompareIsExact(a, b, sleep);
  }

  /** Neither the verdict nor the number of delays depends on `sleep`. */
  lemma SleepOnlyChoosesTheBranch(a: string, b: string, s1: Sleep, s2: Sleep)
    ensures Verdict(InsecureCompare(a, b, s1)) == Verdict(InsecureCompare(a, b, s2))
    ensures DelayCount(InsecureCompare(a, b, s1)) == DelayCount(InsecureCompare(a, b, s2))
  {
    CompareLeaksPrefix(a, b, s1);
    CompareLeaksPrefix(a, b, s2);
    CompareIsExact(a, b, s1);
    CompareIsExact(a, b, s2);
  }

  /**
   * The attack the leak permits: once a candidate agrees with the expected
   * string on its first `k` characters, a probe at index `k` delays more than
   * `k` times exactly when it guesses the expected character there.
   */
  lemma ProbeRevealsNextCharacter(expected: string, candidate: string, sleep: Sleep, k: nat)
    requires k < |expected| && k < |candidate|
    requires candidate[..k] == expected[..k]
    ensures DelayCount(InsecureCompare(expected, candidate, sleep)) > k <==> candidate[k] == expected[k]
    ensures candidate[k] != expected[k] ==> DelayCount(InsecureCompare(expected, candidate, sleep)) == k
  {
    CompareLeaksPrefix(expected, candidate, sleep);
    var n := CommonPrefix(expected, candidate);
    if n > k {
      assert expected[..n][k] == candidate[..n][k];
    }
  }

  /** One delay step of the continuation, as the loop below takes it. */
  lemma CmpDigitAdvances(a: string, b: string, sleep: Sleep, digit: nat, done: seq<Event>)
    requires digit < |a| && digit < |b| && a[digit] == b[digit]
    ensures done + CmpDigit(a, b, sleep, digit)
         == (done + [Wait(KindOf(sleep), digit)]) + CmpDigit(a, b, sleep, digit + 1)
  {
    var step, rest := [Wait(KindOf(sleep), digit)], CmpDigit(a, b, sleep, digit + 1);
    assert CmpDigit(a, b, sleep, digit) == step + rest;
    assert done + (step + rest) == (done + step) + rest;
  }

  /**
   * The delay taken after a match at index `digit`: a blocking spin on the
   * clock when `sleep < 50`, otherwise a timer that yields to other work.
   * This is the one executable copy of the threshold test; `KindOf` is its
   * specification, which the recursive definition and the lemmas use.
   */
  method Delay(sleep: Sleep, digit: nat) returns (e: Event)
    ensures e == Wait(KindOf(sleep), digit)
  {
    if sleep.Millis? && sleep.ms < BusyWaitLimit {
      e := Wait(BusyWait, digit);
    } else {
      e := Wait(Scheduled, digit);
    }
  }

  /**
   * The comparison as the running program performs it: a loop over the
   * index that records one delay per matching character, taking the
   * busy-wait or the timer branch on `sleep`, and stops at the first index
   * where a string is exhausted or the characters differ. It produces
   * exactly the events of the recursive definition.
   */
  method Compare(a: string, b: string, sleep: Sleep) returns (events: seq<Event>)
    ensures events == InsecureCompare(a, b, sleep)
  {
    var digit: nat := 0;
    events := [];
    assert events + CmpDigit(a, b, sleep, 0) == InsecureCompare(a, b, sleep);
    while digit < |a| && digit < |b| && a[digit] == b[digit]
      invariant digit <= |a| && digit <= |b|
      invariant events + CmpDigit(a, b, sleep, digit) == InsecureCompare(a, b, sleep)
      decreases |a| - digit
    {
      CmpDigitAdvances(a, b, sleep, digit, events);
      var delay := Delay(sleep, digit);
      events := events + [delay];
      digit := digit + 1;
    }
    if digit == |a| && digit == |b| {
      events := events + [Callback(true)];
    } else {
      // one string is exhausted, or the characters at `digit` differ
      events := events + [Callback(false)];
    }
  }
}
