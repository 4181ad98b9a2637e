/**
 * Verification attempts and the trailing-window filter over them: the pure
 * part of the cache service (`getRecentAttempts` and the filters that count
 * failed and successful attempts).
 */
module AttemptWindow {
  import opened Wrappers

  /** One verification attempt: when it happened (milliseconds), whether it succeeded, and the token and page it carried. */
  datatype Attempt = Attempt(timestamp: int, success: bool, token: Option<string>, page: Option<string>)

  /** The `60 * 1000` factor the service uses to turn minutes into milliseconds. */
  const MillisPerMinute: int := 60 * 1000

  /** `attempts.filter(a => a.timestamp >= cutoff)`: the attempts stamped at or after `cutoff`, in their original order. */
  function KeepSince(attempts: seq<Attempt>, cutoff: int): (kept: seq<Attempt>)
    ensures |kept| <= |attempts|
    ensures forall a :: a in kept <==> a in attempts && a.timestamp >= cutoff
    decreases |attempts|
  {
    if attempts == [] then []
    else
      var init := attempts[..|attempts| - 1];
      var last := attempts[|attempts| - 1];
      assert attempts == init + [last];
      var rest := KeepSince(init, cutoff);
      if last.timestamp >= cutoff then rest + [last] else rest
  }

  /** `attempts.filter(a => !a.success).length`. */
  function FailedCount(attempts: seq<Attempt>): (n: nat)
    ensures n <= |attempts|
    decreases |attempts|
  {
    if attempts == [] then 0
    else FailedCount(attempts[..|attempts| - 1]) + (if attempts[|attempts| - 1].success then 0 else 1)
  }

  /** `attempts.filter(a => a.success).length`. */
  function SucceededCount(attempts: seq<Attempt>): (n: nat)
    ensures n <= |attempts|
    decreases |attempts|
  {
    if attempts == [] then 0
    else SucceededCount(attempts[..|attempts| - 1]) + (if attempts[|attempts| - 1].success then 1 else 0)
  }

  /** Every attempt is either failed or successful: the two counts add up to the length. */
  lemma {:induction false} CountsPartition(attempts: seq<Attempt>)
    ensures FailedCount(attempts) + SucceededCount(attempts) == |attempts|
    decreases |attempts|
  {
    if attempts != [] {
      CountsPartition(attempts[..|attempts| - 1]);
    }
  }

  /** Appending one attempt: the filter keeps it exactly when it is recent enough, after the earlier ones. */
  lemma KeepSinceAppend(attempts: seq<Attempt>, a: Attempt, cutoff: int)
    ensures KeepSince(attempts + [a], cutoff)
         == KeepSince(attempts, cutoff) + (if a.timestamp >= cutoff then [a] else [])
  {
    assert (attempts + [a])[..|attempts|] == attempts;
  }

  /** The filter preserves order: filtering a concatenation is concatenating the filtered halves. */
  lemma {:induction false} KeepSinceConcat(xs: seq<Attempt>, ys: seq<Attempt>, cutoff: int)
    ensures KeepSince(xs + ys, cutoff) == KeepSince(xs, cutoff) + KeepSince(ys, cutoff)
    decreases |ys|
  {
    if ys == [] {
      assert xs + ys == xs;
    } else {
      var init := ys[..|ys| - 1];
      var last := ys[|ys| - 1];
      assert ys == init + [last];
      assert xs + ys == (xs + init) + [last];
      KeepSinceConcat(xs, init, cutoff);
      KeepSinceAppend(xs + init, last, cutoff);
      KeepSinceAppend(init, last, cutoff);
    }
  }

  /** Filtering with a cutoff no attempt falls below changes nothing. */
  lemma {:induction false} KeepSinceAllKept(attempts: seq<Attempt>, cutoff: int)
    requires forall i :: 0 <= i < |attempts| ==> attempts[i].timestamp >= cutoff
    ensures KeepSince(attempts, cutoff) == attempts
    decreases |attempts|
  {
    if attempts != [] {
      var init := attempts[..|attempts| - 1];
      assert forall i :: 0 <= i < |init| ==> init[i] == attempts[i];
      KeepSinceAllKept(init, cutoff);
      assert attempts == init + [attempts[|attempts| - 1]];
    }
  }

  /** Filtering with a later cutoff after an earlier one is the same as filtering with the later one alone. */
  lemma {:induction false} KeepSinceNarrow(attempts: seq<Attempt>, early: int, late: int)
    requires early <= late
    ensures KeepSince(KeepSince(attempts, early), late) == KeepSince(attempts, late)
    decreases |attempts|
  {
    if attempts != [] {
      var init := attempts[..|attempts| - 1];
      var last := attempts[|attempts| - 1];
      KeepSinceNarrow(init, early, late);
      if last.timestamp >= early {
        KeepSinceAppend(KeepSince(init, early), last, late);
      }
    }
  }

  /** The failed count of a concatenation adds up. */
  lemma {:induction false} FailedCountConcat(xs: seq<Attempt>, ys: seq<Attempt>)
    ensures FailedCount(xs + ys) == FailedCount(xs) + FailedCount(ys)
    decreases |ys|
  {
    if ys == [] {
      assert xs + ys == xs;
    } else {
      var init := ys[..|ys| - 1];
      assert ys == init + [ys[|ys| - 1]];
      assert (xs + ys)[..|xs + ys| - 1] == xs + init;
      FailedCountConcat(xs, init);
    }
  }
}
