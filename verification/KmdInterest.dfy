/**
 The active user reward of KMD: which outputs accrue it, from when, until when, and how much.
 */
module KmdInterest {
  import opened Wrappers

  datatype NotAccruedReason =
    | LocktimeNotSet
    | LocktimeLessThanThreshold
    | UtxoHeightGreaterThanEndOfEra
    | UtxoAmountLessThanTen
    | OneHourNotPassedYet
    | TransactionInMempool

  const KOMODO_ENDOFERA: nat := 7_777_777
  const LOCKTIME_THRESHOLD: nat := 500_000_000
  const N_S7_HARDFORK_HEIGHT: nat := 3_484_958
  const MINUTES_PER_YEAR: nat := 525_600
  const MINUTES_PER_AUR: nat := 20 * MINUTES_PER_YEAR
  const MINUTES_PER_MONTH: nat := 31 * 24 * 60
  const TEN_KMD: nat := 1_000_000_000
  const U64_LIMIT: nat := 0x1_0000_0000_0000_0000

  /** The minutes that count, at least 60 having passed. */
  function CountedMinutes(height: nat, passed: nat): nat
    requires passed >= 60
  {
    var capped := if passed > MINUTES_PER_YEAR then MINUTES_PER_YEAR else passed;
    (if height >= 1_000_000 && capped > MINUTES_PER_MONTH then MINUTES_PER_MONTH else capped) - 59
  }

  function Accrued(height: nat, value: nat, minutes: nat): nat {
    if height >= N_S7_HARDFORK_HEIGHT then (value / MINUTES_PER_AUR) * minutes / 500
    else (value / MINUTES_PER_AUR) * minutes
  }

  function Interest(height: Option<nat>, value: nat, lockTime: nat, currentTime: nat): Result<nat, NotAccruedReason> {
    if value < TEN_KMD then Err(UtxoAmountLessThanTen)
    else if lockTime == 0 then Err(LocktimeNotSet)
    else if lockTime < LOCKTIME_THRESHOLD then Err(LocktimeLessThanThreshold)
    else if height.None? then Err(TransactionInMempool)
    else if height.value >= KOMODO_ENDOFERA then Err(UtxoHeightGreaterThanEndOfEra)
    else if currentTime < lockTime then Err(OneHourNotPassedYet)
    else
      var minutes := (currentTime - lockTime) / 60;
      if minutes < 60 then Err(OneHourNotPassedYet)
      else Ok(Accrued(height.value, value, CountedMinutes(height.value, minutes)))
  }

  function AccrueStopAt(height: nat, lockTime: nat): nat {
    lockTime + if height < 1_000_000 then 365 * 24 * 60 * 60 else 31 * 24 * 60 * 60
  }

  function AccrueStartAt(lockTime: nat): nat { lockTime + 60 * 60 }

  // --- when it accrues -----------------------------------------------------------------------------

  ghost predicate Eligible(height: nat, value: nat, lockTime: nat) {
    value >= TEN_KMD && lockTime >= LOCKTIME_THRESHOLD && height < KOMODO_ENDOFERA
  }

  /** A mined output accrues at time `t` exactly when it is eligible and `t` is not before the start. */
  lemma AccruesIff(height: nat, value: nat, lockTime: nat, t: nat)
    ensures Interest(Some(height), value, lockTime, t).Ok? <==>
            Eligible(height, value, lockTime) && t >= AccrueStartAt(lockTime)
  {}

  /** Why an output accrues nothing: the first reason that applies. */
  lemma ReasonIsTheFirstThatApplies(height: Option<nat>, value: nat, lockTime: nat, t: nat, reason: NotAccruedReason)
    ensures Interest(height, value, lockTime, t) == Err(reason) <==>
            match reason
            case UtxoAmountLessThanTen => value < 1_000_000_000
            case LocktimeNotSet => value >= 1_000_000_000 && lockTime == 0
            case LocktimeLessThanThreshold => value >= 1_000_000_000 && 0 < lockTime < 500_000_000
            case TransactionInMempool => value >= 1_000_000_000 && lockTime >= 500_000_000 && height == None
            case UtxoHeightGreaterThanEndOfEra =>
              value >= 1_000_000_000 && lockTime >= 500_000_000 && height.Some? && height.value >= 7_777_777
            case OneHourNotPassedYet =>
              value >= 1_000_000_000 && lockTime >= 500_000_000 && height.Some? && height.value < 7_777_777 &&
              t < lockTime + 3600
  {}

  lemma ProductGrows(a: nat, m: nat, n: nat)
    requires m <= n
    ensures a * m <= a * n
    ensures a > 0 && m < n ==> a * m < a * n
  {
    assert a * n == a * m + a * (n - m);
    assert a > 0 && m < n ==> a * (n - m) > 0;
  }

  /** Waiting longer never costs anything. */
  lemma InterestIsMonotone(height: nat, value: nat, lockTime: nat, t: nat, u: nat)
    requires t <= u && Interest(Some(height), value, lockTime, t).Ok?
    ensures Interest(Some(height), value, lockTime, u).Ok?
    ensures Interest(Some(height), value, lockTime, t).value <= Interest(Some(height), value, lockTime, u).value
  {
    var m := CountedMinutes(height, (t - lockTime) / 60);
    var n := CountedMinutes(height, (u - lockTime) / 60);
    ProductGrows(value / MINUTES_PER_AUR, m, n);
  }

  /** From the stop time on the interest is constant. */
  lemma InterestIsConstantFromStop(height: nat, value: nat, lockTime: nat, t: nat)
    requires Eligible(height, value, lockTime) && t >= AccrueStopAt(height, lockTime)
    ensures Interest(Some(height), value, lockTime, t)
         == Interest(Some(height), value, lockTime, AccrueStopAt(height, lockTime))
    ensures Interest(Some(height), value, lockTime, t).Ok?
  {
    var cap := if height < 1_000_000 then MINUTES_PER_YEAR else MINUTES_PER_MONTH;
    assert (t - lockTime) / 60 >= cap;
    assert CountedMinutes(height, (t - lockTime) / 60) == cap - 59;
  }

  ghost predicate ConstantFrom(height: nat, value: nat, lockTime: nat, t: nat) {
    Interest(Some(height), value, lockTime, t).Ok? &&
    forall u :: u >= t ==> Interest(Some(height), value, lockTime, u) == Interest(Some(height), value, lockTime, t)
  }

  /** The last minute before the stop time changes the reward after the division by 500. */
  ghost predicate LastMinutePays(value: nat) {
    var q := value / MINUTES_PER_AUR;
    q * (MINUTES_PER_MONTH - 60) / 500 < q * (MINUTES_PER_MONTH - 59) / 500
  }

  /** The stop time is the least such time exactly before the Season 7 height, and from that height on
      for the values whose last minute pays. */
  lemma StopIsTheLeastConstantTimeIff(height: nat, value: nat, lockTime: nat)
    requires Eligible(height, value, lockTime)
    ensures (forall t: nat :: ConstantFrom(height, value, lockTime, t) <==> t >= AccrueStopAt(height, lockTime)) <==>
            (height < N_S7_HARDFORK_HEIGHT || LastMinutePays(value))
  {
    var stop := AccrueStopAt(height, lockTime);
    if height < N_S7_HARDFORK_HEIGHT || LastMinutePays(value) {
      forall t: nat ensures ConstantFrom(height, value, lockTime, t) <==> t >= stop {
        if t >= stop {
          ConstantFromStop(height, value, lockTime, t);
        } else if t >= AccrueStartAt(lockTime) {
          InterestStillGrows(height, value, lockTime, t);
          assert Interest(Some(height), value, lockTime, stop) != Interest(Some(height), value, lockTime, t);
        }
      }
    } else {
      ConstantOneMinuteEarlier(height, value, lockTime);
      assert ConstantFrom(height, value, lockTime, stop - 60) && !(stop - 60 >= stop);
    }
  }

  lemma ConstantFromStop(height: nat, value: nat, lockTime: nat, t: nat)
    requires Eligible(height, value, lockTime) && t >= AccrueStopAt(height, lockTime)
    ensures ConstantFrom(height, value, lockTime, t)
  {
    forall u: nat | u >= t
      ensures Interest(Some(height), value, lockTime, u) == Interest(Some(height), value, lockTime, t)
    {
      InterestIsConstantFromStop(height, value, lockTime, u);
      InterestIsConstantFromStop(height, value, lockTime, t);
    }
    InterestIsConstantFromStop(height, value, lockTime, t);
  }

  lemma InterestStillGrows(height: nat, value: nat, lockTime: nat, t: nat)
    requires Eligible(height, value, lockTime) && (height < N_S7_HARDFORK_HEIGHT || LastMinutePays(value))
    requires AccrueStartAt(lockTime) <= t < AccrueStopAt(height, lockTime)
    ensures Interest(Some(height), value, lockTime, t).Ok?
    ensures Interest(Some(height), value, lockTime, AccrueStopAt(height, lockTime)).Ok?
    ensures Interest(Some(height), value, lockTime, t).value <
            Interest(Some(height), value, lockTime, AccrueStopAt(height, lockTime)).value
  {
    var cap := if height < 1_000_000 then MINUTES_PER_YEAR else MINUTES_PER_MONTH;
    var m := (t - lockTime) / 60;
    assert (AccrueStopAt(height, lockTime) - lockTime) / 60 == cap && 60 <= m < cap;
    assert CountedMinutes(height, m) == m - 59 && CountedMinutes(height, cap) == cap - 59;
    ProductGrows(value / MINUTES_PER_AUR, m - 59, cap - 60);
    ProductGrows(value / MINUTES_PER_AUR, m - 59, cap - 59);
  }

  lemma ConstantOneMinuteEarlier(height: nat, value: nat, lockTime: nat)
    requires Eligible(height, value, lockTime) && height >= N_S7_HARDFORK_HEIGHT && !LastMinutePays(value)
    ensures ConstantFrom(height, value, lockTime, AccrueStopAt(height, lockTime) - 60)
  {
    var stop := AccrueStopAt(height, lockTime);
    ProductGrows(value / MINUTES_PER_AUR, MINUTES_PER_MONTH - 60, MINUTES_PER_MONTH - 59);
    assert Interest(Some(height), value, lockTime, stop - 60) == Interest(Some(height), value, lockTime, stop) by {
      assert CountedMinutes(height, (stop - lockTime) / 60) == MINUTES_PER_MONTH - 59;
      assert CountedMinutes(height, (stop - 60 - lockTime) / 60) == MINUTES_PER_MONTH - 60;
    }
    forall u: nat | u >= stop - 60
      ensures Interest(Some(height), value, lockTime, u) == Interest(Some(height), value, lockTime, stop - 60)
    {
      if u >= stop {
        InterestIsConstantFromStop(height, value, lockTime, u);
      } else {
        InterestIsMonotone(height, value, lockTime, stop - 60, u);
        InterestIsMonotone(height, value, lockTime, u, stop);
      }
    }
  }

  /** An output of ten KMD is a case where it is constant earlier. */
  lemma StopIsNotAlwaysTheLeastAfterS7()
    ensures var lock, stop := 1_700_000_000, AccrueStopAt(N_S7_HARDFORK_HEIGHT, 1_700_000_000);
            && Interest(Some(N_S7_HARDFORK_HEIGHT), TEN_KMD, lock, stop - 60)
               == Interest(Some(N_S7_HARDFORK_HEIGHT), TEN_KMD, lock, stop) == Ok(8470)
            && ConstantFrom(N_S7_HARDFORK_HEIGHT, TEN_KMD, lock, stop - 60)
  {
    ConstantOneMinuteEarlier(N_S7_HARDFORK_HEIGHT, TEN_KMD, 1_700_000_000);
  }

  /** From that height on every output of at least 52.56 KMD grows up to the stop time. */
  lemma LargeOutputsGrowToTheStop(value: nat)
    requires value >= 500 * MINUTES_PER_AUR
    ensures LastMinutePays(value)
  {
    var q := value / MINUTES_PER_AUR;
    assert q >= 500;
    assert q * (MINUTES_PER_MONTH - 59) == q * (MINUTES_PER_MONTH - 60) + q;
    NextQuotient(q * (MINUTES_PER_MONTH - 60), q);
  }

  lemma NextQuotient(n: nat, step: nat)
    requires step >= 500
    ensures n / 500 < (n + step) / 500
  {}

  // --- how much ------------------------------------------------------------------------------------

  /** The reward is at most five percent of a 64-bit value, and no step leaves 64 bits; the result
      can be read as a signed number. */
  lemma InterestIsBounded(height: nat, value: nat, lockTime: nat, t: nat)
    requires value < U64_LIMIT && Interest(Some(height), value, lockTime, t).Ok?
    ensures 20 * Interest(Some(height), value, lockTime, t).value <= value
    ensures (value / MINUTES_PER_AUR) * CountedMinutes(height, (t - lockTime) / 60) < U64_LIMIT
    ensures Interest(Some(height), value, lockTime, t).value < U64_LIMIT / 2
  {
    var q, m := value / MINUTES_PER_AUR, CountedMinutes(height, (t - lockTime) / 60);
    assert m <= MINUTES_PER_YEAR;
    ProductGrows(q, m, MINUTES_PER_YEAR);
    assert 20 * (q * MINUTES_PER_YEAR) == q * MINUTES_PER_AUR <= value;
  }

  /** The rate: five percent of the value for a full year, proportional to the counted minutes, up to
      rounding the value down to a multiple of the yearly minutes; a 500th of it from Season 7 on. */
  lemma InterestIsTheYearlyRate(height: nat, value: nat, lockTime: nat, t: nat)
    requires Interest(Some(height), value, lockTime, t).Ok?
    ensures var m := CountedMinutes(height, (t - lockTime) / 60);
            var interest := Interest(Some(height), value, lockTime, t).value;
            if height < N_S7_HARDFORK_HEIGHT
            then interest * MINUTES_PER_AUR <= value * m < (interest + m) * MINUTES_PER_AUR
            else 500 * interest * MINUTES_PER_AUR <= value * m < (500 * (interest + 1) + m) * MINUTES_PER_AUR
  {
    var q, m := value / MINUTES_PER_AUR, CountedMinutes(height, (t - lockTime) / 60);
    assert q * MINUTES_PER_AUR <= value < (q + 1) * MINUTES_PER_AUR;
    Proportional(q, MINUTES_PER_AUR, value, m);
  }

  /** The amount, written out: every whole minute from the sixtieth on pays, up to a year below height
      1,000,000 and up to 31 days from it on; one such minute pays the value divided by the minutes of twenty
      years. */
  lemma InterestIsExact(height: nat, value: nat, lockTime: nat, t: nat)
    requires Interest(Some(height), value, lockTime, t).Ok?
    ensures var passed := (t - lockTime) / 60;
            var cap := if height < 1_000_000 then 365 * 24 * 60 else 31 * 24 * 60;
            var paid := (if passed < cap then passed else cap) - 59;
            Interest(Some(height), value, lockTime, t).value ==
            if height < 3_484_958 then value / (20 * 525_600) * paid else value / (20 * 525_600) * paid / 500
  {}

  /** At the start time exactly one minute is paid. */
  lemma OneMinuteIsPaidAtTheStart(height: nat, value: nat, lockTime: nat)
    requires Eligible(height, value, lockTime)
    ensures Interest(Some(height), value, lockTime, AccrueStartAt(lockTime)) ==
            Ok(if height < 3_484_958 then value / (20 * 525_600) else value / (20 * 525_600) / 500)
  {
    InterestIsExact(height, value, lockTime, AccrueStartAt(lockTime));
  }

  lemma Proportional(q: nat, p: nat, value: nat, m: nat)
    requires q * p <= value < (q + 1) * p && m > 0
    ensures (q * m) * p <= value * m < (q * m + m) * p
  {
    assert (q * p) * m <= value * m < ((q + 1) * p) * m;
    assert (q * p) * m == (q * m) * p && ((q + 1) * p) * m == (q * m + m) * p;
  }

  // --- what is reported -----------------------------------------------------------------------------

  /** The start and stop times of `kmd_rewards_info`. */
  function AccrueTimes(height: Option<nat>, value: nat, lockTime: nat, currentTime: nat): (Option<nat>, Option<nat>) {
    match Interest(height, value, lockTime, currentTime)
    case Ok(_) => (Some(AccrueStartAt(lockTime)), StopAt(height, lockTime))
    case Err(TransactionInMempool) => (Some(AccrueStartAt(lockTime)), StopAt(height, lockTime))
    case Err(OneHourNotPassedYet) => (Some(AccrueStartAt(lockTime)), StopAt(height, lockTime))
    case Err(_) => (None, None)
  }

  function StopAt(height: Option<nat>, lockTime: nat): Option<nat> {
    if height.Some? then Some(AccrueStopAt(height.value, lockTime)) else None
  }

  /** The reported times of a mined output: it accrues at the start and not before, and from the stop on the
      reward is constant; the stop is a year or 31 days after the lock time. */
  lemma ReportedTimesAreRight(height: nat, value: nat, lockTime: nat, now: nat)
    requires AccrueTimes(Some(height), value, lockTime, now).0.Some?
    ensures var (start, stop) := AccrueTimes(Some(height), value, lockTime, now);
            && (forall t: nat :: Interest(Some(height), value, lockTime, t).Ok? <==> t >= start.value)
            && stop == Some(lockTime + (if height < 1_000_000 then 31_536_000 else 2_678_400))
            && ConstantFrom(height, value, lockTime, stop.value)
  {
    assert Eligible(height, value, lockTime);
    forall t: nat ensures Interest(Some(height), value, lockTime, t).Ok? <==> t >= AccrueStartAt(lockTime) {
      AccruesIff(height, value, lockTime, t);
    }
    ConstantFromStop(height, value, lockTime, AccrueStopAt(height, lockTime));
  }

  /** A start time is reported exactly if the output accrues at some time: at its own height if it
      is mined, at some height otherwise. It is then the first such time. */
  lemma StartIsReportedIffItEverAccrues(height: Option<nat>, value: nat, lockTime: nat, now: nat)
    ensures AccrueTimes(height, value, lockTime, now).0.Some? <==>
            exists h, t :: (height.Some? ==> h == height.value) && Interest(Some(h), value, lockTime, t).Ok?
    ensures forall start :: AccrueTimes(height, value, lockTime, now).0 == Some(start) ==>
              && Interest(Some(if height.Some? then height.value else 0), value, lockTime, start).Ok?
              && forall h, t :: Interest(Some(h), value, lockTime, t).Ok? ==> t >= start
    ensures AccrueTimes(height, value, lockTime, now).1.Some? <==>
            AccrueTimes(height, value, lockTime, now).0.Some? && height.Some?
  {
    if AccrueTimes(height, value, lockTime, now).0.Some? {
      var h := if height.Some? then height.value else 0;
      AccruesIff(h, value, lockTime, AccrueStartAt(lockTime));
    }
    forall h: nat, t: nat | Interest(Some(h), value, lockTime, t).Ok?
      ensures Eligible(h, value, lockTime) && t >= AccrueStartAt(lockTime)
    {
      AccruesIff(h, value, lockTime, t);
    }
  }
}
