/**
 The backward search of the cron library (`cron_prev` in src/job_scheduler/croncpp.h). The forward
 search `cron_next` is a parameter; nothing is assumed of it unless a contract is named.
 */
module CronPrev {
  import opened Bytes

  const INVALID_TIME: i64 := -1
  const MIN_TIME: i64 := -0x8000_0000_0000_0000

  /** The intervals tried: a minute, an hour, a day, a month, a year, four years. */
  const WINDOWS: seq<i64> := [60, 3600, 86400, 31 * 86400, 366 * 86400, 4 * 366 * 86400]
  const HORIZON: i64 := 4 * 366 * 86400

  /** How many halvings bring an interval of each size down to one second. */
  const HALVINGS: seq<nat> := [6, 12, 17, 22, 25, 27]

  lemma HalvingsSuffice(i: nat)
    requires i < |WINDOWS|
    ensures 1 < WINDOWS[i] <= Pow2(HALVINGS[i]) && WINDOWS[i] <= HORIZON
    ensures i + 1 + HALVINGS[i] + 1 <= 34
  {
    Pow2Seven(0);
    Pow2Seven(5);
    Pow2Seven(8);
    Pow2Seven(10);
    Pow2Seven(13);
    Pow2Seven(15);
    Pow2Seven(18);
    Pow2Seven(20);
    assert Pow2(2) == 4 && Pow2(4) == 16 && Pow2(5) == 32 && Pow2(6) == 64;
    assert Pow2(8) == 2 * Pow2(7) && Pow2(10) == 8 * Pow2(7);
    assert Pow2(13) == 2 * Pow2(12) && Pow2(18) == 2 * Pow2(17);
  }

  /**
   What the forward search promises: the least occurrence strictly later, and INVALID_TIME only
   if there is none within the four-year horizon.
   */
  ghost predicate Faithful(next: i64 -> i64, occurs: i64 -> bool) {
    forall t: i64 :: FaithfulAt(next, occurs, t)
  }

  ghost predicate FaithfulAt(next: i64 -> i64, occurs: i64 -> bool, t: i64) {
    || (t < next(t) && occurs(next(t)) && forall u: i64 | t < u < next(t) :: !occurs(u))
    || (next(t) == INVALID_TIME && forall u: i64 | t < u <= t + HORIZON :: !occurs(u))
  }

  /** The furthest instant the search looks back to: the largest window that stays in range. */
  function Earliest(date: i64): (e: i64)
    ensures e <= date
  {
    if date - WINDOWS[5] >= MIN_TIME then date - WINDOWS[5]
    else if date - WINDOWS[4] >= MIN_TIME then date - WINDOWS[4]
    else if date - WINDOWS[3] >= MIN_TIME then date - WINDOWS[3]
    else if date - WINDOWS[2] >= MIN_TIME then date - WINDOWS[2]
    else if date - WINDOWS[1] >= MIN_TIME then date - WINDOWS[1]
    else if date - WINDOWS[0] >= MIN_TIME then date - WINDOWS[0]
    else date
  }

  /** `r` is the greatest occurrence in reach before `date`, or INVALID_TIME if there is none. */
  ghost predicate Right(occurs: i64 -> bool, date: i64, r: i64) {
    || (r != INVALID_TIME && Earliest(date) < r < date && occurs(r) && forall u: i64 | r < u < date :: !occurs(u))
    || (r == INVALID_TIME && forall u: i64 | Earliest(date) < u < date :: !occurs(u))
  }

  /** The test of the search: the next occurrence is still earlier than `date`. */
  predicate Before(next: i64 -> i64, date: i64, t: i64) {
    next(t) != INVALID_TIME && next(t) < date
  }

  /** The window stays within the range of times. */
  predicate InRange(date: i64, i: nat)
    requires i < |WINDOWS|
  {
    date - WINDOWS[i] >= MIN_TIME
  }

  // ---------- what the search computes ----------

  /** A window that stays in range and holds an occurrence, as far as the test can tell. */
  predicate Passes(next: i64 -> i64, date: i64, i: nat)
    requires i < |WINDOWS|
  {
    InRange(date, i) && Before(next, date, date - WINDOWS[i])
  }

  /** The first window that passes, or their number. */
  function Chosen(next: i64 -> i64, date: i64): nat {
    if Passes(next, date, 0) then 0
    else if Passes(next, date, 1) then 1
    else if Passes(next, date, 2) then 2
    else if Passes(next, date, 3) then 3
    else if Passes(next, date, 4) then 4
    else if Passes(next, date, 5) then 5
    else 6
  }

  lemma ChosenIsFirst(next: i64 -> i64, date: i64)
    ensures Chosen(next, date) <= |WINDOWS|
    ensures forall j | 0 <= j < Chosen(next, date) :: !Passes(next, date, j)
    ensures Chosen(next, date) < |WINDOWS| ==> Passes(next, date, Chosen(next, date))
  {
  }

  lemma FirstIsChosen(next: i64 -> i64, date: i64, i: nat)
    requires i <= |WINDOWS| && (i < |WINDOWS| ==> Passes(next, date, i))
    requires forall j | 0 <= j < i :: !Passes(next, date, j)
    ensures i == Chosen(next, date)
  {
    ChosenIsFirst(next, date);
  }

  /** The instant between two others at which the halving asks. */
  function Middle(low: i64, high: i64): (m: i64)
    requires high - low > 1
    ensures low < m < high
  {
    low + (high - low) / 2
  }

  function BisectFrom(next: i64 -> i64, date: i64, low: i64, high: i64): (r: i64)
    requires low < high
    ensures low <= r < high && (Before(next, date, low) ==> Before(next, date, r))
    decreases high - low
  {
    if high - low <= 1 then low
    else
      var middle := Middle(low, high);
      if Before(next, date, middle) then BisectFrom(next, date, middle, high)
      else BisectFrom(next, date, low, middle)
  }

  /** The result of `cron_prev`. */
  function Prev(next: i64 -> i64, date: i64): i64 {
    var i := Chosen(next, date);
    if i == |WINDOWS| then INVALID_TIME
    else
      var low := BisectFrom(next, date, date - WINDOWS[i], date);
      if Before(next, date, low) then next(low) else INVALID_TIME
  }

  // ---------- when it is right ----------

  /**
   The answer for `t` is -1 because something occurs at that very time, yet it reads as "none",
   and something occurs after it and before `date`.
   */
  predicate Blind(next: i64 -> i64, date: i64, t: i64) {
    t < INVALID_TIME && next(t) == INVALID_TIME && Before(next, date, INVALID_TIME)
  }

  /** The halving asks about no blind instant. */
  predicate Unblinded(next: i64 -> i64, date: i64, low: i64, high: i64)
    requires low < high
    decreases high - low
  {
    high - low <= 1 ||
    var middle := Middle(low, high);
    && !Blind(next, date, middle)
    && if Before(next, date, middle) then Unblinded(next, date, middle, high) else Unblinded(next, date, low, middle)
  }

  /** Neither the window that decides nor the halving of it is misled by a blind instant. */
  predicate Clear(next: i64 -> i64, date: i64) {
    var i := Chosen(next, date);
    if i == |WINDOWS| then !Blind(next, date, Earliest(date))
    else Unblinded(next, date, date - WINDOWS[i], date)
  }

  /** The last occurrence in reach is at -1, which no result can express. */
  predicate Hidden(next: i64 -> i64, occurs: i64 -> bool, date: i64) {
    occurs(INVALID_TIME) && Earliest(date) < INVALID_TIME < date && !Before(next, date, INVALID_TIME)
  }

  /** Nothing occurs strictly between the two times. */
  ghost predicate Quiet(occurs: i64 -> bool, low: int, high: int) {
    forall u: i64 | low < u < high :: !occurs(u)
  }

  lemma WindowInReach(date: i64, i: nat)
    requires i < |WINDOWS| && InRange(date, i)
    ensures Earliest(date) <= date - WINDOWS[i] < date && date - Earliest(date) <= HORIZON
  {
    HalvingsSuffice(i);
  }

  lemma EarliestIsWindow(date: i64)
    requires Earliest(date) < date
    ensures exists j :: 0 <= j < |WINDOWS| && InRange(date, j) && Earliest(date) == date - WINDOWS[j]
  {
    var starts := [date - WINDOWS[0], date - WINDOWS[1], date - WINDOWS[2],
                   date - WINDOWS[3], date - WINDOWS[4], date - WINDOWS[5]];
    assert Earliest(date) in starts;
    var j :| 0 <= j < |starts| && starts[j] == Earliest(date);
    assert InRange(date, j);
  }

  lemma ReachIsShort(date: i64)
    ensures date - Earliest(date) <= HORIZON
  {
  }

  lemma BeforeFinds(next: i64 -> i64, occurs: i64 -> bool, date: i64, t: i64)
    requires Faithful(next, occurs) && Before(next, date, t)
    ensures t < next(t) && occurs(next(t)) && Quiet(occurs, t, next(t))
  {
    assert FaithfulAt(next, occurs, t);
  }

  lemma BlindHides(next: i64 -> i64, occurs: i64 -> bool, date: i64, t: i64)
    requires Faithful(next, occurs) && date - t <= HORIZON && Blind(next, date, t)
    ensures occurs(INVALID_TIME) && Quiet(occurs, t, INVALID_TIME)
    ensures INVALID_TIME < next(INVALID_TIME) < date && occurs(next(INVALID_TIME))
  {
    assert FaithfulAt(next, occurs, t);
    BeforeFinds(next, occurs, date, INVALID_TIME);
  }

  /** A failed test means that nothing is left, unless it is the fault of an occurrence at -1. */
  lemma FailedTest(next: i64 -> i64, occurs: i64 -> bool, date: i64, t: i64)
    requires Faithful(next, occurs) && !Hidden(next, occurs, date) && Earliest(date) <= t < date
    requires Fails(next, date, t)
    ensures Quiet(occurs, t, date)
  {
    ReachIsShort(date);
    assert FaithfulAt(next, occurs, t);
    assert FaithfulAt(next, occurs, INVALID_TIME);
  }

  /** A failed test that can be trusted. */
  predicate Fails(next: i64 -> i64, date: i64, t: i64) {
    !Before(next, date, t) && !Blind(next, date, t)
  }

  lemma {:induction false} BisectLands(next: i64 -> i64, date: i64, low: i64, high: i64)
    requires low < high <= date && Unblinded(next, date, low, high)
    requires high < date ==> Fails(next, date, high)
    ensures
      var r := BisectFrom(next, date, low, high);
      r + 1 < date ==> Fails(next, date, r + 1)
    decreases high - low
  {
    if high - low > 1 {
      var middle := Middle(low, high);
      BisectStep(next, date, low, high);
      if Before(next, date, middle) {
        BisectLands(next, date, middle, high);
      } else {
        assert Fails(next, date, middle);
        BisectLands(next, date, low, middle);
      }
    }
  }

  lemma NoWindowIsRight(next: i64 -> i64, occurs: i64 -> bool, date: i64)
    requires Faithful(next, occurs) && !Hidden(next, occurs, date)
    requires Chosen(next, date) == |WINDOWS| && !Blind(next, date, Earliest(date))
    ensures Right(occurs, date, INVALID_TIME)
  {
    ChosenIsFirst(next, date);
    if Earliest(date) < date {
      EarliestIsWindow(date);
      FailedTest(next, occurs, date, Earliest(date));
    }
  }

  lemma WindowIsRight(next: i64 -> i64, occurs: i64 -> bool, date: i64, start: i64, low: i64)
    requires Faithful(next, occurs) && !Hidden(next, occurs, date) && Earliest(date) <= start < date
    requires Before(next, date, start) && Unblinded(next, date, start, date)
    requires low == BisectFrom(next, date, start, date)
    ensures Before(next, date, low) && Right(occurs, date, next(low))
  {
    BisectLands(next, date, start, date);
    LastIsRight(next, occurs, date, low);
  }

  lemma ClearIsRight(next: i64 -> i64, occurs: i64 -> bool, date: i64)
    requires Faithful(next, occurs) && !Hidden(next, occurs, date) && Clear(next, date)
    ensures Right(occurs, date, Prev(next, date))
  {
    var i := Chosen(next, date);
    ChosenIsFirst(next, date);
    if i == |WINDOWS| {
      NoWindowIsRight(next, occurs, date);
    } else {
      var start := date - WINDOWS[i];
      WindowInReach(date, i);
      WindowIsRight(next, occurs, date, start, BisectFrom(next, date, start, date));
    }
  }

  lemma LastIsRight(next: i64 -> i64, occurs: i64 -> bool, date: i64, low: i64)
    requires Faithful(next, occurs) && !Hidden(next, occurs, date) && Earliest(date) <= low < date
    requires Before(next, date, low)
    requires low + 1 < date ==> Fails(next, date, low + 1)
    ensures Right(occurs, date, next(low))
  {
    BeforeFinds(next, occurs, date, low);
    if low + 1 < date {
      FailedTest(next, occurs, date, low + 1);
    }
  }

  /** A blind instant in the halving: the result stays below it. */
  lemma {:induction false} BisectMisled(next: i64 -> i64, date: i64, low: i64, high: i64) returns (m: i64)
    requires low < high && Before(next, date, low) && !Unblinded(next, date, low, high)
    ensures low < m < high && Blind(next, date, m) && BisectFrom(next, date, low, high) < m
    decreases high - low
  {
    m := Middle(low, high);
    if !Blind(next, date, m) {
      if Before(next, date, m) {
        m := BisectMisled(next, date, m, high);
      } else {
        m := BisectMisled(next, date, low, m);
      }
    }
  }

  lemma WindowIsWrong(next: i64 -> i64, occurs: i64 -> bool, date: i64, start: i64, low: i64)
    requires Faithful(next, occurs) && Earliest(date) <= start < date
    requires Before(next, date, start) && !Unblinded(next, date, start, date)
    requires low == BisectFrom(next, date, start, date)
    ensures Before(next, date, low) && !Right(occurs, date, next(low))
  {
    ReachIsShort(date);
    var m := BisectMisled(next, date, start, date);
    BlindHides(next, occurs, date, m);
    BeforeFinds(next, occurs, date, low);
  }

  lemma MisledIsWrong(next: i64 -> i64, occurs: i64 -> bool, date: i64)
    requires Faithful(next, occurs) && !Clear(next, date)
    ensures !Right(occurs, date, Prev(next, date))
  {
    var i := Chosen(next, date);
    ChosenIsFirst(next, date);
    if i == |WINDOWS| {
      ReachIsShort(date);
      BlindHides(next, occurs, date, Earliest(date));
    } else {
      var start := date - WINDOWS[i];
      WindowInReach(date, i);
      WindowIsWrong(next, occurs, date, start, BisectFrom(next, date, start, date));
    }
  }

  lemma HiddenIsWrong(next: i64 -> i64, occurs: i64 -> bool, date: i64, r: i64)
    requires Faithful(next, occurs) && Hidden(next, occurs, date)
    ensures !Right(occurs, date, r)
  {
    ReachIsShort(date);
    assert FaithfulAt(next, occurs, INVALID_TIME);
    assert Quiet(occurs, INVALID_TIME, date);
  }

  /**
   For every date: the result is the greatest earlier occurrence in reach, or INVALID_TIME if
   there is none, exactly if the last occurrence is not at -1 and no blind instant misleads the search.
   */
  lemma RightIff(next: i64 -> i64, occurs: i64 -> bool, date: i64)
    requires Faithful(next, occurs)
    ensures Right(occurs, date, Prev(next, date)) <==> !Hidden(next, occurs, date) && Clear(next, date)
  {
    if Hidden(next, occurs, date) {
      HiddenIsWrong(next, occurs, date, Prev(next, date));
    } else if Clear(next, date) {
      ClearIsRight(next, occurs, date);
    } else {
      MisledIsWrong(next, occurs, date);
    }
  }

  // ---------- consequences ----------

  lemma {:induction false} LateIsUnblinded(next: i64 -> i64, date: i64, low: i64, high: i64)
    requires INVALID_TIME <= low < high
    ensures Unblinded(next, date, low, high)
    decreases high - low
  {
    if high - low > 1 {
      var middle := Middle(low, high);
      LateIsUnblinded(next, date, middle, high);
      LateIsUnblinded(next, date, low, middle);
    }
  }

  lemma LaterIsNotHidden(next: i64 -> i64, occurs: i64 -> bool, date: i64, u: i64)
    requires Faithful(next, occurs) && INVALID_TIME < u < date && occurs(u)
    ensures !Hidden(next, occurs, date)
  {
    ReachIsShort(date);
    assert FaithfulAt(next, occurs, INVALID_TIME);
  }

  lemma OccurrencePasses(next: i64 -> i64, occurs: i64 -> bool, date: i64, j: nat, u: i64)
    requires Faithful(next, occurs) && j < |WINDOWS| && InRange(date, j)
    requires INVALID_TIME <= date - WINDOWS[j] < u < date && occurs(u)
    ensures Passes(next, date, j)
  {
    WindowInReach(date, j);
    assert FaithfulAt(next, occurs, date - WINDOWS[j]);
  }

  /** The result is right whenever a window that starts at -1 or later holds an occurrence. */
  lemma LateWindowIsRight(next: i64 -> i64, occurs: i64 -> bool, date: i64, j: nat, u: i64)
    requires Faithful(next, occurs) && j < |WINDOWS| && InRange(date, j)
    requires INVALID_TIME <= date - WINDOWS[j] < u < date && occurs(u)
    ensures Right(occurs, date, Prev(next, date))
  {
    OccurrencePasses(next, occurs, date, j, u);
    ChosenIsFirst(next, date);
    var i := Chosen(next, date);
    WindowsGrow(i, j);
    LateIsUnblinded(next, date, date - WINDOWS[i], date);
    LaterIsNotHidden(next, occurs, date, u);
    RightIff(next, occurs, date);
  }

  lemma WindowsGrow(i: nat, j: nat)
    requires i <= j < |WINDOWS|
    ensures WINDOWS[i] <= WINDOWS[j]
  {
  }

  /**
   The result is INVALID_TIME, and wrong, whenever something occurs after -1 in reach but every
   window answers with -1 or with a time that is not before the date.
   */
  lemma BlindWindowsFail(next: i64 -> i64, occurs: i64 -> bool, date: i64, u: i64)
    requires Earliest(date) < u < date && INVALID_TIME < u && occurs(u)
    requires forall j | 0 <= j < |WINDOWS| :: !Passes(next, date, j)
    ensures Prev(next, date) == INVALID_TIME && !Right(occurs, date, Prev(next, date))
  {
    ChosenIsFirst(next, date);
  }

  lemma {:induction false} NeverBlind(next: i64 -> i64, occurs: i64 -> bool, date: i64, low: i64, high: i64)
    requires Faithful(next, occurs) && !occurs(INVALID_TIME) && date - low <= HORIZON && low < high
    ensures Unblinded(next, date, low, high)
    decreases high - low
  {
    if high - low > 1 {
      var middle := Middle(low, high);
      if Blind(next, date, middle) {
        BlindHides(next, occurs, date, middle);
      }
      NeverBlind(next, occurs, date, middle, high);
      NeverBlind(next, occurs, date, low, middle);
    }
  }

  lemma WithoutInvalidTime(next: i64 -> i64, occurs: i64 -> bool, date: i64)
    requires Faithful(next, occurs) && !occurs(INVALID_TIME)
    ensures Right(occurs, date, Prev(next, date))
  {
    ReachIsShort(date);
    ChosenIsFirst(next, date);
    var i := Chosen(next, date);
    if i < |WINDOWS| {
      WindowInReach(date, i);
      NeverBlind(next, occurs, date, date - WINDOWS[i], date);
    } else if Blind(next, date, Earliest(date)) {
      BlindHides(next, occurs, date, Earliest(date));
    }
    RightIff(next, occurs, date);
  }

  /** So the code is right on all dates exactly when -1 is not an occurrence. */
  lemma RightOnAllDatesIff(next: i64 -> i64, occurs: i64 -> bool)
    requires Faithful(next, occurs)
    ensures (forall date: i64 :: Right(occurs, date, Prev(next, date))) <==> !occurs(INVALID_TIME)
  {
    if occurs(INVALID_TIME) {
      assert FaithfulAt(next, occurs, INVALID_TIME);
      HiddenIsWrong(next, occurs, 0, Prev(next, 0));
    } else {
      forall date: i64 ensures Right(occurs, date, Prev(next, date)) {
        WithoutInvalidTime(next, occurs, date);
      }
    }
  }

  // ---------- inputs on which it fails ----------

  function OccursTwice(t: i64): bool {
    t == -1 || t == 500
  }

  function NextOfTwo(t: i64): i64 {
    if t < -1 then -1 else if t < 500 then 500 else INVALID_TIME
  }

  /** Occurrences at -1 and 500: asked for the last one before 1000, the code finds none. */
  lemma MissesAnOccurrence()
    ensures Faithful(NextOfTwo, OccursTwice)
    ensures Right(OccursTwice, 1000, 500) && Prev(NextOfTwo, 1000) == INVALID_TIME
    ensures !Right(OccursTwice, 1000, Prev(NextOfTwo, 1000))
  {
    forall t: i64 ensures FaithfulAt(NextOfTwo, OccursTwice, t) {
    }
    assert Earliest(1000) < 500;
    BlindWindowsFail(NextOfTwo, OccursTwice, 1000, 500);
  }

  function OccursThrice(t: i64): bool {
    t == -2000 || t == -1 || t == 500
  }

  function NextOfThree(t: i64): i64 {
    if t < -2000 then -2000 else if t < -1 then -1 else if t < 500 then 500 else INVALID_TIME
  }

  lemma ThreeAreFaithful()
    ensures Faithful(NextOfThree, OccursThrice) && Right(OccursThrice, 1000, 500)
  {
    assert Earliest(1000) < -2000;
    forall t: i64 ensures FaithfulAt(NextOfThree, OccursThrice, t) {
    }
  }

  /** The first instant asked about in the hour before `date` is blind. */
  lemma HourIsMisled(date: i64, start: i64)
    requires date == 1000 && start == date - 3600
    ensures Before(NextOfThree, date, BisectFrom(NextOfThree, date, start, date))
    ensures NextOfThree(BisectFrom(NextOfThree, date, start, date)) == -2000
  {
    assert Middle(start, date) == -800;
    BisectStep(NextOfThree, date, start, date);
  }

  /** Occurrences at -2000, -1 and 500: asked for the last one before 1000, the code answers -2000. */
  lemma FindsAnOlderOccurrence(date: i64)
    requires date == 1000
    ensures Faithful(NextOfThree, OccursThrice)
    ensures Right(OccursThrice, date, 500) && Prev(NextOfThree, date) == -2000
    ensures !Right(OccursThrice, date, Prev(NextOfThree, date))
  {
    ThreeAreFaithful();
    HourIsMisled(date, date - 3600);
    assert Chosen(NextOfThree, date) == 1;
  }

  // ---------- the code ----------

  /** The forward search, with a count of how often it was asked. */
  class ForwardSearch {
    const next: i64 -> i64
    var calls: nat

    constructor (answers: i64 -> i64)
      ensures next == answers && calls == 0
    {
      next := answers;
      calls := 0;
    }

    method Ask(t: i64) returns (r: i64)
      modifies this
      ensures r == next(t) && calls == old(calls) + 1
    {
      r := next(t);
      calls := calls + 1;
    }
  }

  /**
   `cron_prev`. Whatever the forward search answers, it is asked at most 34 times, and at most 8
   times when something occurs within the last minute. If it keeps its promise, the result is the
   greatest occurrence strictly before the date exactly under the condition of `RightIff`.
   */
  method CronPrev(search: ForwardSearch, ghost occurs: i64 -> bool, date: i64) returns (r: i64)
    modifies search
    ensures r == Prev(search.next, date)
    ensures search.calls <= old(search.calls) + 34
    ensures Passes(search.next, date, 0) ==> search.calls <= old(search.calls) + 8
    ensures Faithful(search.next, occurs) ==>
      (Right(occurs, date, r) <==> !Hidden(search.next, occurs, date) && Clear(search.next, date))
  {
    r := Search(search, date);
    if Faithful(search.next, occurs) {
      RightIff(search.next, occurs, date);
    }
  }

  method Search(search: ForwardSearch, date: i64) returns (r: i64)
    modifies search
    ensures r == Prev(search.next, date)
    ensures search.calls <= old(search.calls) + 34
    ensures Passes(search.next, date, 0) ==> search.calls <= old(search.calls) + 8
  {
    var i := Probe(search, date);
    if i == |WINDOWS| {
      return INVALID_TIME;
    }
    ChosenIsFirst(search.next, date);
    HalvingsSuffice(i);
    var low := Bisect(search, date, date - WINDOWS[i], HALVINGS[i]);
    var result := search.Ask(low);
    r := INVALID_TIME;
    if result != INVALID_TIME && result < date {
      r := result;
    }
  }

  /** Tries the windows from small to large; windows reaching past the first instant are skipped. */
  method Probe(search: ForwardSearch, date: i64) returns (i: nat)
    modifies search
    ensures i == Chosen(search.next, date) <= |WINDOWS|
    ensures search.calls <= old(search.calls) + if i == |WINDOWS| then i else i + 1
  {
    i := 0;
    while i < |WINDOWS|
      invariant i <= |WINDOWS| && search.calls <= old(search.calls) + i
      invariant forall j | 0 <= j < i :: !Passes(search.next, date, j)
    {
      if date >= MIN_TIME + WINDOWS[i] {
        var start := date - WINDOWS[i];
        var first := search.Ask(start);
        if first != INVALID_TIME && first < date {
          FirstIsChosen(search.next, date, i);
          return;
        }
      }
      i := i + 1;
    }
    FirstIsChosen(search.next, date, i);
  }

  /** The halving loop. */
  method Bisect(search: ForwardSearch, date: i64, start: i64, most: nat) returns (low: i64)
    requires start < date <= start + Pow2(most)
    modifies search
    ensures search.calls <= old(search.calls) + most
    ensures low == BisectFrom(search.next, date, start, date)
  {
    low := start;
    var high := date;
    ghost var left := most;
    ghost var goal := BisectFrom(search.next, date, start, date);
    while high - low > 1
      invariant start <= low < high <= date
      invariant BisectFrom(search.next, date, low, high) == goal
      invariant search.calls + left == old(search.calls) + most && high - low <= Pow2(left)
      decreases high - low
    {
      var middle := Middle(low, high);
      BisectStep(search.next, date, low, high);
      Halves(low, high, left);
      var next := search.Ask(middle);
      left := left - 1;
      if next != INVALID_TIME && next < date {
        low := middle;
      } else {
        high := middle;
      }
    }
  }

  lemma BisectStep(next: i64 -> i64, date: i64, low: i64, high: i64)
    requires high - low > 1
    ensures
      var middle := Middle(low, high);
      BisectFrom(next, date, low, high)
      == if Before(next, date, middle) then BisectFrom(next, date, middle, high) else BisectFrom(next, date, low, middle)
  {
  }

  lemma Halves(low: i64, high: i64, left: nat)
    requires 1 < high - low <= Pow2(left)
    ensures left > 0 && Middle(low, high) - low <= Pow2(left - 1) && high - Middle(low, high) <= Pow2(left - 1)
  {
  }
}
