/**
 * The workload editor of a task (src/components/LoadEditor.js): keeping each
 * workload's start and end dates ordered and inside the task's date range,
 * the inclusive day count shown per workload, and the updates of the
 * workload list.
 */
module LoadEditor {

  import opened Wrappers
  import opened JsString
  import opened JsDate
  import opened IsoDate

  /**
   * A workload as the editor holds it. A date that is `None` is missing
   * (`undefined` or `null`); `cid` is the editor's own row key.
   */
  datatype Workload = Workload(startDate: Option<string>, endDate: Option<string>, cid: Option<string>)

  /** `v || ""` for a date field: a missing date reads as the empty string. */
  function OrEmpty(v: Option<string>): (s: string)
  {
    if v.Some? then v.value else ""
  }

  /** canLimitRange: both task dates are valid and the start is not after the end. */
  predicate CanLimitRange(taskStart: string, taskEnd: string)
  {
    IsValidDate(Some(taskStart)) && IsValidDate(Some(taskEnd)) && LessEq(taskStart, taskEnd)
  }

  /** canLimitRange means the task range is a non-empty span of days. */
  lemma CanLimitRangeIsDaySpan(taskStart: string, taskEnd: string)
    ensures CanLimitRange(taskStart, taskEnd) <==>
      IsValidDate(Some(taskStart)) && IsValidDate(Some(taskEnd)) &&
      DayOf(taskStart) <= DayOf(taskEnd)
  {
    if IsValidDate(Some(taskStart)) && IsValidDate(Some(taskEnd)) {
      StringLessEqIsDayOrder(taskStart, taskEnd);
    }
  }

  // ---------------------------------------------------------------------
  // normalizeWorkload

  /** The point of the string interval [lo, hi] closest to `x`. */
  function Clamp(x: string, lo: string, hi: string): (r: string)
  {
    if Less(x, lo) then lo else if Less(hi, x) then hi else x
  }

  /** The later of two strings in string order. */
  function Later(a: string, b: string): (r: string)
  {
    if Less(b, a) then a else b
  }

  /** A non-empty date is pulled into the task range when the range can be used. */
  function Fit(x: string, taskStart: string, taskEnd: string): (r: string)
  {
    if x == "" || !CanLimitRange(taskStart, taskEnd) then x else Clamp(x, taskStart, taskEnd)
  }

  /**
   * What normalizeWorkload computes, in closed form: missing dates become
   * empty, an end before the start is raised to the start, and both dates
   * are then fitted into the task range. Other fields are kept.
   */
  function Normalized(w: Workload, taskStart: string, taskEnd: string): (r: Workload)
  {
    var s := OrEmpty(w.startDate);
    var e := OrEmpty(w.endDate);
    var e' := if s != "" && e != "" then Later(s, e) else e;
    w.(startDate := Some(Fit(s, taskStart, taskEnd)), endDate := Some(Fit(e', taskStart, taskEnd)))
  }

  /**
   * normalizeWorkload(w, taskStart, taskEnd): its step-by-step
   * reassignment of the local dates `s` and `e`.
   */
  method NormalizeWorkload(w: Workload, taskStart: string, taskEnd: string) returns (r: Workload)
    ensures r == Normalized(w, taskStart, taskEnd)
  {
    var canLimitRange := IsValidDate(Some(taskStart)) && IsValidDate(Some(taskEnd)) &&
      !Less(taskEnd, taskStart);
    var s := OrEmpty(w.startDate);
    var e := OrEmpty(w.endDate);
    ghost var s0, e0 := s, e;

    // Auto-fix reverse
    if s != "" && e != "" && Less(e, s) {
      e := s;
    }
    ghost var e1 := e;
    assert e1 == if s0 != "" && e0 != "" then Later(s0, e0) else e0;

    // Clamp into task range
    if canLimitRange {
      ParsedDatesAreNonEmpty(taskStart);
      if s != "" && e != "" {
        LessTotal(s, e0);
        LessIrreflexive(s);
      }
      s, e := ClampIntoRange(s, e, taskStart, taskEnd);
    }

    r := w.(startDate := Some(s), endDate := Some(e));
  }

  /**
   * The clamping half of normalizeWorkload, run when canLimitRange holds:
   * each non-empty date is pulled into [taskStart, taskEnd], and the final
   * re-check of the order never fires.
   */
  method ClampIntoRange(s0: string, e0: string, taskStart: string, taskEnd: string)
    returns (s: string, e: string)
    requires taskStart != "" && LessEq(taskStart, taskEnd)
    requires s0 != "" && e0 != "" ==> LessEq(s0, e0)
    ensures s == (if s0 == "" then s0 else Clamp(s0, taskStart, taskEnd))
    ensures e == (if e0 == "" then e0 else Clamp(e0, taskStart, taskEnd))
  {
    s, e := s0, e0;
    if s != "" && Less(s, taskStart) {
      s := taskStart;
    }
    if s != "" && Less(taskEnd, s) {
      s := taskEnd;
    }
    if e != "" && Less(e, taskStart) {
      e := taskStart;
    }
    if e != "" && Less(taskEnd, e) {
      e := taskEnd;
    }
    SequentialClampIsClamp(s0, taskStart, taskEnd);
    SequentialClampIsClamp(e0, taskStart, taskEnd);
    if s0 != "" && e0 != "" {
      ClampMonotone(s0, e0, taskStart, taskEnd);
    }
    // never taken: clamping keeps the start at or before the end
    if s != "" && e != "" && Less(e, s) {
      e := s;
    }
  }

  /** A valid date is never the empty string. */
  lemma ParsedDatesAreNonEmpty(d: string)
    requires IsValidDate(Some(d))
    ensures d != ""
  {
    ParseISODateAcceptsFullDates(d);
  }

  /** The code's two sequential `if`s compute Clamp when lo <= hi. */
  lemma SequentialClampIsClamp(x: string, lo: string, hi: string)
    requires LessEq(lo, hi) && lo != ""
    ensures x != "" ==>
      (var x1 := if Less(x, lo) then lo else x;
       if Less(hi, x1) then hi else x1) == Clamp(x, lo, hi)
  {
  }

  /** Clamp lands inside [lo, hi] and is one of x, lo, hi. */
  lemma ClampInside(x: string, lo: string, hi: string)
    requires LessEq(lo, hi)
    ensures LessEq(lo, Clamp(x, lo, hi)) && LessEq(Clamp(x, lo, hi), hi)
    ensures Clamp(x, lo, hi) in {x, lo, hi}
  {
    LessIrreflexive(lo);
    LessIrreflexive(hi);
    LessAsymmetric(x, lo);
    LessAsymmetric(hi, x);
  }

  /** Clamp is monotone in string order. */
  lemma ClampMonotone(x: string, y: string, lo: string, hi: string)
    requires LessEq(lo, hi) && LessEq(x, y)
    ensures LessEq(Clamp(x, lo, hi), Clamp(y, lo, hi))
  {
    ClampInside(y, lo, hi);
    LessTotal(x, y);
    if Less(x, lo) {
    } else if Less(hi, x) {
      LessTransitive(hi, x, y);
      LessTransitive(hi, y, lo);
      LessIrreflexive(hi);
    } else {
      LessTransitive(x, y, lo);
    }
  }

  /** A value already inside [lo, hi] is left alone. */
  lemma ClampKeepsInside(x: string, lo: string, hi: string)
    requires LessEq(lo, x) && LessEq(x, hi)
    ensures Clamp(x, lo, hi) == x
  {
  }

  // ---------------------------------------------------------------------
  // What normalization guarantees

  /**
   * A workload the editor is content with: both dates present, the start
   * not after the end, and, when the task range can be used, every
   * non-empty date inside it.
   */
  predicate Settled(w: Workload, taskStart: string, taskEnd: string)
  {
    w.startDate.Some? && w.endDate.Some? &&
    var s, e := w.startDate.value, w.endDate.value;
    (s != "" && e != "" ==> LessEq(s, e)) &&
    (CanLimitRange(taskStart, taskEnd) ==>
      (s != "" ==> LessEq(taskStart, s) && LessEq(s, taskEnd)) &&
      (e != "" ==> LessEq(taskStart, e) && LessEq(e, taskEnd)))
  }

  /** normalizeWorkload always produces a settled workload. */
  lemma NormalizedIsSettled(w: Workload, taskStart: string, taskEnd: string)
    ensures Settled(Normalized(w, taskStart, taskEnd), taskStart, taskEnd)
  {
    var s, e := OrEmpty(w.startDate), OrEmpty(w.endDate);
    var e' := if s != "" && e != "" then Later(s, e) else e;
    if s != "" && e != "" {
      LessAsymmetric(s, e);
      LessTotal(s, e);
      LessIrreflexive(s);
      assert LessEq(s, e');
    }
    if CanLimitRange(taskStart, taskEnd) {
      ClampInside(s, taskStart, taskEnd);
      ClampInside(e', taskStart, taskEnd);
      if s != "" && e != "" {
        ClampMonotone(s, e', taskStart, taskEnd);
      }
    }
  }

  /** A settled workload is returned unchanged. */
  lemma SettledIsFixedPoint(w: Workload, taskStart: string, taskEnd: string)
    requires Settled(w, taskStart, taskEnd)
    ensures Normalized(w, taskStart, taskEnd) == w
  {
    var s, e := w.startDate.value, w.endDate.value;
    if s != "" && e != "" {
      assert Later(s, e) == e;
    }
    if CanLimitRange(taskStart, taskEnd) {
      if s != "" {
        ClampKeepsInside(s, taskStart, taskEnd);
      }
      if e != "" {
        ClampKeepsInside(e, taskStart, taskEnd);
      }
    }
  }

  /** Normalizing twice for the same task range is normalizing once. */
  lemma NormalizeIdempotent(w: Workload, taskStart: string, taskEnd: string)
    ensures Normalized(Normalized(w, taskStart, taskEnd), taskStart, taskEnd) ==
      Normalized(w, taskStart, taskEnd)
  {
    NormalizedIsSettled(w, taskStart, taskEnd);
    SettledIsFixedPoint(Normalized(w, taskStart, taskEnd), taskStart, taskEnd);
  }

  /**
   * Normalization keeps the other fields, turns a missing date into "",
   * keeps empty dates empty and non-empty dates non-empty, and without a
   * usable task range it only ever raises an end that precedes the start
   * up to that start.
   */
  lemma NormalizedKeepsFields(w: Workload, taskStart: string, taskEnd: string)
    ensures var r := Normalized(w, taskStart, taskEnd);
      r.cid == w.cid && r.startDate.Some? && r.endDate.Some? &&
      (r.startDate.value == "" <==> OrEmpty(w.startDate) == "") &&
      (r.endDate.value == "" <==> OrEmpty(w.endDate) == "")
    ensures var r := Normalized(w, taskStart, taskEnd);
      var s, e := OrEmpty(w.startDate), OrEmpty(w.endDate);
      !CanLimitRange(taskStart, taskEnd) ==>
        r.startDate == Some(s) &&
        (r.endDate == Some(e) || (r.endDate == Some(s) && s != "" && Less(e, s)))
  {
    var s, e := OrEmpty(w.startDate), OrEmpty(w.endDate);
    if CanLimitRange(taskStart, taskEnd) {
      ParsedDatesAreNonEmpty(taskStart);
      ParsedDatesAreNonEmpty(taskEnd);
      var e' := if s != "" && e != "" then Later(s, e) else e;
      ClampInside(s, taskStart, taskEnd);
      ClampInside(e', taskStart, taskEnd);
    }
  }

  /** Valid input dates stay valid: normalization only picks among them and the task dates. */
  lemma NormalizedKeepsValidity(w: Workload, taskStart: string, taskEnd: string)
    requires IsValidDate(w.startDate) && IsValidDate(w.endDate)
    ensures IsValidDate(Normalized(w, taskStart, taskEnd).startDate)
    ensures IsValidDate(Normalized(w, taskStart, taskEnd).endDate)
  {
    var s, e := OrEmpty(w.startDate), OrEmpty(w.endDate);
    assert w.startDate == Some(s) && w.endDate == Some(e);
    ParsedDatesAreNonEmpty(s);
    ParsedDatesAreNonEmpty(e);
    if CanLimitRange(taskStart, taskEnd) {
      ClampInside(s, taskStart, taskEnd);
      ClampInside(Later(s, e), taskStart, taskEnd);
    }
  }

  /**
   * In days: with a usable task range and valid dates, a normalized
   * workload starts no earlier than the task, ends no later than the task,
   * and does not end before it starts.
   */
  lemma NormalizedDaysInsideTask(w: Workload, taskStart: string, taskEnd: string)
    requires CanLimitRange(taskStart, taskEnd)
    requires IsValidDate(w.startDate) && IsValidDate(w.endDate)
    ensures var r := Normalized(w, taskStart, taskEnd);
      IsValidDate(r.startDate) && IsValidDate(r.endDate) &&
      DayOf(taskStart) <= DayOf(r.startDate.value) <= DayOf(r.endDate.value) <= DayOf(taskEnd)
  {
    var r := Normalized(w, taskStart, taskEnd);
    NormalizedKeepsValidity(w, taskStart, taskEnd);
    NormalizedIsSettled(w, taskStart, taskEnd);
    var s, e := r.startDate.value, r.endDate.value;
    ParsedDatesAreNonEmpty(s);
    ParsedDatesAreNonEmpty(e);
    StringLessEqIsDayOrder(taskStart, s);
    StringLessEqIsDayOrder(s, e);
    StringLessEqIsDayOrder(e, taskEnd);
  }

  // ---------------------------------------------------------------------
  // calcDurationDays

  /** calcDurationDays(startDate, endDate): the inclusive day count, or null. */
  function CalcDurationDays(startDate: Option<string>, endDate: Option<string>): (days: Option<int>)
  {
    DurationBetween(ParseISODate(startDate), ParseISODate(endDate))
  }

  /** The part of calcDurationDays after both dates are parsed. */
  function DurationBetween(ps: Option<ParsedDate>, pe: Option<ParsedDate>): (days: Option<int>)
  {
    if ps.None? || pe.None? then None
    else if ps.value.utc > pe.value.utc then None
    else Some((pe.value.utc - ps.value.utc) / MsPerDay + 1)
  }

  /**
   * The count exists exactly when both dates are valid and the start is not
   * after the end (in days, and equally in string order); it is then the
   * number of days from start to end inclusive, at least 1, and 1 for a
   * single day.
   */
  lemma DurationIsInclusiveDayCount(startDate: Option<string>, endDate: Option<string>)
    ensures CalcDurationDays(startDate, endDate).Some? <==>
      IsValidDate(startDate) && IsValidDate(endDate) &&
      DayOf(startDate.value) <= DayOf(endDate.value)
    ensures CalcDurationDays(startDate, endDate).Some? <==>
      IsValidDate(startDate) && IsValidDate(endDate) &&
      LessEq(startDate.value, endDate.value)
    ensures CalcDurationDays(startDate, endDate).Some? ==>
      CalcDurationDays(startDate, endDate).value ==
        DayOf(endDate.value) - DayOf(startDate.value) + 1 >= 1
    ensures IsValidDate(startDate) && startDate == endDate ==>
      CalcDurationDays(startDate, endDate) == Some(1)
  {
    if IsValidDate(startDate) && IsValidDate(endDate) {
      DurationOfValidDates(startDate.value, endDate.value);
    }
  }

  /** calcDurationDays of two valid dates, in days. */
  lemma DurationOfValidDates(s: string, e: string)
    requires IsValidDate(Some(s)) && IsValidDate(Some(e))
    ensures CalcDurationDays(Some(s), Some(e)) ==
      if DayOf(s) <= DayOf(e) then Some(DayOf(e) - DayOf(s) + 1) else None
    ensures LessEq(s, e) <==> DayOf(s) <= DayOf(e)
  {
    UtcIsMidnight(s);
    UtcIsMidnight(e);
    DurationBetweenMidnights(ParseISODate(Some(s)), ParseISODate(Some(e)));
    StringLessEqIsDayOrder(s, e);
  }

  /** Between two midnights the inclusive day count is the difference of their days plus one. */
  lemma DurationBetweenMidnights(ps: Option<ParsedDate>, pe: Option<ParsedDate>)
    requires ps.Some? && ps.value.utc % MsPerDay == 0
    requires pe.Some? && pe.value.utc % MsPerDay == 0
    ensures DurationBetween(ps, pe) ==
      var a, b := Day(ps.value.utc), Day(pe.value.utc);
      if a <= b then Some(b - a + 1) else None
  {
    var a, b := Day(ps.value.utc), Day(pe.value.utc);
    assert ps.value.utc == a * MsPerDay && pe.value.utc == b * MsPerDay;
    WholeDaysApart(a, b);
  }

  /** Two midnights compare as their days do and lie a whole number of days apart. */
  lemma WholeDaysApart(a: int, b: int)
    ensures a * MsPerDay > b * MsPerDay <==> a > b
    ensures (b * MsPerDay - a * MsPerDay) / MsPerDay == b - a
  {
    assert b * MsPerDay - a * MsPerDay == (b - a) * MsPerDay;
  }

  // ---------------------------------------------------------------------
  // The workload list

  /** Every workload of a list is settled. */
  predicate AllSettled(ws: seq<Workload>, taskStart: string, taskEnd: string)
  {
    forall i :: 0 <= i < |ws| ==> Settled(ws[i], taskStart, taskEnd)
  }

  /** The date field an edit targets (`field` of updateWorkload). */
  datatype DateField = StartDate | EndDate

  /** `{ ...w, [field]: value }` */
  function SetDate(w: Workload, field: DateField, value: string): (r: Workload)
    ensures r.cid == w.cid
    ensures r.startDate == (if field == StartDate then Some(value) else w.startDate)
    ensures r.endDate == (if field == EndDate then Some(value) else w.endDate)
  {
    match field
    case StartDate => w.(startDate := Some(value))
    case EndDate => w.(endDate := Some(value))
  }

  /**
   * The updater of addWorkload: nothing happens without a usable task
   * range; otherwise a one-day workload on the task's start day is
   * appended. `cid` is the fresh row key addWorkload draws at random.
   */
  function AddWorkload(prev: seq<Workload>, taskStart: string, taskEnd: string, cid: string): (next: seq<Workload>)
    ensures !CanLimitRange(taskStart, taskEnd) ==> next == prev
    ensures CanLimitRange(taskStart, taskEnd) ==>
      |next| == |prev| + 1 && next[..|prev|] == prev &&
      next[|prev|].startDate == Some(taskStart) && next[|prev|].endDate == Some(taskStart) &&
      Settled(next[|prev|], taskStart, taskEnd)
  {
    if !CanLimitRange(taskStart, taskEnd) then prev
    else
      LessIrreflexive(taskStart);
      prev + [Workload(Some(taskStart), Some(taskStart), Some(cid))]
  }

  /**
   * The updater of updateWorkload(index, field, value): the entry at
   * `index` gets the new date and is normalized; every other entry, and
   * the length, stay as they were (an index outside the list changes
   * nothing).
   */
  function UpdateWorkload(prev: seq<Workload>, index: int, field: DateField, value: string,
                          taskStart: string, taskEnd: string): (next: seq<Workload>)
    ensures |next| == |prev|
    ensures forall i :: 0 <= i < |prev| && i != index ==> next[i] == prev[i]
    ensures 0 <= index < |prev| ==>
      next[index] == Normalized(SetDate(prev[index], field, value), taskStart, taskEnd) &&
      Settled(next[index], taskStart, taskEnd)
  {
    var next := seq(|prev|, i requires 0 <= i < |prev| =>
      if i != index then prev[i] else Normalized(SetDate(prev[i], field, value), taskStart, taskEnd));
    assert 0 <= index < |prev| ==> Settled(next[index], taskStart, taskEnd) by {
      if 0 <= index < |prev| {
        NormalizedIsSettled(SetDate(prev[index], field, value), taskStart, taskEnd);
      }
    }
    next
  }

  /**
   * The updater of removeWorkload(index): the entry at `index` is dropped
   * and the others keep their order (an index outside the list changes
   * nothing).
   */
  function RemoveWorkload(prev: seq<Workload>, index: int): (next: seq<Workload>)
    ensures !(0 <= index < |prev|) ==> next == prev
    ensures 0 <= index < |prev| ==>
      |next| == |prev| - 1 &&
      (forall i :: 0 <= i < index ==> next[i] == prev[i]) &&
      (forall i :: index <= i < |next| ==> next[i] == prev[i + 1])
  {
    if 0 <= index < |prev| then prev[..index] + prev[index + 1..] else prev
  }

  /** Each of the three list updates keeps a settled list settled. */
  lemma {:induction false} UpdatesKeepListSettled(prev: seq<Workload>, taskStart: string, taskEnd: string,
                                                  index: int, field: DateField, value: string, cid: string)
    requires AllSettled(prev, taskStart, taskEnd)
    ensures AllSettled(AddWorkload(prev, taskStart, taskEnd, cid), taskStart, taskEnd)
    ensures AllSettled(UpdateWorkload(prev, index, field, value, taskStart, taskEnd), taskStart, taskEnd)
    ensures AllSettled(RemoveWorkload(prev, index), taskStart, taskEnd)
  {
    var added := AddWorkload(prev, taskStart, taskEnd, cid);
    if CanLimitRange(taskStart, taskEnd) {
      forall i | 0 <= i < |added| ensures Settled(added[i], taskStart, taskEnd) {
        if i < |prev| {
          assert added[i] == added[..|prev|][i];
        }
      }
    }
    var removed := RemoveWorkload(prev, index);
    if 0 <= index < |prev| {
      forall i | 0 <= i < |removed| ensures Settled(removed[i], taskStart, taskEnd) {
        if i >= index {
          assert removed[i] == prev[i + 1];
        }
      }
    }
  }

  /** Whether a normalization moved a workload's start or end (`!==` on each date). */
  predicate DatesChanged(before: Workload, after: Workload)
  {
    after.startDate != before.startDate || after.endDate != before.endDate
  }

  /**
   * The clamp-all pass run when the task range changes. Without a usable
   * range the list is left alone. Otherwise every entry is normalized, and
   * `adjusted` (whether onAdjusted is called) says whether some entry's
   * start or end changed. Afterwards every entry is settled, and a list
   * that was already settled comes back as it was, with no notification.
   */
  method ClampAll(prev: seq<Workload>, taskStart: string, taskEnd: string)
    returns (next: seq<Workload>, adjusted: bool)
    ensures !CanLimitRange(taskStart, taskEnd) ==> next == prev && !adjusted
    ensures CanLimitRange(taskStart, taskEnd) ==>
      |next| == |prev| &&
      (forall i :: 0 <= i < |prev| ==> next[i] == Normalized(prev[i], taskStart, taskEnd)) &&
      (adjusted <==> exists i :: 0 <= i < |prev| && DatesChanged(prev[i], next[i]))
    ensures CanLimitRange(taskStart, taskEnd) ==> AllSettled(next, taskStart, taskEnd)
    ensures AllSettled(prev, taskStart, taskEnd) ==> next == prev && !adjusted
  {
    if !CanLimitRange(taskStart, taskEnd) {
      return prev, false;
    }
    next, adjusted := NormalizeEach(prev, taskStart, taskEnd);
  }

  /**
   * The body of the clamp-all updater: `prev.map` through normalizeWorkload,
   * setting `adjusted` when an entry's start or end changes.
   */
  method NormalizeEach(prev: seq<Workload>, taskStart: string, taskEnd: string)
    returns (next: seq<Workload>, adjusted: bool)
    ensures |next| == |prev|
    ensures forall i :: 0 <= i < |prev| ==> next[i] == Normalized(prev[i], taskStart, taskEnd)
    ensures adjusted <==> exists i :: 0 <= i < |prev| && DatesChanged(prev[i], next[i])
    ensures AllSettled(next, taskStart, taskEnd)
    ensures AllSettled(prev, taskStart, taskEnd) ==> next == prev && !adjusted
  {
    adjusted := false;
    next := [];
    var i := 0;
    while i < |prev|
      invariant 0 <= i <= |prev| && |next| == i
      invariant forall k :: 0 <= k < i ==> next[k] == Normalized(prev[k], taskStart, taskEnd)
      invariant forall k :: 0 <= k < i ==> Settled(next[k], taskStart, taskEnd)
      invariant adjusted <==> exists k :: 0 <= k < i && DatesChanged(prev[k], next[k])
      invariant AllSettled(prev, taskStart, taskEnd) ==> next == prev[..i]
    {
      var norm := NormalizeWorkload(prev[i], taskStart, taskEnd);
      NormalizedIsSettled(prev[i], taskStart, taskEnd);
      if AllSettled(prev, taskStart, taskEnd) {
        SettledIsFixedPoint(prev[i], taskStart, taskEnd);
      }
      if norm.startDate != prev[i].startDate || norm.endDate != prev[i].endDate {
        adjusted := true;
      }
      next := next + [norm];
      i := i + 1;
    }
    assert prev[..i] == prev;
  }

  /**
   * endMin: the lower bound offered for a workload's end date, the later
   * of the task start and the workload's start.
   */
  function EndMin(w: Workload, taskStart: string, taskEnd: string): (m: string)
    ensures !CanLimitRange(taskStart, taskEnd) ==> m == taskStart
    ensures CanLimitRange(taskStart, taskEnd) ==>
      (m == taskStart || m == OrEmpty(w.startDate)) &&
      LessEq(taskStart, m) &&
      (OrEmpty(w.startDate) != "" ==> LessEq(OrEmpty(w.startDate), m))
    ensures CanLimitRange(taskStart, taskEnd) && Settled(w, taskStart, taskEnd) ==>
      LessEq(taskStart, m) &&
      (w.endDate.value != "" ==> LessEq(m, w.endDate.value))
  {
    var s := OrEmpty(w.startDate);
    if CanLimitRange(taskStart, taskEnd) && s != "" && Less(taskStart, s) then
      LessAsymmetric(taskStart, s);
      LessIrreflexive(s);
      s
    else
      LessIrreflexive(taskStart);
      taskStart
  }
}
