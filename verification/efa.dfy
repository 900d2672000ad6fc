/** The settlement-period (EFA block) classifier: a fixed table from the `'%H:%M'` text of a
    delivery start to one of six four-hour periods. Each period has two keys, one hour
    apart, one per daylight-saving regime; any other text has no period. */
module Efa {
  import opened Common
  import opened Clock

  /** A settlement period, the column label of every pivot table. */
  type Period = p: int | 1 <= p <= 6 witness 1

  const EfaMap: map<string, Period> := map[
    "22:00" := 1, "02:00" := 2, "06:00" := 3, "10:00" := 4, "14:00" := 5, "18:00" := 6,
    "23:00" := 1, "03:00" := 2, "07:00" := 3, "11:00" := 4, "15:00" := 5, "19:00" := 6]

  /** `time.map(EfaMap)`: the period of a time text, `None` (NaN) for any text not in the table. */
  function Classify(time: string): (r: Option<Period>)
    ensures r.Some? <==> time in EfaMap
    ensures r.Some? ==> |time| == 5 && time[2..] == ":00"
  {
    if time in EfaMap then Some(EfaMap[time]) else None
  }

  /** Reference definition of the blocks by hour: a block begins at hour 22 (or 23 in the
      other regime) and every four hours after that, so the start hours are those with
      `h % 4` equal to 2 or 3, and the block number counts from the 22:00/23:00 block. */
  predicate IsBlockStart(h: int)
  {
    h % 4 == 2 || h % 4 == 3
  }

  function BlockOfHour(h: int): Period
    requires 0 <= h < 24
  {
    (h + 2) % 24 / 4 + 1
  }

  /** The table agrees with the reference definition: the text `HH:MM` has a period exactly
      when the minute is 00 and the hour starts a block, and then it is that block. */
  lemma {:induction false} ClassifyClockText(h: int, m: int)
    requires 0 <= h < 24 && 0 <= m < 60
    ensures Classify(TwoDigits(h) + ":" + TwoDigits(m)) ==
            if m == 0 && IsBlockStart(h) then Some(BlockOfHour(h)) else None
  {
    var s := TwoDigits(h) + ":" + TwoDigits(m);
    if m != 0 {
      assert s[3] != '0' || s[4] != '0';
      assert s !in EfaMap;
    } else {
      assert s == [Digit(h / 10), Digit(h % 10), ':', '0', '0'];
      if IsBlockStart(h) {
        assert h in {2, 3, 6, 7, 10, 11, 14, 15, 18, 19, 22, 23};
      } else {
        assert s !in EfaMap;
      }
    }
  }

  /** The period of a delivery start instant, as `strftime('%H:%M')` followed by the table:
      only instants in the first minute of a block-start hour get a period. */
  lemma ClassifyInstant(t: Instant)
    ensures Classify(HourMinute(t)) ==
            if t.second % 3600 < 60 && IsBlockStart(Hour(t)) then Some(BlockOfHour(Hour(t))) else None
  {
    MinuteOfDay(t.second);
    ClassifyClockText(Hour(t), Minute(t));
  }

  /** The first of the two start hours of period `p` (the later regime starts an hour later). */
  function StartHour(p: Period): (h: int)
    ensures 0 <= h < 23 && IsBlockStart(h) && h % 4 == 2
  {
    (4 * p + 18) % 24
  }

  /** Every period has exactly two keys, its start hour and the hour after it; each maps to it. */
  lemma {:induction false} PeriodKeys(p: Period, time: string)
    ensures time in EfaMap && EfaMap[time] == p <==>
            time == TwoDigits(StartHour(p)) + ":00" || time == TwoDigits(StartHour(p) + 1) + ":00"
  {
    StartTexts(p);
  }

  /** The two key texts of each period, written out. */
  lemma StartTexts(p: Period)
    ensures var a, b := TwoDigits(StartHour(p)) + ":00", TwoDigits(StartHour(p) + 1) + ":00";
            (p == 1 ==> a == "22:00" && b == "23:00") && (p == 2 ==> a == "02:00" && b == "03:00") &&
            (p == 3 ==> a == "06:00" && b == "07:00") && (p == 4 ==> a == "10:00" && b == "11:00") &&
            (p == 5 ==> a == "14:00" && b == "15:00") && (p == 6 ==> a == "18:00" && b == "19:00")
  {
    var a, b := TwoDigits(StartHour(p)) + ":00", TwoDigits(StartHour(p) + 1) + ":00";
    if p == 1 {
      assert a == "22:00" && b == "23:00";
    } else if p == 2 {
      assert a == "02:00" && b == "03:00";
    } else if p == 3 {
      assert a == "06:00" && b == "07:00";
    } else if p == 4 {
      assert a == "10:00" && b == "11:00";
    } else if p == 5 {
      assert a == "14:00" && b == "15:00";
    }
  }
}
