/** Small pure helpers of the board (main.py): the minutes label, which
    transit system a line code belongs to, and the sleep-hours test. */
module Display {

  import opened Strings

  /** format_time: "ARR" for a train arriving now, "<n> min" otherwise. */
  function FormatTime(minutes: int): (shown: string)
    ensures minutes == 0 <==> shown == "ARR"
    ensures minutes != 0 ==> shown == IntString(minutes) + " min"
  {
    if minutes == 0 then "ARR"
    else if minutes == 1 then "1 min"
    else IntString(minutes) + " min"
  }

  /** Different minute counts are never shown with the same label. */
  lemma FormatTimeInjective(a: int, b: int)
    requires FormatTime(a) == FormatTime(b)
    ensures a == b
  {
    if a != 0 && b != 0 {
      var la, lb := IntString(a), IntString(b);
      assert la + " min" == lb + " min";
      assert |la| == |lb|;
      assert la == (la + " min")[..|la|];
      IntStringInjective(a, b);
    }
  }

  datatype TransitType = Cta | Metra

  /** The line codes the board treats as CTA 'L' lines. */
  const CtaLines: seq<string> := ["Red", "Blue", "Brn", "G", "Org", "P", "Pink", "Y"]

  /** detect_transit_type: CTA for a listed code; Metra for any other code and
      for the empty code. */
  function DetectTransitType(lineCode: string): (t: TransitType)
    ensures t == Cta <==> lineCode in CtaLines
    ensures lineCode == "" ==> t == Metra
  {
    if lineCode == "" then Metra
    else if lineCode in CtaLines then Cta
    else Metra
  }

  /** The sleep test of adjust_brightness: hours from start (inclusive) to end
      (exclusive), wrapping past midnight when start > end. A wrapping window
      is the complement of the waking window from end to start; an empty
      window (start == end) never sleeps. */
  function InSleepHours(hour: int, startHour: int, endHour: int): (asleep: bool)
    ensures startHour == endHour ==> !asleep
    ensures startHour > endHour ==> (asleep <==> !(endHour <= hour < startHour))
  {
    if startHour > endHour then hour >= startHour || hour < endHour
    else startHour <= hour < endHour
  }

  /** A window and its reverse split every day between them. */
  lemma SleepHoursShape(hour: int, startHour: int, endHour: int)
    ensures startHour != endHour ==> (InSleepHours(hour, startHour, endHour) <==> !InSleepHours(hour, endHour, startHour))
  {
  }
}
