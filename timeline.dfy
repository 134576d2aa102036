/** The years for which imagery exists (app.py line 70) and how the sidebar
    controls pick among them: the start/end order check by list position
    (line 91) and the slider that selects a year by its index (lines 102
    and 122). */
module Timeline {

  /** `YEARS` in app.py. */
  const Years: seq<nat> := [2014, 2015, 2020, 2025]

  predicate StrictlyIncreasing(s: seq<nat>)
  {
    forall i, j :: 0 <= i < j < |s| ==> s[i] < s[j]
  }

  /** Python's `s.index(x)`: the position of the first occurrence of `x`. */
  function IndexOf(s: seq<nat>, x: nat): (i: nat)
    requires x in s
    ensures i < |s| && s[i] == x
    ensures forall j :: 0 <= j < i ==> s[j] != x
    decreases |s|
  {
    if s[0] == x then 0 else 1 + IndexOf(s[1..], x)
  }

  /** The condition under which the sidebar reports "Start year must be <=
      end year" (app.py line 91). Both years come from select boxes over
      `Years`, so both are members of it. */
  predicate YearOrderError(start: nat, end: nat)
    requires start in Years && end in Years
  {
    IndexOf(Years, start) > IndexOf(Years, end)
  }

  /** The year the timeline slider selects (app.py line 122). The slider
      ranges over `0 .. len(YEARS) - 1` (line 102). */
  function SliderYear(index: int): (y: nat)
    requires 0 <= index <= |Years| - 1
    ensures y in Years
    ensures IndexOf(Years, y) == index
  {
    YearsStrictlyIncreasing();
    IndexOfDistinct(Years, index);
    Years[index]
  }

  // ---------------------------------------------------------------------

  lemma YearsStrictlyIncreasing()
    ensures StrictlyIncreasing(Years)
  {
  }

  /** In a strictly increasing list, `index` finds every position. */
  lemma IndexOfDistinct(s: seq<nat>, k: nat)
    requires k < |s|
    requires StrictlyIncreasing(s)
    ensures IndexOf(s, s[k]) == k
  {
    var i := IndexOf(s, s[k]);
    assert s[i] == s[k];
  }

  /** In a strictly increasing list, comparing positions is comparing
      values. */
  lemma IndexOrderIsValueOrder(s: seq<nat>, a: nat, b: nat)
    requires StrictlyIncreasing(s) && a in s && b in s
    ensures IndexOf(s, a) > IndexOf(s, b) <==> a > b
  {
    var ia, ib := IndexOf(s, a), IndexOf(s, b);
    if ia > ib {
      assert s[ib] < s[ia];
    } else if ia < ib {
      assert s[ia] < s[ib];
    }
  }

  /** The order check by list position reports an error exactly when the
      start year is later than the end year. */
  lemma YearOrderErrorIffLater(start: nat, end: nat)
    requires start in Years && end in Years
    ensures YearOrderError(start, end) <==> start > end
  {
    YearsStrictlyIncreasing();
    IndexOrderIsValueOrder(Years, start, end);
  }

  /** The select boxes' defaults (app.py lines 89-90): the first year as start
      and the last as end, which is never reported as out of order; the
      slider's default index (line 102) selects the latest year there is. */
  lemma DefaultsInOrder()
    ensures !YearOrderError(Years[0], Years[|Years| - 1])
    ensures forall y :: y in Years ==> Years[0] <= y <= SliderYear(|Years| - 1)
  {
    YearOrderErrorIffLater(Years[0], Years[|Years| - 1]);
  }
}
