/**
 * Semester naming: a semester id such as "2110" is two year digits followed by a
 * two-digit season code ("20" Winter, "30" Spring, "40" Summer, anything else Fall).
 */
module Semester {
  import opened Results
  import opened Strings

  datatype SemesterInfo = SemesterInfo(year: string, name: string)

  /** The season word for a season code. */
  function Season(code: string): string
  {
    if code == "20" then "Winter"
    else if code == "30" then "Spring"
    else if code == "40" then "Summer"
    else "Fall"
  }

  /** The academic year range `20yy-n` where `n` is `parseInt(yy) + 1` ("NaN" when yy has no digits). */
  function YearRange(yearSuffix: string): string
  {
    var next := match ParseInt(yearSuffix)
                case None => "NaN"
                case Some(v) => NatToString(v + 1);
    "20" + yearSuffix + "-" + next
  }

  /**
   * getSemesterNameAndYear: the season code is the last two characters and the year
   * suffix is the id with the FIRST occurrence of that code removed. Winter and Fall
   * take the first four characters of the range as the year; Spring and Summer take
   * the range with "yy-" removed.
   */
  function SemesterNameAndYear(id: string): SemesterInfo
  {
    var seasonCode := SliceLast(id, 2);
    var yearSuffix := ReplaceFirst(id, seasonCode, "");
    var yearRange := YearRange(yearSuffix);
    var name := yearRange + " " + Season(seasonCode);
    if seasonCode == "30" || seasonCode == "40" then SemesterInfo(ReplaceFirst(yearRange, yearSuffix + "-", ""), name)
    else SemesterInfo(Prefix(yearRange, 4), name)
  }

  /** For a four-digit id, removing the first occurrence of the season code leaves the first two digits. */
  lemma YearSuffixOfFourDigits(id: string)
    requires |id| == 4
    ensures ReplaceFirst(id, SliceLast(id, 2), "") == id[..2]
  {
    var code := id[2..];
    assert OccursAt(id, code, 2);
    var i := IndexOf(id, code).value;
    assert i <= 2;
    if i == 0 {
      assert id[0..2] == code;
      assert id[..0] + "" + id[2..] == id[..2];
    } else if i == 1 {
      assert id[1..3] == code;
      assert id[..1] + "" + id[3..] == id[..2];
    }
  }

  /**
   * A four-digit semester id `yyss` is named `20yy-(yy+1) Season`; the year is `20yy`
   * for Winter and Fall and `20` followed by `yy+1` for Spring and Summer.
   */
  lemma FourDigitSemester(id: string)
    requires |id| == 4 && forall i :: 0 <= i < 4 ==> IsDigit(id[i])
    ensures var yy := id[..2];
            var code := id[2..];
            var next := NatToString(DigitsValue(yy) + 1);
            SemesterNameAndYear(id) == SemesterInfo(
              if code == "30" || code == "40" then "20" + next else "20" + yy,
              "20" + yy + "-" + next + " " + Season(code))
  {
    var yy := id[..2];
    YearSuffixOfFourDigits(id);
    YearsOfTwoDigits(yy);
  }

  /**
   * For two year digits `yy`: the first four characters of the range are `20yy`,
   * and removing the first "yy-" from the range leaves `20` followed by `yy+1`.
   */
  lemma YearsOfTwoDigits(yy: string)
    requires |yy| == 2 && IsDigit(yy[0]) && IsDigit(yy[1])
    ensures var next := NatToString(DigitsValue(yy) + 1);
      && YearRange(yy) == "20" + yy + "-" + next
      && Prefix(YearRange(yy), 4) == "20" + yy
      && ReplaceFirst(YearRange(yy), yy + "-", "") == "20" + next
  {
    LeadingDigitsAll(yy);
    assert yy[..2] == yy;
    var next := NatToString(DigitsValue(yy) + 1);
    var range := "20" + yy + "-" + next;
    assert YearRange(yy) == range;
    assert Prefix(range, 4) == "20" + yy;
    var p := yy + "-";
    assert range[2..5] == p;
    assert OccursAt(range, p, 2);
    assert range[0..3][2] == yy[0] && range[1..4][2] == yy[1];
    assert !OccursAt(range, p, 0) && !OccursAt(range, p, 1);
    assert IndexOf(range, p) == Some(2);
    assert range[..2] + "" + range[5..] == "20" + next;
  }
}
