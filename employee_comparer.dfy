/**
 * EmployeeComparer (SortingData/EmployeeComparer.cs): orders employees by the
 * number "YYYY-DEP-NNNN" they carry, department first, then year of entry,
 * then serial number.
 */
module SortingData {
  import opened Wrappers
  import opened Records
  import Text
  import Int32

  /** The exceptions Compare can throw. */
  datatype Error =
    | FormatException     // Convert.ToInt32 on text that is not a number
    | OverflowException   // Convert.ToInt32 on a number above int.MaxValue
    | IndexOutOfRange     // fewer than three '-'-separated parts

  /** The value of a string of decimal digits; leading zeros do not count. */
  function DigitsValue(s: string): nat
    requires Text.AllDigits(s)
  {
    if s == [] then 0
    else DigitsValue(s[..|s| - 1]) * 10 + (s[|s| - 1] as int - '0' as int)
  }

  /** Convert.ToInt32(string), on unsigned digit strings. */
  function ToInt32(s: string): (r: Result<int, Error>)
    ensures r.Success? <==> s != [] && Text.AllDigits(s) && DigitsValue(s) <= Int32.MaxValue
    ensures r.Success? ==> r.value == DigitsValue(s) && Int32.InRange(r.value)
    ensures s == [] || !Text.AllDigits(s) ==> r == Failure(FormatException)
    ensures r.Failure? && s != [] && Text.AllDigits(s) ==> r.error == OverflowException
  {
    if s == [] || !Text.AllDigits(s) then Failure(FormatException)
    else if DigitsValue(s) > Int32.MaxValue then Failure(OverflowException)
    else Success(DigitsValue(s))
  }

  /** Leading zeros do not change a digit string's value. */
  lemma {:induction false} LeadingZero(s: string)
    requires Text.AllDigits(s)
    ensures DigitsValue("0" + s) == DigitsValue(s)
  {
    if s != [] {
      var init := s[..|s| - 1];
      assert ("0" + s)[..|"0" + s| - 1] == "0" + init;
      LeadingZero(init);
    }
  }

  /** Convert.ToInt32 ignores a leading zero. */
  lemma ToInt32LeadingZero(s: string)
    requires Text.AllDigits(s) && s != []
    ensures ToInt32("0" + s) == ToInt32(s)
  {
    LeadingZero(s);
    assert Text.AllDigits("0" + s);
  }

  /** parts[i], or IndexOutOfRange. */
  function Part(parts: seq<string>, i: nat): (r: Result<string, Error>)
    ensures r.Success? <==> i < |parts|
    ensures r.Success? ==> r.value == parts[i]
  {
    if i < |parts| then Success(parts[i]) else Failure(IndexOutOfRange)
  }

  /** The three fields of an employee number. */
  datatype EmployeeNumber = EmployeeNumber(year: int, department: string, serial: int)

  /** Reads one employee number the way Compare reads each of its two: parts 0, 1 and 2 of its split on '-'. */
  function Parse(employeeNo: string): Result<EmployeeNumber, Error> {
    ParseParts(Text.Split(employeeNo, '-'))
  }

  function ParseParts(parts: seq<string>): Result<EmployeeNumber, Error>
    requires |parts| >= 1
  {
    var year :- ToInt32(parts[0]);
    var department :- Part(parts, 1);
    var idText :- Part(parts, 2);
    var serial :- ToInt32(idText);
    Success(EmployeeNumber(year, department, serial))
  }

  /**
   * EmployeeComparer.Compare, reading both numbers in the source's order
   * (both years, both departments, both serials) and then comparing.
   * Its result is the department comparison when the departments differ,
   * else the year comparison when the years differ, else the serial comparison.
   */
  function Compare(e1: Employee, e2: Employee): (r: Result<int, Error>)
    ensures r.Success? <==> Parse(e1.employeeNo).Success? && Parse(e2.employeeNo).Success?
    ensures r.Success? ==>
              var a, b := Parse(e1.employeeNo).value, Parse(e2.employeeNo).value;
              && (a.department != b.department ==> r.value == Text.CompareOrdinal(a.department, b.department))
              && (a.department == b.department && a.year != b.year ==> r.value == Text.CompareInt(a.year, b.year))
              && (a.department == b.department && a.year == b.year ==> r.value == Text.CompareInt(a.serial, b.serial))
  {
    var e1No := Text.Split(e1.employeeNo, '-');
    var e2No := Text.Split(e2.employeeNo, '-');
    var e1Year :- ToInt32(e1No[0]);
    var e2Year :- ToInt32(e2No[0]);
    var e1Dep :- Part(e1No, 1);
    var e2Dep :- Part(e2No, 1);
    var e1IdText :- Part(e1No, 2);
    var e1Id :- ToInt32(e1IdText);
    var e2IdText :- Part(e2No, 2);
    var e2Id :- ToInt32(e2IdText);
    if e1Dep == e2Dep then
      if e1Year == e2Year then Success(Text.CompareInt(e1Id, e2Id))
      else Success(Text.CompareInt(e1Year, e2Year))
    else Success(Text.CompareOrdinal(e1Dep, e2Dep))
  }

  /** Compare is 0 exactly when department, year value and serial value all agree. */
  lemma CompareZeroIffSameNumber(e1: Employee, e2: Employee)
    requires Compare(e1, e2).Success?
    ensures Compare(e1, e2).value == 0 <==> Parse(e1.employeeNo).value == Parse(e2.employeeNo).value
  {
  }

  /** Swapping the arguments flips the sign of the result. */
  lemma CompareAntisymmetric(e1: Employee, e2: Employee)
    requires Compare(e1, e2).Success?
    ensures Compare(e2, e1) == Success(-Compare(e1, e2).value)
  {
    var a, b := Parse(e1.employeeNo).value, Parse(e2.employeeNo).value;
    Text.CompareOrdinalAntisymmetric(a.department, b.department);
  }

  /** "Sorts before" is transitive, so Compare is a valid IComparer ordering. */
  lemma CompareTransitive(e1: Employee, e2: Employee, e3: Employee)
    requires Compare(e1, e2).Success? && Compare(e1, e2).value < 0
    requires Compare(e2, e3).Success? && Compare(e2, e3).value < 0
    ensures Compare(e1, e3).Success? && Compare(e1, e3).value < 0
  {
    var a, b, c := Parse(e1.employeeNo).value, Parse(e2.employeeNo).value, Parse(e3.employeeNo).value;
    if a.department != b.department && b.department != c.department {
      Text.CompareOrdinalTransitive(a.department, b.department, c.department);
    }
  }

  /** Every parsable number compares equal to itself. */
  lemma CompareReflexive(e: Employee)
    requires Parse(e.employeeNo).Success?
    ensures Compare(e, e) == Success(0)
  {
  }

  /** A number made of three '-'-free parts splits into exactly those parts. */
  lemma SplitThreeParts(year: string, department: string, serial: string)
    requires '-' !in year && '-' !in department && '-' !in serial
    ensures Text.Split(year + "-" + department + "-" + serial, '-') == [year, department, serial]
  {
    var rest := department + ['-'] + serial;
    assert year + "-" + department + "-" + serial == year + ['-'] + rest;
    assert Text.Split(rest, '-') == [department, serial] by {
      Text.SplitCons(department, serial, '-');
      assert Text.Split(serial, '-') == [serial];
    }
    Text.SplitCons(year, rest, '-');
  }

  /** The serial is compared as a number, so a leading zero does not break a tie. */
  lemma LeadingZeroTies(e1: Employee, e2: Employee, year: string, department: string, serial: string)
    requires '-' !in year && '-' !in department && Text.AllDigits(serial)
    requires e1.employeeNo == year + "-" + department + "-" + ("0" + serial)
    requires e2.employeeNo == year + "-" + department + "-" + serial
    requires Parse(e2.employeeNo).Success?
    ensures Compare(e1, e2) == Success(0)
  {
    assert '-' !in serial && '-' !in "0" + serial;
    SplitThreeParts(year, department, serial);
    SplitThreeParts(year, department, "0" + serial);
    assert ParseParts([year, department, serial]).Success?;
    assert serial != [];
    ToInt32LeadingZero(serial);
    assert ParseParts([year, department, "0" + serial]) == ParseParts([year, department, serial]);
    SameNumberTies(e1, e2);
  }

  lemma SameNumberTies(e1: Employee, e2: Employee)
    requires Parse(e1.employeeNo).Success? && Parse(e1.employeeNo) == Parse(e2.employeeNo)
    ensures Compare(e1, e2) == Success(0)
  {
  }

  lemma Digits2017And42()
    ensures DigitsValue("2017") == 2017 && DigitsValue("42") == 42
  {
    assert "2017"[..3] == "201" && "201"[..2] == "20" && "20"[..1] == "2" && "2"[..0] == "";
    assert "42"[..1] == "4" && "4"[..0] == "";
  }

  lemma ToInt32Examples()
    ensures ToInt32("2017") == Success(2017) && ToInt32("42") == Success(42) && ToInt32("0042") == Success(42)
  {
    Digits2017And42();
    assert Text.AllDigits("2017") && Text.AllDigits("42");
    assert "0042" == "0" + "042" && "042" == "0" + "42";
    ToInt32LeadingZero("42");
    ToInt32LeadingZero("042");
  }

  /**
   * "2017-FI-42" reads as year 2017, department "FI", serial 42, and so does
   * "2017-FI-0042": the serial's leading zeros are dropped.
   */
  lemma ParseExamples(no: string)
    requires no == "2017-FI-42" || no == "2017-FI-0042"
    ensures Parse(no) == Success(EmployeeNumber(2017, "FI", 42))
  {
    if no == "2017-FI-42" {
      assert no == "2017" + "-" + "FI" + "-" + "42";
      ParseWithSerial(no, "42");
    } else {
      assert no == "2017" + "-" + "FI" + "-" + "0042";
      ParseWithSerial(no, "0042");
    }
  }

  lemma ParseWithSerial(no: string, serial: string)
    requires serial == "42" || serial == "0042"
    requires no == "2017" + "-" + "FI" + "-" + serial
    ensures Parse(no) == Success(EmployeeNumber(2017, "FI", 42))
  {
    assert ToInt32("2017") == Success(2017) && ToInt32(serial) == Success(42) by {
      ToInt32Examples();
    }
    assert Parse(no) == ParseParts(["2017", "FI", serial]) by {
      SplitThreeParts("2017", "FI", serial);
    }
  }

  /** "2017-FI-0042" ties "2017-FI-42". */
  lemma LeadingZerosExample(e1: Employee, e2: Employee)
    requires e1.employeeNo == "2017-FI-0042" && e2.employeeNo == "2017-FI-42"
    ensures Compare(e1, e2) == Success(0)
  {
    ParseExamples(e1.employeeNo);
    ParseExamples(e2.employeeNo);
    SameNumberTies(e1, e2);
  }

  lemma Cons3<T>(a: T, b: T, c: T, t: seq<T>)
    ensures [a] + ([b] + ([c] + t)) == [a, b, c] + t
  {
  }

  /** A number with a fourth '-' splits into the three fields followed by the pieces of the rest. */
  lemma SplitExtraParts(year: string, department: string, serial: string, extra: string)
    requires '-' !in year && '-' !in department && '-' !in serial
    ensures Text.Split(year + "-" + department + "-" + serial + "-" + extra, '-')
         == [year, department, serial] + Text.Split(extra, '-')
  {
    var s3 := serial + ['-'] + extra;
    var s2 := department + ['-'] + s3;
    assert year + "-" + department + "-" + serial + "-" + extra == year + ['-'] + s2;
    Text.SplitCons(serial, extra, '-');
    Text.SplitCons(department, s3, '-');
    Text.SplitCons(year, s2, '-');
    Cons3(year, department, serial, Text.Split(extra, '-'));
  }

  /** Parts after the third are never read: "Y-D-S-anything" ties "Y-D-S". */
  lemma ExtraPartsIgnored(e1: Employee, e2: Employee, year: string, department: string, serial: string, extra: string)
    requires '-' !in year && '-' !in department && '-' !in serial
    requires e1.employeeNo == year + "-" + department + "-" + serial + "-" + extra
    requires e2.employeeNo == year + "-" + department + "-" + serial
    requires Parse(e2.employeeNo).Success?
    ensures Compare(e1, e2) == Success(0)
  {
    assert Parse(e2.employeeNo) == ParseParts([year, department, serial]) by {
      SplitThreeParts(year, department, serial);
    }
    assert Parse(e1.employeeNo) == ParseParts([year, department, serial]) by {
      SplitExtraParts(year, department, serial, extra);
      var parts := [year, department, serial] + Text.Split(extra, '-');
      assert parts[0] == year && parts[1] == department && parts[2] == serial;
    }
    SameNumberTies(e1, e2);
  }

  /**
   * A first number with only two parts is rejected with IndexOutOfRange once
   * its year and both departments have been read.
   */
  lemma TwoPartsRejected(e1: Employee, e2: Employee)
    requires |Text.Split(e1.employeeNo, '-')| == 2
    requires ToInt32(Text.Split(e1.employeeNo, '-')[0]).Success?
    requires Parse(e2.employeeNo).Success?
    ensures Compare(e1, e2) == Failure(IndexOutOfRange)
  {
  }

  /** "2017-FI" against "2017-FI-42" is rejected. */
  lemma TwoPartsExample(e1: Employee, e2: Employee)
    requires e1.employeeNo == "2017-FI" && e2.employeeNo == "2017-FI-42"
    ensures Compare(e1, e2) == Failure(IndexOutOfRange)
  {
    ParseExamples(e2.employeeNo);
    TwoPartsSplit(e1.employeeNo);
    ToInt32Examples();
    TwoPartsRejected(e1, e2);
  }

  lemma TwoPartsSplit(no: string)
    requires no == "2017-FI"
    ensures Text.Split(no, '-') == ["2017", "FI"]
  {
    assert no == "2017" + ['-'] + "FI";
    Text.SplitCons("2017", "FI", '-');
  }
}
