/**
 * The title splitter of the print helpers (Another_playlist/Data/ExtnensionPrint.cs):
 * `Separate` turns an identifier such as "empsSkipFirst10" into the caption
 * "emps Skip First 1 0" by cutting the text before every upper-case letter
 * and every digit and joining the pieces with single spaces.
 */
module TitleFormatting {
  import Text

  /** A character before which `Separate` cuts: a decimal digit or an upper-case letter. */
  function IsUpperOrDigit(c: char): (r: bool)
    ensures r <==> '0' <= c <= '9' || 'A' <= c <= 'Z'
  {
    if Text.IsDigit(c) then true
    else if Text.IsUpper(c) then true
    else false
  }

  /** How many characters of `s` are upper-case letters or digits. */
  function CountMarks(s: string): nat
  {
    if s == [] then 0
    else CountMarks(s[..|s| - 1]) + if IsUpperOrDigit(s[|s| - 1]) then 1 else 0
  }

  /** No character of `s` is an upper-case letter or a digit. */
  predicate NoMarks(s: string) {
    forall i :: 0 <= i < |s| ==> !IsUpperOrDigit(s[i])
  }

  /**
   * The pieces `Separate` collects for `s`, read from the left: a first piece
   * up to the first mark, then one piece per mark, running from that mark to
   * just before the next one.
   */
  function Pieces(s: string): (r: seq<string>)
    ensures |r| >= 1
  {
    if s == [] then [""]
    else
      var init := Pieces(s[..|s| - 1]);
      var c := s[|s| - 1];
      if IsUpperOrDigit(c) then init + [[c]]
      else init[..|init| - 1] + [init[|init| - 1] + [c]]
  }

  /** The pieces written one after another with nothing between them. */
  function Concat(parts: seq<string>): string {
    if parts == [] then [] else parts[0] + Concat(parts[1..])
  }

  /** Appending one character either opens a new piece (a mark) or extends the last one. */
  lemma PiecesSnoc(t: string, c: char)
    ensures IsUpperOrDigit(c) ==> Pieces(t + [c]) == Pieces(t) + [[c]]
    ensures !IsUpperOrDigit(c) ==>
              var init := Pieces(t);
              Pieces(t + [c]) == init[..|init| - 1] + [init[|init| - 1] + [c]]
  {
    assert (t + [c])[..|t + [c]| - 1] == t;
  }

  /**
   * ExtnensionPrint.Separate: scans `s` with `end` running one past its last
   * index, closes the piece `s[first..end]` before every mark and at the end
   * of the text, and joins the pieces with " ".
   */
  method Separate(s: string) returns (r: string)
    ensures r == Text.Join(" ", Pieces(s))
  {
    var res: seq<string> := [];
    var first, end := 0, 0;
    while end <= |s|
      invariant 0 <= first <= end <= |s| + 1 && first <= |s|
      invariant end <= |s| ==> res + [s[first..end]] == Pieces(s[..end])
      invariant end == |s| + 1 ==> res == Pieces(s)
      decreases |s| + 1 - end
    {
      if end < |s| {
        SeparateStep(s, res, first, end);
      } else {
        assert s[..end] == s;
      }
      if end == |s| || IsUpperOrDigit(s[end]) {
        res := res + [s[first..end]];
        first := end;
      }
      end := end + 1;
    }
    r := Text.Join(" ", res);
  }

  /** One step of the scan in `Separate`: the character at `end` opens a new piece or extends the open one. */
  lemma SeparateStep(s: string, res: seq<string>, first: nat, end: nat)
    requires first <= end < |s|
    requires res + [s[first..end]] == Pieces(s[..end])
    ensures IsUpperOrDigit(s[end]) ==> res + [s[first..end]] + [s[end..end + 1]] == Pieces(s[..end + 1])
    ensures !IsUpperOrDigit(s[end]) ==> res + [s[first..end + 1]] == Pieces(s[..end + 1])
  {
    assert s[..end + 1] == s[..end] + [s[end]];
    PiecesSnoc(s[..end], s[end]);
    assert s[end..end + 1] == [s[end]];
    assert s[first..end] + [s[end]] == s[first..end + 1];
  }

  lemma ConcatAppend(parts: seq<string>, last: string)
    ensures Concat(parts + [last]) == Concat(parts) + last
  {
    if parts != [] {
      assert (parts + [last])[1..] == parts[1..] + [last];
      ConcatAppend(parts[1..], last);
    }
  }

  lemma JoinAppend(separator: string, parts: seq<string>, last: string)
    requires parts != []
    ensures Text.Join(separator, parts + [last]) == Text.Join(separator, parts) + separator + last
  {
    if |parts| > 1 {
      assert (parts + [last])[1..] == parts[1..] + [last];
      JoinAppend(separator, parts[1..], last);
    }
  }

  /** The pieces, put back together, are exactly the input: nothing is lost, moved or added. */
  lemma {:induction false} PiecesConcat(s: string)
    ensures Concat(Pieces(s)) == s
  {
    if s != [] {
      var t, c := s[..|s| - 1], s[|s| - 1];
      assert s == t + [c];
      PiecesConcat(t);
      PiecesSnoc(t, c);
      var init := Pieces(t);
      if IsUpperOrDigit(c) {
        ConcatAppend(init, [c]);
      } else {
        var front, last := init[..|init| - 1], init[|init| - 1];
        assert init == front + [last];
        ConcatAppend(front, last);
        ConcatAppend(front, last + [c]);
      }
    }
  }

  /** There is one piece more than there are upper-case letters and digits. */
  lemma {:induction false} PiecesCount(s: string)
    ensures |Pieces(s)| == CountMarks(s) + 1
  {
    if s != [] {
      PiecesCount(s[..|s| - 1]);
    }
  }

  /** A later piece of a cut: a mark followed by characters that are not marks. */
  predicate MarkPiece(piece: string) {
    piece != [] && IsUpperOrDigit(piece[0]) && NoMarks(piece[1..])
  }

  /**
   * A cut of a text into pieces where the first piece holds no upper-case
   * letter or digit and every later piece holds exactly one, at its first position.
   */
  predicate CutAtMarks(parts: seq<string>) {
    && |parts| >= 1
    && NoMarks(parts[0])
    && forall i :: 1 <= i < |parts| ==> MarkPiece(parts[i])
  }

  /** A cut with one more piece at the end: the first piece has no marks, every later one is a mark piece. */
  lemma CutSnoc(front: seq<string>, last: string)
    ensures CutAtMarks(front + [last])
        <==> if front == [] then NoMarks(last) else CutAtMarks(front) && MarkPiece(last)
  {
    var parts := front + [last];
    if front == [] {
      assert parts == [last];
    } else {
      assert forall i :: 0 <= i < |front| ==> parts[i] == front[i];
      assert parts[|front|] == last;
    }
  }

  /** The pieces `Separate` collects are cut at the marks. */
  lemma {:induction false} PiecesShape(s: string)
    ensures CutAtMarks(Pieces(s))
  {
    if s == [] {
      assert Pieces(s) == [""];
    } else {
      var t, c := s[..|s| - 1], s[|s| - 1];
      PiecesShape(t);
      if IsUpperOrDigit(c) {
        ShapeAfterMark(Pieces(t), c);
      } else {
        ShapeAfterOther(Pieces(t), c);
      }
    }
  }

  /** A mark opens a new piece of its own. */
  lemma ShapeAfterMark(init: seq<string>, c: char)
    requires CutAtMarks(init) && IsUpperOrDigit(c)
    ensures CutAtMarks(init + [[c]])
  {
    CutSnoc(init, [c]);
    assert MarkPiece([c]);
  }

  /** Any other character extends the last piece, which keeps its shape. */
  lemma ShapeAfterOther(init: seq<string>, c: char)
    requires CutAtMarks(init) && !IsUpperOrDigit(c)
    ensures CutAtMarks(init[..|init| - 1] + [init[|init| - 1] + [c]])
  {
    var front, last := init[..|init| - 1], init[|init| - 1];
    assert init == front + [last];
    CutSnoc(front, last);
    CutSnoc(front, last + [c]);
    if front != [] {
      assert (last + [c])[1..] == last[1..] + [c];
    }
  }

  /**
   * The pieces are the only cut at the marks that puts the text back together:
   * any such cut of `s` is `Pieces(s)`.
   */
  lemma {:induction false} PiecesUnique(s: string, parts: seq<string>)
    requires CutAtMarks(parts) && Concat(parts) == s
    ensures parts == Pieces(s)
    decreases |s|
  {
    if s == [] {
      CutOfEmpty(parts);
    } else {
      var t, c := s[..|s| - 1], s[|s| - 1];
      assert s == t + [c];
      PiecesSnoc(t, c);
      if IsUpperOrDigit(c) {
        CutEndingInMark(parts, t, c);
        PiecesUnique(t, parts[..|parts| - 1]);
      } else {
        var parts' := CutEndingInOther(parts, t, c);
        PiecesUnique(t, parts');
      }
    }
  }

  lemma CutOfEmpty(parts: seq<string>)
    requires CutAtMarks(parts) && Concat(parts) == []
    ensures parts == [""]
  {
    var n := |parts|;
    ConcatAppend(parts[..n - 1], parts[n - 1]);
    assert parts == parts[..n - 1] + [parts[n - 1]];
  }

  lemma SnocInjective(a: string, b: string, x: char, y: char)
    requires a + [x] == b + [y]
    ensures a == b && x == y
  {
    assert a == (a + [x])[..|a|] && b == (b + [y])[..|b|];
    assert x == (a + [x])[|a|] && y == (b + [y])[|b|];
  }

  /** When `a + last` is `t + [c]` and `last` is not empty, `last` ends in `c` and the rest of it ends `t`. */
  lemma LastChar(a: string, last: string, t: string, c: char)
    requires a + last == t + [c] && last != []
    ensures last[|last| - 1] == c && a + last[..|last| - 1] == t
  {
    var shorter := last[..|last| - 1];
    assert a + last == (a + shorter) + [last[|last| - 1]];
    SnocInjective(a + shorter, t, last[|last| - 1], c);
  }

  lemma NoMarksLast(x: string, t: string, c: char)
    ensures x == t + [c] && NoMarks(x) ==> !IsUpperOrDigit(c)
  {
    if x == t + [c] {
      assert x[|t|] == c;
    }
  }

  lemma NoMarksTail(x: string)
    requires x != [] && NoMarks(x[1..])
    ensures |x| > 1 ==> !IsUpperOrDigit(x[|x| - 1])
  {
    if |x| > 1 {
      assert x[1..][|x| - 2] == x[|x| - 1];
    }
  }

  /** When the text ends in a mark, the last piece of a cut is that mark alone. */
  lemma CutEndingInMark(parts: seq<string>, t: string, c: char)
    requires CutAtMarks(parts) && Concat(parts) == t + [c] && IsUpperOrDigit(c)
    ensures |parts| >= 2 && parts == parts[..|parts| - 1] + [[c]]
    ensures CutAtMarks(parts[..|parts| - 1]) && Concat(parts[..|parts| - 1]) == t
  {
    var n := |parts|;
    var front, last := parts[..n - 1], parts[n - 1];
    assert parts == front + [last];
    CutSnoc(front, last);
    ConcatAppend(front, last);
    NoMarksLast(last, t, c);
    assert front != [] && MarkPiece(last);
    LastChar(Concat(front), last, t, c);
    NoMarksTail(last);
    assert last == [c];
  }

  /** When the text ends in another character, dropping it from the last piece leaves a cut of the rest. */
  lemma CutEndingInOther(parts: seq<string>, t: string, c: char) returns (parts': seq<string>)
    requires CutAtMarks(parts) && Concat(parts) == t + [c] && !IsUpperOrDigit(c)
    ensures |parts'| == |parts| && CutAtMarks(parts') && Concat(parts') == t
    ensures parts == parts'[..|parts'| - 1] + [parts'[|parts'| - 1] + [c]]
  {
    var n := |parts|;
    var front, last := parts[..n - 1], parts[n - 1];
    assert parts == front + [last];
    CutSnoc(front, last);
    ConcatAppend(front, last);
    assert last != [] by {
      if front == [] {
        assert last == t + [c];
      }
    }
    LastChar(Concat(front), last, t, c);
    var shorter := last[..|last| - 1];
    assert last == shorter + [c];
    parts' := front + [shorter];
    ConcatAppend(front, shorter);
    CutSnoc(front, shorter);
    if front != [] {
      NoMarksTail(last);
      assert shorter[1..] == last[1..][..|last| - 2];
    }
    assert parts'[..n - 1] == front;
  }

  /** The length of a join: all the parts, plus one separator between each two. */
  lemma {:induction false} JoinLength(separator: string, parts: seq<string>)
    requires parts != []
    ensures |Text.Join(separator, parts)| == |Concat(parts)| + |separator| * (|parts| - 1)
  {
    if |parts| > 1 {
      JoinLength(separator, parts[1..]);
    }
  }

  /** The caption is the input with one space inserted before every upper-case letter and digit. */
  lemma SeparateLength(s: string)
    ensures |Text.Join(" ", Pieces(s))| == |s| + CountMarks(s)
  {
    JoinLength(" ", Pieces(s));
    PiecesConcat(s);
    PiecesCount(s);
  }

  /** Empty text gives an empty caption. */
  lemma EmptyCaption()
    ensures Text.Join(" ", Pieces("")) == ""
  {
  }

  /** A leading capital or digit yields an empty first piece, so the caption starts with a space. */
  lemma LeadingMarkGivesLeadingSpace(s: string)
    requires s != [] && IsUpperOrDigit(s[0])
    ensures Pieces(s)[0] == []
    ensures Text.Join(" ", Pieces(s))[0] == ' '
  {
    PiecesShape(s);
    PiecesConcat(s);
    var p := Pieces(s);
    assert s == p[0] + Concat(p[1..]);
    assert |p| > 1;
    assert Text.Join(" ", p) == p[0] + " " + Text.Join(" ", p[1..]);
  }

  /** "Hello" is captioned " Hello". */
  lemma HelloCaption(s: string)
    requires s == "Hello"
    ensures Text.Join(" ", Pieces(s)) == " Hello"
  {
    var parts := ["", "Hello"];
    assert CutAtMarks(parts);
    assert Concat(parts) == s;
    PiecesUnique(s, parts);
  }

  /** "empsSkipFirst10" is captioned "emps Skip First 1 0". */
  lemma EmployeesCaption(s: string)
    requires s == "empsSkipFirst10"
    ensures Text.Join(" ", Pieces(s)) == "emps Skip First 1 0"
  {
    var parts := ["emps", "Skip", "First", "1", "0"];
    EmployeesCut(parts);
    EmployeesConcat(s, parts);
    EmployeesJoin(parts);
    PiecesUnique(s, parts);
  }

  lemma EmployeesCut(parts: seq<string>)
    requires parts == ["emps", "Skip", "First", "1", "0"]
    ensures CutAtMarks(parts)
  {
    assert NoMarks(parts[0]);
    assert MarkPiece(parts[1]) && MarkPiece(parts[2]) && MarkPiece(parts[3]) && MarkPiece(parts[4]);
  }

  lemma EmployeesConcat(s: string, parts: seq<string>)
    requires s == "empsSkipFirst10" && parts == ["emps", "Skip", "First", "1", "0"]
    ensures Concat(parts) == s
  {
    ConcatCons(parts[4], []);
    ConcatCons(parts[3], parts[4..]);
    ConcatCons(parts[2], parts[3..]);
    ConcatCons(parts[1], parts[2..]);
    ConcatCons(parts[0], parts[1..]);
    assert parts[4..] == [parts[4]] + [] && parts[3..] == [parts[3]] + parts[4..];
    assert parts[2..] == [parts[2]] + parts[3..] && parts[1..] == [parts[1]] + parts[2..];
    assert parts == [parts[0]] + parts[1..];
  }

  lemma EmployeesJoin(parts: seq<string>)
    requires parts == ["emps", "Skip", "First", "1", "0"]
    ensures Text.Join(" ", parts) == "emps Skip First 1 0"
  {
    JoinCons(parts[3], parts[4..]);
    JoinCons(parts[2], parts[3..]);
    JoinCons(parts[1], parts[2..]);
    JoinCons(parts[0], parts[1..]);
    assert parts[3..] == [parts[3]] + parts[4..] && parts[2..] == [parts[2]] + parts[3..];
    assert parts[1..] == [parts[1]] + parts[2..] && parts == [parts[0]] + parts[1..];
  }

  lemma JoinCons(first: string, rest: seq<string>)
    requires rest != []
    ensures Text.Join(" ", [first] + rest) == first + " " + Text.Join(" ", rest)
  {
    assert ([first] + rest)[1..] == rest;
  }

  lemma ConcatCons(first: string, rest: seq<string>)
    ensures Concat([first] + rest) == first + Concat(rest)
  {
    assert ([first] + rest)[1..] == rest;
  }
}
