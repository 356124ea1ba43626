/**
  The page-range mini-language of the page-mapping table
  (ExamCollator.parse_page_range): a missing cell, a single page number
  "8", or an inclusive range "8-10".
*/
module PageRange {
  import opened Wrappers
  import opened Text

  /** The ValueError raised while converting a cell. */
  datatype ParseError =
    | NotAnInteger(text: string)   // int() rejected this text
    | TooManyValues                // `start, end = ...` received three or more values

  predicate Increasing(s: seq<nat>) {
    forall i, j :: 0 <= i < j < |s| ==> s[i] < s[j]
  }

  /**
    Python's `int(t)` on text that holds no '-': surrounding whitespace is
    ignored, one leading '+' is allowed, and the rest must be decimal digits.
  */
  function ParseInt(t: string): Option<nat> {
    var u := Strip(t);
    var ds := if |u| > 0 && u[0] == '+' then u[1..] else u;
    if |ds| > 0 && AllDigits(ds) then Some(DigitsValue(ds)) else None
  }

  /** Python's `list(range(a, b + 1))`: empty when a > b. */
  function Range(a: nat, b: nat): (r: seq<nat>)
    ensures Increasing(r)
    ensures forall x :: x in r <==> a <= x <= b
  {
    var r := seq(if a <= b then b - a + 1 else 0, i requires 0 <= i => a + i);
    RangeMembers(a, b, r);
    r
  }

  lemma RangeMembers(a: nat, b: nat, r: seq<nat>)
    requires |r| == if a <= b then b - a + 1 else 0
    requires forall i :: 0 <= i < |r| ==> r[i] == a + i
    ensures forall x :: x in r <==> a <= x <= b
  {
    forall x | a <= x <= b
      ensures x in r
    {
      assert r[x - a] == x;
    }
  }

  /**
    parse_page_range: a missing cell gives no pages; text with a '-' is
    split on it and both sides converted (the conversion of a third side, if
    any, still happens before the unpacking fails); anything else is one page.
  */
  function ParsePageRange(cell: Option<string>): (r: Result<seq<nat>, ParseError>)
    ensures cell.None? ==> r == Ok([])
    ensures r.Ok? ==> Increasing(r.value)
    ensures r.Ok? && cell.Some? ==> Count(Strip(cell.value), '-') <= 1
  {
    match cell
    case None => Ok([])
    case Some(raw) =>
      var s := Strip(raw);
      SplitCount(s, '-');
      if '-' in s then
        var parts := Split(s, '-');
        match ParseInt(parts[0])
        case None => Err(NotAnInteger(parts[0]))
        case Some(a) =>
          match ParseInt(parts[1])
          case None => Err(NotAnInteger(parts[1]))
          case Some(b) =>
            if |parts| == 2 then Ok(Range(a, b))
            else if ParseInt(parts[2]).None? then Err(NotAnInteger(parts[2]))
            else Err(TooManyValues)
      else
        match ParseInt(s)
        case None => Err(NotAnInteger(s))
        case Some(n) => Ok([n])
  }

  /** int() reads back what str() wrote. */
  lemma ParseIntNatToString(n: nat)
    ensures ParseInt(NatToString(n)) == Some(n)
  {
    var t := NatToString(n);
    NatToStringDigits(n);
    StripNoSpace(t);
  }

  /** A cell holding one page number parses to exactly that page. */
  lemma ParseSinglePage(n: nat)
    ensures ParsePageRange(Some(NatToString(n))) == Ok([n])
  {
    var t := NatToString(n);
    NatToStringDigits(n);
    StripNoSpace(t);
    ParseIntNatToString(n);
  }

  /** A cell whose stripped text is `left-right`, both sides numbers, is the range between them. */
  lemma ParseTwoSides(raw: string, left: string, right: string, a: nat, b: nat)
    requires Strip(raw) == left + "-" + right
    requires '-' !in left && '-' !in right
    requires ParseInt(left) == Some(a) && ParseInt(right) == Some(b)
    ensures ParsePageRange(Some(raw)) == Ok(Range(a, b))
  {
    SplitAround(left, '-', right);
    assert Strip(raw)[|left|] == '-';
  }

  /** A cell "a-b" parses to the inclusive ascending range a..b, which is empty when a > b. */
  lemma ParseRangeRoundTrip(a: nat, b: nat)
    ensures ParsePageRange(Some(NatToString(a) + "-" + NatToString(b))) == Ok(Range(a, b))
    ensures a > b ==> Range(a, b) == []
  {
    var sa, sb := NatToString(a), NatToString(b);
    var t := sa + "-" + sb;
    NatToStringDigits(a);
    NatToStringDigits(b);
    assert t[0] == sa[0] && t[|t| - 1] == sb[|sb| - 1];
    StripNoSpace(t);
    assert '-' !in sa && '-' !in sb;
    ParseIntNatToString(a);
    ParseIntNatToString(b);
    ParseTwoSides(t, sa, sb, a, b);
  }

  lemma {:induction false} TrimStartSpaces(s: string, x: string)
    requires forall i :: 0 <= i < |s| ==> IsSpace(s[i])
    requires x == [] || !IsSpace(x[0])
    ensures TrimStart(s + x) == x
  {
    if s == [] {
      assert s + x == x;
      TrimStartNoSpace(x);
    } else {
      assert (s + x)[1..] == s[1..] + x;
      TrimStartSpaces(s[1..], x);
    }
  }

  lemma {:induction false} TrimEndSpaces(x: string, s: string)
    requires forall i :: 0 <= i < |s| ==> IsSpace(s[i])
    requires x == [] || !IsSpace(x[|x| - 1])
    ensures TrimEnd(x + s) == x
  {
    if s == [] {
      assert x + s == x;
      TrimEndNoSpace(x);
    } else {
      assert (x + s)[..|x + s| - 1] == x + s[..|s| - 1];
      TrimEndSpaces(x, s[..|s| - 1]);
    }
  }

  /** A blank on either side of a word is stripped away. */
  lemma StripPadded(x: string)
    requires x != [] && !IsSpace(x[0]) && !IsSpace(x[|x| - 1])
    ensures Strip(" " + x) == x && Strip(x + " ") == x && Strip(" " + x + " ") == x
  {
    TrimStartSpaces(" ", x);
    TrimEndNoSpace(x);
    TrimStartNoSpace(x + " ");
    TrimEndSpaces(x, " ");
    TrimStartSpaces(" ", x + " ");
    assert " " + x + " " == " " + (x + " ");
  }

  /** A word that neither starts nor ends with whitespace and holds no '-'. */
  predicate Word(x: string) {
    x != [] && !IsSpace(x[0]) && !IsSpace(x[|x| - 1]) && '-' !in x
  }

  lemma StripSpacedRange(raw: string, sa: string, sb: string)
    requires raw == " " + sa + " - " + sb + " "
    requires Word(sa) && Word(sb)
    ensures Strip(raw) == (sa + " ") + "-" + (" " + sb)
  {
    var core := sa + " - " + sb;
    assert core[0] == sa[0] && core[|core| - 1] == sb[|sb| - 1];
    StripPadded(core);
    assert raw == " " + core + " ";
  }

  lemma ParseIntPadded(x: string, n: nat)
    requires Word(x) && ParseInt(x) == Some(n)
    ensures ParseInt(x + " ") == Some(n) && ParseInt(" " + x) == Some(n)
  {
    StripPadded(x);
  }

  lemma ParseSpaced(raw: string, sa: string, sb: string, a: nat, b: nat)
    requires raw == " " + sa + " - " + sb + " "
    requires Word(sa) && Word(sb)
    requires ParseInt(sa) == Some(a) && ParseInt(sb) == Some(b)
    ensures ParsePageRange(Some(raw)) == Ok(Range(a, b))
  {
    ParseIntPadded(sa, a);
    ParseIntPadded(sb, b);
    StripSpacedRange(raw, sa, sb);
    assert '-' !in sa + " " && '-' !in " " + sb;
    ParseTwoSides(raw, sa + " ", " " + sb, a, b);
  }

  /** A rendered number is a word that int() reads back. */
  lemma NatToStringWord(n: nat)
    ensures Word(NatToString(n)) && ParseInt(NatToString(n)) == Some(n)
  {
    NatToStringDigits(n);
    assert Word(NatToString(n));
    ParseIntNatToString(n);
  }

  /** int() tolerates whitespace around each side of the range: " a - b " reads as a..b. */
  lemma ParseSpacedRange(a: nat, b: nat)
    ensures ParsePageRange(Some(" " + NatToString(a) + " - " + NatToString(b) + " ")) == Ok(Range(a, b))
  {
    NatToStringWord(a);
    NatToStringWord(b);
    ParseSpaced(" " + NatToString(a) + " - " + NatToString(b) + " ", NatToString(a), NatToString(b), a, b);
  }

  predicate NoDigit(s: string) {
    forall i :: 0 <= i < |s| ==> !IsDigit(s[i])
  }

  lemma NoDigitStrip(s: string)
    requires NoDigit(s)
    ensures NoDigit(Strip(s))
  {
    var m := TrimStart(s);
    var k := |s| - |m|;
    TrimStartIsSuffix(s);
    assert forall i :: 0 <= i < |m| ==> m[i] == s[k + i];
    var u := TrimEnd(m);
    TrimEndIsPrefix(m);
    assert forall i :: 0 <= i < |u| ==> u[i] == m[i];
  }

  lemma NoDigitParseInt(t: string)
    requires NoDigit(t)
    ensures ParseInt(t).None?
  {
    NoDigitStrip(t);
    var u := Strip(t);
    if |u| > 0 && u[0] == '+' {
      assert |u[1..]| > 0 ==> u[1..][0] == u[1];
    }
  }

  /** A cell without a single digit is a format error (e.g. "x", "TOTAL", "-"). */
  lemma NoDigitFails(raw: string)
    requires NoDigit(raw)
    ensures ParsePageRange(Some(raw)).Err?
  {
    NoDigitStrip(raw);
    var s := Strip(raw);
    if '-' in s {
      var p := Split(s, '-')[0];
      assert forall i :: 0 <= i < |p| ==> p[i] == s[i];
      NoDigitParseInt(p);
    } else {
      NoDigitParseInt(s);
    }
  }

  /** What int() accepts: the stripped text is non-empty and all digits, except for one leading '+'. */
  lemma ParseIntDigitsOnly(t: string)
    ensures ParseInt(t).Some? ==>
      var u := Strip(t);
      |u| > 0 && forall i :: 0 <= i < |u| ==> IsDigit(u[i]) || (i == 0 && u[i] == '+')
  {
    var u := Strip(t);
    if ParseInt(t).Some? && |u| > 0 && u[0] == '+' {
      assert forall i :: 1 <= i < |u| ==> u[i] == u[1..][i - 1];
    }
  }

  /** A character that can never appear in a cell that converts: not a digit, sign, '-' or whitespace. */
  predicate Stray(c: char) {
    !IsDigit(c) && c != '+' && c != '-' && !IsSpace(c)
  }

  /** A character that is not whitespace survives stripping, at its place after the leading whitespace. */
  lemma NonSpaceKept(t: string, i: nat)
    requires i < |t| && !IsSpace(t[i])
    ensures var lead := |t| - |TrimStart(t)|;
      lead <= i < lead + |Strip(t)| && Strip(t)[i - lead] == t[i]
  {
    StripSurround(t);
  }

  /** int() rejects text holding a stray character. */
  lemma ParseIntStray(t: string, i: nat)
    requires i < |t| && Stray(t[i])
    ensures ParseInt(t).None?
  {
    NonSpaceKept(t, i);
    ParseIntDigitsOnly(t);
  }

  /**
    The converse of ParseTwoSides and ParseSinglePage: a cell that converts
    is either one number, or exactly two numbers around a single '-', and its
    pages are that number or the range between the two.
  */
  lemma ParsePageRangeOk(raw: string)
    requires ParsePageRange(Some(raw)).Ok?
    ensures var s, r := Strip(raw), ParsePageRange(Some(raw)).value;
      && ('-' !in s ==> ParseInt(s).Some? && r == [ParseInt(s).value])
      && ('-' in s ==>
            var parts := Split(s, '-');
            && |parts| == 2 && s == parts[0] + "-" + parts[1]
            && '-' !in parts[0] && '-' !in parts[1]
            && ParseInt(parts[0]).Some? && ParseInt(parts[1]).Some?
            && r == Range(ParseInt(parts[0]).value, ParseInt(parts[1]).value))
  {
    var s := Strip(raw);
    if '-' in s {
      var parts := Split(s, '-');
      JoinSplit(s, '-');
      SplitPartsFree(s, '-');
      assert |parts| == 2;
      assert Join(parts[1..], '-') == parts[1];
    }
  }

  /** A cell holding a stray character is a format error (e.g. "8a", "8,9", "8.0", "8-x"). */
  lemma StrayFails(raw: string, i: nat)
    requires i < |raw| && Stray(raw[i])
    ensures ParsePageRange(Some(raw)).Err?
  {
    if ParsePageRange(Some(raw)).Ok? {
      NonSpaceKept(raw, i);
      var s := Strip(raw);
      var k := i - (|raw| - |TrimStart(raw)|);
      assert Stray(s[k]);
      ParsePageRangeOk(raw);
      if '-' !in s {
        ParseIntStray(s, k);
      } else {
        var parts := Split(s, '-');
        StraySide(s, parts[0], parts[1], k);
      }
    }
  }

  /** A stray character around a '-' lies in one of the two sides, and that side does not convert. */
  lemma StraySide(s: string, left: string, right: string, k: nat)
    requires s == left + "-" + right && k < |s| && Stray(s[k])
    ensures ParseInt(left).None? || ParseInt(right).None?
  {
    if k < |left| {
      assert s[k] == left[k];
      ParseIntStray(left, k);
    } else {
      assert k != |left|;
      assert s[k] == right[k - |left| - 1];
      ParseIntStray(right, k - |left| - 1);
    }
  }

  /** Cells the table must not hold: a letter, a comma list, a decimal point, a non-numeric side. */
  lemma ExamplesRejected()
    ensures ParsePageRange(Some("8a")).Err?
    ensures ParsePageRange(Some("8,9")).Err?
    ensures ParsePageRange(Some("8.0")).Err?
    ensures ParsePageRange(Some("8-x")).Err?
  {
    StrayFails("8a", 1);
    StrayFails("8,9", 1);
    StrayFails("8.0", 1);
    StrayFails("8-x", 2);
  }

  /** Concrete cases from the mapping table: "8" is page 8 alone. */
  lemma ExampleSingle()
    ensures ParsePageRange(Some("8")) == Ok([8])
  {
    ParseSinglePage(8);
  }

  /** "8-10" is pages 8, 9 and 10. */
  lemma ExampleRange()
    ensures ParsePageRange(Some("8-10")) == Ok([8, 9, 10])
  {
    RenderedEight();
    ParseRangeRoundTrip(8, 10);
    RangeEightToTen();
  }

  lemma RenderedEight()
    ensures NatToString(8) + "-" + NatToString(10) == "8-10"
  {
    assert NatToString(10) == "10";
  }

  lemma RangeEightToTen()
    ensures Range(8, 10) == [8, 9, 10]
  {
  }

  /** "10-8" is no pages at all, not an error. */
  lemma ExampleReversed()
    ensures ParsePageRange(Some("10-8")) == Ok([])
  {
    assert NatToString(10) == "10";
    assert NatToString(10) + "-" + NatToString(8) == "10-8";
    ParseRangeRoundTrip(10, 8);
  }
}
