/**
  The question grouper: rows of the page-mapping table are filed under their
  main question "Q<digits>", where the digits are the leading run of digits
  of the stripped `Q` cell; rows without a leading digit (a TOTAL row) are
  dropped. Groups are later processed in Python's string order of their keys.
*/
module Grouping {
  import opened Wrappers
  import opened Text

  /** One row of the page-mapping table: its `Q`, `Question Page Map` and `Mark scheme page map` cells. */
  datatype Row = Row(q: string, questionPages: Option<string>, markSchemePages: Option<string>)

  /** The match of `^(\d+)` on ASCII digits: the longest run of ASCII digits that starts s. */
  function LeadingDigits(s: string): (d: string)
    ensures AllDigits(d) && |d| <= |s| && d == s[..|d|]
    ensures |d| == |s| || !IsDigit(s[|d|])
  {
    if |s| > 0 && IsDigit(s[0]) then [s[0]] + LeadingDigits(s[1..]) else []
  }

  /** The group key of a `Q` cell, or None when the row is dropped. */
  function MainKey(q: string): Option<string> {
    var d := LeadingDigits(Strip(q));
    if d == [] then None else Some("Q" + d)
  }

  /** A row is dropped exactly when its stripped id does not start with a digit. */
  lemma DroppedIff(q: string)
    ensures MainKey(q).None? <==> (Strip(q) == [] || !IsDigit(Strip(q)[0]))
  {
  }

  /**
    Two kept ids share a group exactly when their leading digit runs are the
    same text: "1a" and "1b(i)" share "Q1", while "01" and "1" do not.
  */
  lemma SameGroupIff(q1: string, q2: string)
    requires MainKey(q1).Some? && MainKey(q2).Some?
    ensures MainKey(q1) == MainKey(q2) <==> LeadingDigits(Strip(q1)) == LeadingDigits(Strip(q2))
  {
    var d1, d2 := LeadingDigits(Strip(q1)), LeadingDigits(Strip(q2));
    if MainKey(q1) == MainKey(q2) {
      assert ("Q" + d1)[1..] == d1 && ("Q" + d2)[1..] == d2;
    }
  }

  /** Sub-parts share the key of their main question. */
  lemma KeySubParts()
    ensures MainKey("1") == Some("Q1") && MainKey("1a") == Some("Q1") && MainKey("1b(i)") == Some("Q1")
  {
    StripNoSpace("1");
    StripNoSpace("1a");
    StripNoSpace("1b(i)");
    assert LeadingDigits("1") == "1";
    assert LeadingDigits("1a") == "1";
    assert LeadingDigits("1b(i)") == "1";
    assert "Q" + "1" == "Q1";
  }

  /** Whitespace around the id is ignored. */
  lemma KeyPadded()
    ensures MainKey(" 12c ") == Some("Q12")
  {
    assert TrimStart(" 12c ") == "12c ";
    assert TrimEnd("12c ") == "12c";
    assert Strip(" 12c ") == "12c";
    assert LeadingDigits("12c") == "12";
    assert "Q" + "12" == "Q12";
  }

  /** The digits are kept as text, so a leading zero makes a different group. */
  lemma KeyLeadingZero()
    ensures MainKey("01") == Some("Q01") && MainKey("01") != MainKey("1")
  {
    StripNoSpace("01");
    StripNoSpace("1");
    assert LeadingDigits("01") == "01";
    assert LeadingDigits("1") == "1";
    assert "Q" + "01" == "Q01" && "Q" + "1" == "Q1";
  }

  /** A row whose id does not start with a digit, such as a totals row, is dropped. */
  lemma KeyTotalsRow()
    ensures MainKey("TOTAL") == None
  {
    StripNoSpace("TOTAL");
  }

  /** Reading a defaultdict(list): a missing key reads as the empty list. */
  function Lookup(m: map<string, seq<Row>>, k: string): seq<Row> {
    if k in m then m[k] else []
  }

  /**
    The effect of the grouping loop: each kept row, in table order, is
    appended to the list under its key.
  */
  function GroupInto(m: map<string, seq<Row>>, rows: seq<Row>): map<string, seq<Row>>
  {
    if rows == [] then m
    else
      var g := GroupInto(m, rows[..|rows| - 1]);
      var row := rows[|rows| - 1];
      match MainKey(row.q)
      case None => g
      case Some(k) => g[k := Lookup(g, k) + [row]]
  }

  /** The rows of the table whose key is k, in table order. */
  function RowsWithKey(rows: seq<Row>, k: string): (g: seq<Row>)
    ensures |g| <= |rows|
  {
    if rows == [] then []
    else
      var row := rows[|rows| - 1];
      RowsWithKey(rows[..|rows| - 1], k) + (if MainKey(row.q) == Some(k) then [row] else [])
  }

  /** Every selected row carries the key. */
  lemma {:induction false} RowsWithKeyCarryKey(rows: seq<Row>, k: string)
    ensures forall i :: 0 <= i < |RowsWithKey(rows, k)| ==> MainKey(RowsWithKey(rows, k)[i].q) == Some(k)
  {
    if rows != [] {
      var init := rows[..|rows| - 1];
      RowsWithKeyCarryKey(init, k);
      var g := RowsWithKey(rows, k);
      var before := RowsWithKey(init, k);
      forall i | 0 <= i < |g| ensures MainKey(g[i].q) == Some(k) {
        if i < |before| {
          assert g[i] == before[i];
        }
      }
    }
  }

  /**
    Grouping appends to every key exactly the rows carrying it, in table
    order, and creates a key only when some row carries it.
  */
  lemma {:induction false} GroupIntoSpec(m: map<string, seq<Row>>, rows: seq<Row>, k: string)
    ensures Lookup(GroupInto(m, rows), k) == Lookup(m, k) + RowsWithKey(rows, k)
    ensures k in GroupInto(m, rows) <==> k in m || RowsWithKey(rows, k) != []
  {
    if rows != [] {
      var init := rows[..|rows| - 1];
      var row := rows[|rows| - 1];
      GroupIntoSpec(m, init, k);
      var g := GroupInto(m, init);
      assert RowsWithKey(rows, k) == RowsWithKey(init, k) + (if MainKey(row.q) == Some(k) then [row] else []);
      match MainKey(row.q)
      case None =>
        assert GroupInto(m, rows) == g;
      case Some(k') =>
        assert GroupInto(m, rows) == g[k' := Lookup(g, k') + [row]];
        if k' == k {
          assert Lookup(GroupInto(m, rows), k) == Lookup(g, k) + [row];
        } else {
          assert Lookup(GroupInto(m, rows), k) == Lookup(g, k);
        }
    }
  }

  /** Every row in a group carries that group's key, so a row lands in one group at most. */
  lemma GroupMembersCarryKey(rows: seq<Row>, k: string, row: Row)
    requires k in GroupInto(map[], rows) && row in GroupInto(map[], rows)[k]
    ensures MainKey(row.q) == Some(k)
  {
    GroupIntoSpec(map[], rows, k);
    RowsWithKeyCarryKey(rows, k);
    var g := GroupInto(map[], rows)[k];
    var i :| 0 <= i < |g| && g[i] == row;
  }

  /** A row that has a key is found in the group of that key. */
  lemma {:induction false} KeptRowIsGrouped(rows: seq<Row>, i: nat)
    requires i < |rows| && MainKey(rows[i].q).Some?
    ensures var k := MainKey(rows[i].q).value;
      k in GroupInto(map[], rows) && rows[i] in GroupInto(map[], rows)[k]
  {
    var k := MainKey(rows[i].q).value;
    RowWithKeySelected(rows, i, k);
    GroupIntoSpec(map[], rows, k);
  }

  lemma {:induction false} RowWithKeySelected(rows: seq<Row>, i: nat, k: string)
    requires i < |rows| && MainKey(rows[i].q) == Some(k)
    ensures rows[i] in RowsWithKey(rows, k)
  {
    if i < |rows| - 1 {
      RowWithKeySelected(rows[..|rows| - 1], i, k);
    }
  }

  /** A dropped row is in no group. */
  lemma DroppedRowIsNotGrouped(rows: seq<Row>, row: Row, k: string)
    requires MainKey(row.q).None? && k in GroupInto(map[], rows)
    ensures row !in GroupInto(map[], rows)[k]
  {
    if row in GroupInto(map[], rows)[k] {
      GroupMembersCarryKey(rows, k, row);
    }
  }

  /** k is a least element of keys in Python's string order. */
  predicate IsLeastKey(k: string, keys: set<string>) {
    k in keys && forall j :: j in keys ==> !LexLess(j, k)
  }

  /** A non-empty finite set of strings has a least element in Python's string order. */
  lemma {:induction false} LeastKeyExists(keys: set<string>)
    requires keys != {}
    ensures exists k :: IsLeastKey(k, keys)
  {
    var x :| x in keys;
    var rest := keys - {x};
    if rest == {} {
      assert keys == {x};
      LexLessIrreflexive(x);
      assert IsLeastKey(x, keys);
    } else {
      LeastKeyExists(rest);
      var m :| IsLeastKey(m, rest);
      if LexLess(x, m) {
        forall j | j in keys
          ensures !LexLess(j, x)
        {
          if j != x && LexLess(j, x) {
            LexLessTransitive(j, x, m);
          }
          LexLessIrreflexive(x);
        }
        assert IsLeastKey(x, keys);
      } else {
        forall j | j in keys
          ensures !LexLess(j, m)
        {
          if j != x {
            assert j in rest;
          }
        }
        assert IsLeastKey(m, keys);
      }
    }
  }

  /** `sorted(keys)`: the keys in ascending Python string order, each once. */
  method SortedKeys(keys: set<string>) returns (ks: seq<string>)
    ensures forall i, j :: 0 <= i < j < |ks| ==> LexLess(ks[i], ks[j])
    ensures forall k :: k in ks <==> k in keys
  {
    ks := [];
    var rest := keys;
    while rest != {}
      invariant forall i, j :: 0 <= i < j < |ks| ==> LexLess(ks[i], ks[j])
      invariant forall i, k :: 0 <= i < |ks| && k in rest ==> LexLess(ks[i], k)
      invariant forall k :: k in keys <==> k in ks || k in rest
      invariant forall k :: k in rest ==> k !in ks
      decreases rest
    {
      LeastKeyExists(rest);
      var m :| IsLeastKey(m, rest);
      forall k | k in rest - {m}
        ensures LexLess(m, k)
      {
        LexLessTotal(m, k);
      }
      ks := ks + [m];
      rest := rest - {m};
    }
  }

  /** Python orders "Q10" before "Q2", so question 10 is collated before question 2. */
  lemma KeyOrderIsTextual()
    ensures LexLess("Q10", "Q2") && LexLess("Q1", "Q10")
  {
  }
}
