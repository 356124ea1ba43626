/**
  Per-question collation (collate_question): the union of a group's
  question pages and mark-scheme pages, the pages each student actually
  has, and one composed page per (student, page) with its label.
*/
module Collation {
  import opened Wrappers
  import opened Text
  import opened PageRange
  import opened Grouping
  import opened Layout

  /** A student response document: its display name (file name without extension) and its page count. */
  datatype Student = Student(name: string, pageCount: nat)

  /** The fatal conditions of a collation run. */
  datatype CollateError =
    | BadPageRange(error: ParseError)
    | MarkSchemePageMissing(page: nat)
    | StudentPageMissing(student: string, page: nat)
    /** Saving a document without pages: the PDF library refuses it. */
    | EmptyDocument(file: string)

  function Elems(s: seq<nat>): set<nat> {
    set x | x in s
  }

  /**
    The question-page and mark-scheme-page sets of a group's rows (the two
    `update` calls), or the first conversion error in table order, the
    question cell of a row being converted before its mark-scheme cell.
  */
  function RowPageSets(rows: seq<Row>): Result<(set<nat>, set<nat>), ParseError> {
    if rows == [] then Ok(({}, {}))
    else
      match RowPageSets(rows[..|rows| - 1])
      case Err(e) => Err(e)
      case Ok(sets) =>
        var row := rows[|rows| - 1];
        match ParsePageRange(row.questionPages)
        case Err(e) => Err(e)
        case Ok(q) =>
          match ParsePageRange(row.markSchemePages)
          case Err(e) => Err(e)
          case Ok(m) => Ok((sets.0 + Elems(q), sets.1 + Elems(m)))
  }

  /** One step of the fold: the last row's parsed cells are added to the sets of the rows before it. */
  lemma RowPageSetsStep(rows: seq<Row>)
    requires rows != [] && RowPageSets(rows).Ok?
    ensures var init, row := rows[..|rows| - 1], rows[|rows| - 1];
      RowPageSets(init).Ok? && ParsePageRange(row.questionPages).Ok? && ParsePageRange(row.markSchemePages).Ok? &&
      RowPageSets(rows).value ==
        (RowPageSets(init).value.0 + Elems(ParsePageRange(row.questionPages).value),
         RowPageSets(init).value.1 + Elems(ParsePageRange(row.markSchemePages).value))
  {
  }

  /** The two page columns of the mapping table. */
  datatype Column = QuestionColumn | MarkSchemeColumn

  /** The cell of a row in the given column. */
  function Cell(row: Row, col: Column): Option<string> {
    if col == QuestionColumn then row.questionPages else row.markSchemePages
  }

  /** The page set that collects the given column. */
  function SetOf(sets: (set<nat>, set<nat>), col: Column): set<nat> {
    if col == QuestionColumn then sets.0 else sets.1
  }

  /** Page p is in the parsed cell of the row in the given column. */
  predicate InCell(row: Row, col: Column, p: nat) {
    var r := ParsePageRange(Cell(row, col));
    r.Ok? && p in r.value
  }

  /** Every page of the collected set comes from some row's cell in that column. */
  lemma {:induction false} PageSetFromRows(rows: seq<Row>, col: Column, p: nat)
    requires RowPageSets(rows).Ok?
    ensures p in SetOf(RowPageSets(rows).value, col) ==> exists i :: 0 <= i < |rows| && InCell(rows[i], col, p)
  {
    if rows != [] {
      var init := rows[..|rows| - 1];
      RowPageSetsStep(rows);
      PageSetFromRows(init, col, p);
      if p in SetOf(RowPageSets(init).value, col) {
        var i :| 0 <= i < |init| && InCell(init[i], col, p);
        assert rows[i] == init[i];
      } else if p in SetOf(RowPageSets(rows).value, col) {
        assert InCell(rows[|rows| - 1], col, p);
      }
    }
  }

  /** Every page of every row's cell in a column is in the collected set. */
  lemma {:induction false} PageSetHasRow(rows: seq<Row>, col: Column, p: nat, i: nat)
    requires RowPageSets(rows).Ok?
    requires i < |rows| && InCell(rows[i], col, p)
    ensures p in SetOf(RowPageSets(rows).value, col)
  {
    RowPageSetsStep(rows);
    if i < |rows| - 1 {
      assert rows[..|rows| - 1][i] == rows[i];
      PageSetHasRow(rows[..|rows| - 1], col, p, i);
    }
  }

  /** Once a prefix of the rows fails to convert, the whole group fails with that error. */
  lemma {:induction false} RowPageSetsErrSticks(rows: seq<Row>, i: nat)
    requires i <= |rows| && RowPageSets(rows[..i]).Err?
    ensures RowPageSets(rows) == RowPageSets(rows[..i])
  {
    if i < |rows| {
      assert rows[..|rows| - 1][..i] == rows[..i];
      RowPageSetsErrSticks(rows[..|rows| - 1], i);
    } else {
      assert rows[..i] == rows;
    }
  }

  /** Both page cells of the row convert. */
  predicate RowConverts(row: Row) {
    ParsePageRange(row.questionPages).Ok? && ParsePageRange(row.markSchemePages).Ok?
  }

  predicate AllRowsConvert(rows: seq<Row>) {
    forall i :: 0 <= i < |rows| ==> RowConverts(rows[i])
  }

  lemma AllRowsConvertSnoc(rows: seq<Row>)
    requires rows != []
    ensures AllRowsConvert(rows) <==> AllRowsConvert(rows[..|rows| - 1]) && RowConverts(rows[|rows| - 1])
  {
    var init := rows[..|rows| - 1];
    assert forall i :: 0 <= i < |init| ==> init[i] == rows[i];
  }

  /** The page sets of a group are collected exactly when every cell of every row converts. */
  lemma {:induction false} RowPageSetsOkIff(rows: seq<Row>)
    ensures RowPageSets(rows).Ok? <==> AllRowsConvert(rows)
  {
    if rows != [] {
      var init := rows[..|rows| - 1];
      RowPageSetsOkIff(init);
      AllRowsConvertSnoc(rows);
      assert RowPageSets(rows).Ok? <==> RowPageSets(init).Ok? && RowConverts(rows[|rows| - 1]);
    }
  }

  /** xs is `sorted(s)`: the elements of s, ascending, each once. */
  ghost predicate SortedSetOf(xs: seq<nat>, s: set<nat>) {
    Increasing(xs) && forall x :: x in xs <==> x in s
  }

  /** m is the least member of s. */
  predicate IsLeast(m: nat, s: set<nat>) {
    m in s && forall x :: x in s ==> m <= x
  }

  lemma LeastExists(s: set<nat>)
    requires s != {}
    ensures exists m :: IsLeast(m, s)
  {
    var y :| y in s;
    LeastFrom(s, y);
  }

  /** Walking down from any member of s reaches its least member. */
  lemma {:induction false} LeastFrom(s: set<nat>, y: nat)
    requires y in s
    ensures exists m :: IsLeast(m, s)
    decreases y
  {
    if forall x :: x in s ==> y <= x {
      assert IsLeast(y, s);
    } else {
      var x :| x in s && x < y;
      LeastFrom(s, x);
    }
  }

  /** Every finite set of pages has a sorted listing. */
  lemma {:induction false} SortedExists(s: set<nat>)
    ensures exists xs :: SortedSetOf(xs, s)
  {
    if s == {} {
      assert SortedSetOf([], s);
    } else {
      LeastExists(s);
      var m :| IsLeast(m, s);
      SortedExists(s - {m});
      var ys :| SortedSetOf(ys, s - {m});
      SortedCons(m, ys, s);
    }
  }

  /** The least member followed by the sorted listing of the rest is the sorted listing of the whole. */
  lemma SortedCons(m: nat, ys: seq<nat>, s: set<nat>)
    requires IsLeast(m, s) && SortedSetOf(ys, s - {m})
    ensures SortedSetOf([m] + ys, s)
  {
    var xs := [m] + ys;
    forall i, j | 0 <= i < j < |xs|
      ensures xs[i] < xs[j]
    {
      if i > 0 {
        assert xs[i] == ys[i - 1] && xs[j] == ys[j - 1];
      } else {
        assert xs[j] in ys;
      }
    }
  }

  /** The sorted listing of a set is unique. */
  lemma {:induction false} SortedUnique(xs: seq<nat>, ys: seq<nat>, s: set<nat>)
    requires SortedSetOf(xs, s) && SortedSetOf(ys, s)
    ensures xs == ys
  {
    SortedEmptyIff(xs, s);
    SortedEmptyIff(ys, s);
    if s != {} {
      SortedHeadIsLeast(xs, s);
      SortedHeadIsLeast(ys, s);
      assert xs[0] in s && ys[0] in s;
      assert xs[0] <= ys[0] && ys[0] <= xs[0];
      var rest := s - {xs[0]};
      SortedTail(xs, s);
      SortedTail(ys, s);
      SortedUnique(xs[1..], ys[1..], rest);
      assert xs == [xs[0]] + xs[1..] && ys == [ys[0]] + ys[1..];
    }
  }

  lemma SortedHeadIsLeast(xs: seq<nat>, s: set<nat>)
    requires SortedSetOf(xs, s) && xs != []
    ensures forall x :: x in s ==> xs[0] <= x
  {
    forall x | x in s
      ensures xs[0] <= x
    {
      var k :| 0 <= k < |xs| && xs[k] == x;
      assert k == 0 || xs[0] < xs[k];
    }
  }

  lemma SortedEmptyIff(xs: seq<nat>, s: set<nat>)
    requires SortedSetOf(xs, s)
    ensures xs == [] <==> s == {}
  {
    if xs != [] {
      assert xs[0] in s;
    }
    if s != {} {
      var x :| x in s;
      assert x in xs;
    }
  }

  lemma SortedTail(xs: seq<nat>, s: set<nat>)
    requires SortedSetOf(xs, s) && xs != []
    ensures SortedSetOf(xs[1..], s - {xs[0]})
  {
    forall x | x in xs[1..]
      ensures x in s - {xs[0]}
    {
      var k :| 1 <= k < |xs| && xs[k] == x;
    }
    forall x | x in s - {xs[0]}
      ensures x in xs[1..]
    {
      var k :| 0 <= k < |xs| && xs[k] == x;
      assert k != 0;
      assert xs[1..][k - 1] == x;
    }
  }

  /** `sorted(s)`, the one sorted listing of s. */
  ghost function SortedOf(s: set<nat>): (xs: seq<nat>)
    ensures SortedSetOf(xs, s)
  {
    SortedExists(s);
    var xs :| SortedSetOf(xs, s);
    xs
  }

  /** `sorted(list(s))`. */
  method SortedList(s: set<nat>) returns (xs: seq<nat>)
    ensures SortedSetOf(xs, s)
  {
    xs := [];
    var rest := s;
    while rest != {}
      invariant Increasing(xs)
      invariant forall i, x :: 0 <= i < |xs| && x in rest ==> xs[i] < x
      invariant forall x :: x in s <==> x in xs || x in rest
      invariant forall x :: x in rest ==> x !in xs
      decreases rest
    {
      LeastExists(rest);
      var m :| IsLeast(m, rest);
      IncreasingSnoc(xs, m, rest);
      xs := xs + [m];
      rest := rest - {m};
    }
  }

  /** Appending the least remaining page keeps the listing ascending and below what remains. */
  lemma IncreasingSnoc(xs: seq<nat>, m: nat, rest: set<nat>)
    requires Increasing(xs) && IsLeast(m, rest)
    requires forall i, x :: 0 <= i < |xs| && x in rest ==> xs[i] < x
    ensures Increasing(xs + [m])
    ensures forall i, x :: 0 <= i < |xs + [m]| && x in rest - {m} ==> (xs + [m])[i] < x
  {
    forall i, x | 0 <= i < |xs + [m]| && x in rest - {m}
      ensures (xs + [m])[i] < x
    {
      if i < |xs| {
        assert (xs + [m])[i] == xs[i];
      }
    }
  }

  /** The loop over a group's rows: convert both cells of each row and add their pages to the two sets. */
  method CollectPageSets(rows: seq<Row>) returns (r: Result<(set<nat>, set<nat>), ParseError>)
    ensures r == RowPageSets(rows)
  {
    var questionPages: set<nat> := {};
    var markSchemePages: set<nat> := {};
    for i := 0 to |rows|
      invariant RowPageSets(rows[..i]) == Ok((questionPages, markSchemePages))
    {
      RowPageSetsSnoc(rows, i);
      var q := ParsePageRange(rows[i].questionPages);
      if q.Err? {
        RowPageSetsErrSticks(rows, i + 1);
        return Err(q.error);
      }
      var m := ParsePageRange(rows[i].markSchemePages);
      if m.Err? {
        RowPageSetsErrSticks(rows, i + 1);
        return Err(m.error);
      }
      questionPages := questionPages + Elems(q.value);
      markSchemePages := markSchemePages + Elems(m.value);
    }
    assert rows[..|rows|] == rows;
    r := Ok((questionPages, markSchemePages));
  }

  lemma RowPageSetsSnoc(rows: seq<Row>, i: nat)
    requires i < |rows| && RowPageSets(rows[..i]).Ok?
    ensures var sets, row := RowPageSets(rows[..i]).value, rows[i];
      RowPageSets(rows[..i + 1]) ==
        match ParsePageRange(row.questionPages)
        case Err(e) => Err(e)
        case Ok(q) =>
          match ParsePageRange(row.markSchemePages)
          case Err(e) => Err(e)
          case Ok(m) => Ok((sets.0 + Elems(q), sets.1 + Elems(m)))
  {
    assert rows[..i + 1][..i] == rows[..i];
  }

  /**
    The first half of collate_question: convert every row's two cells,
    gather the pages into two sets, and list each set in ascending order.
  */
  method CollectPages(rows: seq<Row>) returns (r: Result<(seq<nat>, seq<nat>), ParseError>)
    ensures RowPageSets(rows).Err? ==> r == Err(RowPageSets(rows).error)
    ensures RowPageSets(rows).Ok? ==>
      && r.Ok?
      && SortedSetOf(r.value.0, RowPageSets(rows).value.0)
      && SortedSetOf(r.value.1, RowPageSets(rows).value.1)
  {
    var sets := CollectPageSets(rows);
    if sets.Err? {
      return Err(sets.error);
    }
    var qs := SortedList(sets.value.0);
    var ms := SortedList(sets.value.1);
    r := Ok((qs, ms));
  }

  /** The pages p of qs that pass the check `p - 1 < pageCount`, in order. */
  function Kept(qs: seq<nat>, n: nat): (k: seq<nat>)
    ensures |k| <= |qs|
  {
    if qs == [] then []
    else
      var p := qs[|qs| - 1];
      Kept(qs[..|qs| - 1], n) + (if p as int - 1 < n then [p] else [])
  }

  /** A page is kept exactly when it is a question page that passes the check. */
  lemma {:induction false} KeptMembers(qs: seq<nat>, n: nat, p: nat)
    ensures p in Kept(qs, n) <==> p in qs && p as int - 1 < n
  {
    if qs != [] {
      var init := qs[..|qs| - 1];
      KeptMembers(init, n, p);
      assert qs == init + [qs[|qs| - 1]];
    }
  }

  lemma {:induction false} KeptAppend(a: seq<nat>, b: seq<nat>, n: nat)
    ensures Kept(a + b, n) == Kept(a, n) + Kept(b, n)
  {
    if b != [] {
      var b' := b[..|b| - 1];
      assert (a + b)[..|a + b| - 1] == a + b';
      KeptAppend(a, b', n);
    } else {
      assert a + b == a;
    }
  }

  /**
    For ascending question pages the kept pages are ascending too, and they
    are a prefix of the question pages: a student who lacks page p lacks
    every later page as well.
  */
  lemma KeptIsIncreasingPrefix(qs: seq<nat>, n: nat)
    requires Increasing(qs)
    ensures Increasing(Kept(qs, n))
    ensures Kept(qs, n) == qs[..|Kept(qs, n)|]
  {
    KeptIsPrefix(qs, n);
    IncreasingSlice(qs, |Kept(qs, n)|);
  }

  lemma {:induction false} KeptIsPrefix(qs: seq<nat>, n: nat)
    requires Increasing(qs)
    ensures forall i :: 0 <= i < |Kept(qs, n)| ==> Kept(qs, n)[i] == qs[i]
  {
    if qs != [] {
      var init := qs[..|qs| - 1];
      var p := qs[|qs| - 1];
      IncreasingInit(qs);
      KeptIsPrefix(init, n);
      if p as int - 1 < n {
        KeptAll(init, n);
        assert Kept(qs, n) == qs;
      } else {
        assert Kept(qs, n) == Kept(init, n);
      }
    }
  }

  /** Without its last page, an ascending list stays ascending, and every earlier page is smaller than the last. */
  lemma IncreasingInit(qs: seq<nat>)
    requires Increasing(qs) && qs != []
    ensures Increasing(qs[..|qs| - 1])
    ensures forall i :: 0 <= i < |qs| - 1 ==> qs[i] < qs[|qs| - 1]
  {
  }

  lemma IncreasingSlice(qs: seq<nat>, m: nat)
    requires Increasing(qs) && m <= |qs|
    ensures Increasing(qs[..m])
  {
  }

  lemma {:induction false} KeptAll(qs: seq<nat>, n: nat)
    requires forall i :: 0 <= i < |qs| ==> qs[i] as int - 1 < n
    ensures Kept(qs, n) == qs
  {
    if qs != [] {
      KeptAll(qs[..|qs| - 1], n);
    }
  }

  /** A student with more pages never gets fewer composed pages. */
  lemma {:induction false} KeptMonotone(qs: seq<nat>, n1: nat, n2: nat)
    requires n1 <= n2
    ensures |Kept(qs, n1)| <= |Kept(qs, n2)|
  {
    if qs != [] {
      KeptMonotone(qs[..|qs| - 1], n1, n2);
    }
  }

  /** Python's `doc[i]` on a document of n pages: a negative index counts from the end. */
  function PyIndex(i: int, n: nat): (r: Option<nat>)
    ensures r.Some? ==> r.value < n
    ensures r.Some? <==> 0 <= i + n && i < n
  {
    if 0 <= i < n then Some(i) else if 0 <= i + n && i < 0 then Some(i + n) else None
  }

  /**
    The pages `doc[p - 1]` for every p of ps, or the first p whose index is
    outside the document.
  */
  function LookupPages(doc: DocRef, ps: seq<nat>, n: nat): (r: Result<seq<Page>, nat>)
    ensures r.Ok? ==> |r.value| == |ps|
  {
    if ps == [] then Ok([])
    else
      var p := ps[|ps| - 1];
      match LookupPages(doc, ps[..|ps| - 1], n)
      case Err(e) => Err(e)
      case Ok(pages) =>
        match PyIndex(p as int - 1, n)
        case None => Err(p)
        case Some(i) => Ok(pages + [Page(doc, i)])
  }

  /**
    The lookup succeeds exactly when every page is inside the document;
    then page j of the result is `doc[ps[j] - 1]`, and otherwise the error
    names a page that is outside it.
  */
  lemma {:induction false} LookupPagesSpec(doc: DocRef, ps: seq<nat>, n: nat)
    ensures var r := LookupPages(doc, ps, n);
      && (r.Ok? <==> forall j :: 0 <= j < |ps| ==> PyIndex(ps[j] as int - 1, n).Some?)
      && (r.Ok? ==> forall j :: 0 <= j < |ps| ==>
            r.value[j].doc == doc && PyIndex(ps[j] as int - 1, n) == Some(r.value[j].index))
      && (r.Err? ==> r.error in ps && PyIndex(r.error as int - 1, n).None?)
  {
    if ps != [] {
      var init := ps[..|ps| - 1];
      LookupPagesSpec(doc, init, n);
      assert forall j :: 0 <= j < |init| ==> ps[j] == init[j];
    }
  }

  lemma {:induction false} LookupErrSticks(doc: DocRef, a: seq<nat>, b: seq<nat>, n: nat)
    requires LookupPages(doc, a, n).Err?
    ensures LookupPages(doc, a + b, n) == LookupPages(doc, a, n)
  {
    if b != [] {
      var b' := b[..|b| - 1];
      assert (a + b)[..|a + b| - 1] == a + b';
      LookupErrSticks(doc, a, b', n);
    } else {
      assert a + b == a;
    }
  }

  /**
    A student's kept pages all exist, except that page 0 (which the check
    lets through and which reads as index -1, the last page) fails on an
    empty document.
  */
  lemma StudentLookupOk(doc: DocRef, qs: seq<nat>, n: nat)
    ensures LookupPages(doc, Kept(qs, n), n).Ok? <==> !(0 in qs && n == 0)
  {
    var k := Kept(qs, n);
    LookupPagesSpec(doc, k, n);
    if 0 in qs && n == 0 {
      KeptMembers(qs, n, 0);
      var j :| 0 <= j < |k| && k[j] == 0;
      assert PyIndex(k[j] as int - 1, n).None?;
    } else {
      forall j | 0 <= j < |k|
        ensures PyIndex(k[j] as int - 1, n).Some?
      {
        KeptMembers(qs, n, k[j]);
      }
    }
  }

  /** Which page a kept question page shows: page p is index p - 1, and page 0 is the last page. */
  lemma StudentPageIndex(doc: DocRef, qs: seq<nat>, n: nat, j: nat)
    requires LookupPages(doc, Kept(qs, n), n).Ok? && j < |Kept(qs, n)|
    ensures var p := Kept(qs, n)[j];
      LookupPages(doc, Kept(qs, n), n).value[j] == Page(doc, if p >= 1 then p - 1 else n - 1)
  {
    LookupPagesSpec(doc, Kept(qs, n), n);
  }

  /** `main_q_id[1:]`: the key without its leading "Q". */
  function Drop1(s: string): string {
    if |s| >= 1 then s[1..] else ""
  }

  /**
    The label of a question page: "<name> Question <N>", followed by
    " (page i/total)" only when the student has more than one page for the
    question.
  */
  function QuestionLabel(name: string, mainId: string, i: nat, total: nat): string {
    var pageInfo := if total > 1 then "(page " + NatToString(i) + "/" + NatToString(total) + ")" else "";
    var base := name + " " + ("Question " + Drop1(mainId));
    if pageInfo != "" then base + " " + pageInfo else base
  }

  function LabelHead(name: string, mainId: string): string {
    name + " " + ("Question " + Drop1(mainId)) + " " + "(page "
  }

  function LabelTail(total: nat): string {
    "/" + NatToString(total) + ")"
  }

  lemma LabelShape(name: string, mainId: string, i: nat, total: nat)
    requires total > 1
    ensures QuestionLabel(name, mainId, i, total) == LabelHead(name, mainId) + (NatToString(i) + LabelTail(total))
  {
    var a, t := NatToString(i), NatToString(total);
    var pageInfo := "(page " + a + "/" + t + ")";
    assert pageInfo != "" by {
      assert pageInfo[0] == '(';
    }
    Regroup(name + " " + ("Question " + Drop1(mainId)), a, t);
  }

  /** The same characters, grouped around the page number. */
  lemma Regroup(base: string, a: string, t: string)
    ensures base + " " + ("(page " + a + "/" + t + ")") == base + " " + "(page " + (a + ("/" + t + ")"))
  {
  }

  lemma CancelAround(head: string, a: string, b: string, tail: string)
    requires head + (a + tail) == head + (b + tail)
    ensures a == b
  {
    assert a + tail == (head + (a + tail))[|head|..];
    assert b + tail == (head + (b + tail))[|head|..];
    assert a == (a + tail)[..|a|];
    assert b == (b + tail)[..|b|];
  }

  /** Different pages of one student's question carry different labels. */
  lemma LabelsDistinct(name: string, mainId: string, i: nat, j: nat, total: nat)
    requires total > 1 && i != j
    ensures QuestionLabel(name, mainId, i, total) != QuestionLabel(name, mainId, j, total)
  {
    LabelShape(name, mainId, i, total);
    LabelShape(name, mainId, j, total);
    if QuestionLabel(name, mainId, i, total) == QuestionLabel(name, mainId, j, total) {
      CancelAround(LabelHead(name, mainId), NatToString(i), NatToString(j), LabelTail(total));
      NatToStringInjective(i, j);
    }
  }

  /** With a single page the label is just the name and the question. */
  lemma LabelWithoutSuffix(name: string, mainId: string, i: nat, total: nat)
    requires total <= 1
    ensures QuestionLabel(name, mainId, i, total) == name + " Question " + Drop1(mainId)
  {
  }

  /** One student's composed pages: one per page they have, numbered 1..total. */
  function StudentPages(mainId: string, name: string, pages: seq<Page>, slot: MarkSchemeSlot): (cs: seq<ComposedPage>)
    ensures |cs| == |pages|
  {
    StudentPagesUpTo(mainId, name, pages, slot, |pages|)
  }

  /** The first n of a student's composed pages. */
  function StudentPagesUpTo(mainId: string, name: string, pages: seq<Page>, slot: MarkSchemeSlot, n: nat): (cs: seq<ComposedPage>)
    requires n <= |pages|
    ensures |cs| == n
  {
    if n == 0 then []
    else StudentPagesUpTo(mainId, name, pages, slot, n - 1) + [StudentPage(mainId, name, pages, slot, n - 1)]
  }

  /** Page j of a student's composed pages: their (j+1)-th page for the question, labelled j+1 of all. */
  function StudentPage(mainId: string, name: string, pages: seq<Page>, slot: MarkSchemeSlot, j: nat): ComposedPage
    requires j < |pages|
  {
    QuestionPage(pages[j], slot, QuestionLabel(name, mainId, j + 1, |pages|))
  }

  /** Composed page j of a student shows their page j, labelled as page j+1 of all of them. */
  lemma {:induction false} StudentPagesAt(mainId: string, name: string, pages: seq<Page>, slot: MarkSchemeSlot, n: nat, j: nat)
    requires j < n <= |pages|
    ensures StudentPagesUpTo(mainId, name, pages, slot, n)[j] == StudentPage(mainId, name, pages, slot, j)
  {
    var prev := StudentPagesUpTo(mainId, name, pages, slot, n - 1);
    var last := StudentPage(mainId, name, pages, slot, n - 1);
    assert StudentPagesUpTo(mainId, name, pages, slot, n) == prev + [last];
    if j < n - 1 {
      StudentPagesAt(mainId, name, pages, slot, n - 1, j);
      PrefixAt(prev, [last], j);
    } else {
      AppendAt(prev, [last], 0);
    }
  }

  /** The composed pages of the student at position pos, or the page that does not exist. */
  function StudentPlan(mainId: string, qs: seq<nat>, slot: MarkSchemeSlot, pos: nat, s: Student): (r: Result<seq<ComposedPage>, CollateError>)
    ensures r.Ok? ==> |r.value| == |Kept(qs, s.pageCount)|
  {
    match LookupPages(StudentDoc(pos), Kept(qs, s.pageCount), s.pageCount)
    case Err(p) => Err(StudentPageMissing(s.name, p))
    case Ok(pages) => Ok(StudentPages(mainId, s.name, pages, slot))
  }

  /** The composed pages of all students, student by student in discovery order. */
  function PlanFor(mainId: string, qs: seq<nat>, slot: MarkSchemeSlot, students: seq<Student>): Result<seq<ComposedPage>, CollateError> {
    if students == [] then Ok([])
    else
      var k := |students| - 1;
      match PlanFor(mainId, qs, slot, students[..k])
      case Err(e) => Err(e)
      case Ok(before) =>
        match StudentPlan(mainId, qs, slot, k, students[k])
        case Err(e) => Err(e)
        case Ok(mine) => Ok(before + mine)
  }

  /** The output document of one question, given its sorted question and mark-scheme pages. */
  function QuestionPlan(mainId: string, qs: seq<nat>, ms: seq<nat>, msCount: nat, students: seq<Student>): Result<seq<ComposedPage>, CollateError> {
    match LookupPages(MarkScheme, ms, msCount)
    case Err(p) => Err(MarkSchemePageMissing(p))
    case Ok(msPages) => PlanFor(mainId, qs, ChooseSlot(msPages), students)
  }

  /** collate_question from its rows: convert and sort the pages, then compose. */
  ghost function QuestionOutput(mainId: string, rows: seq<Row>, msCount: nat, students: seq<Student>): Result<seq<ComposedPage>, CollateError> {
    match RowPageSets(rows)
    case Err(e) => Err(BadPageRange(e))
    case Ok(sets) => QuestionPlan(mainId, SortedOf(sets.0), SortedOf(sets.1), msCount, students)
  }

  lemma {:induction false} PlanErrSticks(mainId: string, qs: seq<nat>, slot: MarkSchemeSlot, students: seq<Student>, i: nat)
    requires i <= |students| && PlanFor(mainId, qs, slot, students[..i]).Err?
    ensures PlanFor(mainId, qs, slot, students) == PlanFor(mainId, qs, slot, students[..i])
  {
    if i < |students| {
      assert students[..|students| - 1][..i] == students[..i];
      PlanErrSticks(mainId, qs, slot, students[..|students| - 1], i);
    } else {
      assert students[..i] == students;
    }
  }

  /** The number of pages every student actually has for the question, summed. */
  function TotalKept(qs: seq<nat>, students: seq<Student>): nat {
    if students == [] then 0
    else TotalKept(qs, students[..|students| - 1]) + |Kept(qs, students[|students| - 1].pageCount)|
  }

  /** The question's output has one page per (student, kept page): the sum over students. */
  lemma {:induction false} PlanPageCount(mainId: string, qs: seq<nat>, slot: MarkSchemeSlot, students: seq<Student>)
    requires PlanFor(mainId, qs, slot, students).Ok?
    ensures |PlanFor(mainId, qs, slot, students).value| == TotalKept(qs, students)
  {
    if students != [] {
      PlanPageCount(mainId, qs, slot, students[..|students| - 1]);
    }
  }

  /** The looked-up pages of student s, when the lookup succeeds. */
  function StudentLookedUp(qs: seq<nat>, s: nat, st: Student): Result<seq<Page>, nat> {
    LookupPages(StudentDoc(s), Kept(qs, st.pageCount), st.pageCount)
  }

  /** The plan without the last student is a prefix of the plan, which ends with the last student's pages. */
  lemma PlanForSplit(mainId: string, qs: seq<nat>, slot: MarkSchemeSlot, students: seq<Student>)
    requires students != [] && PlanFor(mainId, qs, slot, students).Ok?
    ensures var k := |students| - 1;
      && PlanFor(mainId, qs, slot, students[..k]).Ok?
      && StudentPlan(mainId, qs, slot, k, students[k]).Ok?
      && PlanFor(mainId, qs, slot, students).value ==
         PlanFor(mainId, qs, slot, students[..k]).value + StudentPlan(mainId, qs, slot, k, students[k]).value
      && |PlanFor(mainId, qs, slot, students[..k]).value| == TotalKept(qs, students[..k])
  {
    PlanPageCount(mainId, qs, slot, students[..|students| - 1]);
  }

  /** The plan of the first n students is a prefix of the plan of all of them. */
  lemma {:induction false} PlanForPrefix(mainId: string, qs: seq<nat>, slot: MarkSchemeSlot, students: seq<Student>, n: nat)
    requires n <= |students| && PlanFor(mainId, qs, slot, students).Ok?
    ensures PlanFor(mainId, qs, slot, students[..n]).Ok?
    ensures PlanFor(mainId, qs, slot, students[..n]).value <= PlanFor(mainId, qs, slot, students).value
  {
    if n == |students| {
      assert students[..n] == students;
    } else {
      var k := |students| - 1;
      PlanForSplit(mainId, qs, slot, students);
      assert students[..k][..n] == students[..n];
      PlanForPrefix(mainId, qs, slot, students[..k], n);
    }
  }

  /**
    The pages of student s sit in the plan after those of all earlier
    students, in the order of the student's own composed pages.
  */
  lemma PlanForSlot(mainId: string, qs: seq<nat>, slot: MarkSchemeSlot, students: seq<Student>, s: nat, j: nat)
    requires PlanFor(mainId, qs, slot, students).Ok?
    requires s < |students| && j < |Kept(qs, students[s].pageCount)|
    ensures StudentPlan(mainId, qs, slot, s, students[s]).Ok?
    ensures var plan := PlanFor(mainId, qs, slot, students).value;
      var mine := StudentPlan(mainId, qs, slot, s, students[s]).value;
      && j < |mine|
      && TotalKept(qs, students[..s]) + j < |plan|
      && plan[TotalKept(qs, students[..s]) + j] == mine[j]
  {
    PlanForPrefixStep(mainId, qs, slot, students, s);
    PlanPageCount(mainId, qs, slot, students[..s]);
    var before := PlanFor(mainId, qs, slot, students[..s]).value;
    var mine := StudentPlan(mainId, qs, slot, s, students[s]).value;
    AppendAt(before, mine, j);
    PrefixIndex(before + mine, PlanFor(mainId, qs, slot, students).value, |before| + j);
  }

  /** The plan begins with the plan of the first n students followed by the pages of student n. */
  lemma PlanForPrefixStep(mainId: string, qs: seq<nat>, slot: MarkSchemeSlot, students: seq<Student>, n: nat)
    requires n < |students| && PlanFor(mainId, qs, slot, students).Ok?
    ensures PlanFor(mainId, qs, slot, students[..n]).Ok? && StudentPlan(mainId, qs, slot, n, students[n]).Ok?
    ensures PlanFor(mainId, qs, slot, students[..n]).value + StudentPlan(mainId, qs, slot, n, students[n]).value
      <= PlanFor(mainId, qs, slot, students).value
  {
    var upTo := students[..n + 1];
    PlanForPrefix(mainId, qs, slot, students, n + 1);
    assert upTo[..n] == students[..n] && upTo[n] == students[n];
    assert PlanFor(mainId, qs, slot, upTo).value ==
      PlanFor(mainId, qs, slot, students[..n]).value + StudentPlan(mainId, qs, slot, n, students[n]).value;
  }

  /** A prefix agrees with the whole sequence on its own positions. */
  lemma PrefixIndex<T>(a: seq<T>, b: seq<T>, i: nat)
    requires a <= b && i < |a|
    ensures i < |b| && b[i] == a[i]
  {
  }

  /** Indexing into a concatenation, right part. */
  lemma AppendAt<T>(a: seq<T>, b: seq<T>, j: nat)
    requires j < |b|
    ensures |a| + j < |a + b| && (a + b)[|a| + j] == b[j]
  {
  }

  /** Indexing into a concatenation, left part. */
  lemma PrefixAt<T>(a: seq<T>, b: seq<T>, i: nat)
    requires i < |a|
    ensures i < |a + b| && (a + b)[i] == a[i]
  {
  }

  /**
    Where each student's pages go: the pages of student s start after those
    of all earlier students, and the j-th of them shows the student's j-th
    kept page, labelled as page j+1 of all of them.
  */
  lemma PlanForAt(mainId: string, qs: seq<nat>, slot: MarkSchemeSlot, students: seq<Student>, s: nat, j: nat)
    requires PlanFor(mainId, qs, slot, students).Ok?
    requires s < |students| && j < |Kept(qs, students[s].pageCount)|
    ensures StudentLookedUp(qs, s, students[s]).Ok?
    ensures var plan := PlanFor(mainId, qs, slot, students).value;
      var pages := StudentLookedUp(qs, s, students[s]).value;
      && j < |pages|
      && TotalKept(qs, students[..s]) + j < |plan|
      && plan[TotalKept(qs, students[..s]) + j] == StudentPage(mainId, students[s].name, pages, slot, j)
  {
    PlanForSlot(mainId, qs, slot, students, s, j);
    var pages := StudentLookedUp(qs, s, students[s]).value;
    StudentPagesAt(mainId, students[s].name, pages, slot, |pages|, j);
  }

  /** Some student document has no pages. */
  predicate SomeEmpty(students: seq<Student>) {
    exists i :: 0 <= i < |students| && students[i].pageCount == 0
  }

  lemma SomeEmptySnoc(students: seq<Student>)
    requires students != []
    ensures SomeEmpty(students) <==> SomeEmpty(students[..|students| - 1]) || students[|students| - 1].pageCount == 0
  {
    var k := |students| - 1;
    var init := students[..k];
    if SomeEmpty(init) {
      var i :| 0 <= i < k && init[i].pageCount == 0;
      assert students[i].pageCount == 0;
    }
    if SomeEmpty(students) {
      var i :| 0 <= i < |students| && students[i].pageCount == 0;
      if i < k {
        assert init[i].pageCount == 0;
      }
    }
  }

  lemma PlanForOkStep(mainId: string, qs: seq<nat>, slot: MarkSchemeSlot, students: seq<Student>)
    requires students != []
    ensures var k := |students| - 1;
      PlanFor(mainId, qs, slot, students).Ok? <==>
        PlanFor(mainId, qs, slot, students[..k]).Ok? && LookupPages(StudentDoc(k), Kept(qs, students[k].pageCount), students[k].pageCount).Ok?
  {
  }

  /** Composition fails only on page 0 of a question against an empty student document. */
  lemma {:induction false} PlanOkIff(mainId: string, qs: seq<nat>, slot: MarkSchemeSlot, students: seq<Student>)
    ensures PlanFor(mainId, qs, slot, students).Ok? <==> !(0 in qs && SomeEmpty(students))
  {
    if students != [] {
      var k := |students| - 1;
      PlanOkIff(mainId, qs, slot, students[..k]);
      PlanForOkStep(mainId, qs, slot, students);
      StudentLookupOk(StudentDoc(k), qs, students[k].pageCount);
      SomeEmptySnoc(students);
    }
  }

  /** A composed question page: a student page, then the mark-scheme slot, under one label. */
  predicate ShowsSlot(c: ComposedPage, slot: MarkSchemeSlot) {
    |PlacedPages(c)| >= 1 && PlacedPages(c)[1..] == SlotPages(slot) && PlacedPages(c)[0].doc.StudentDoc? && |c.labels| == 1
  }

  lemma StudentPagesShowSlot(mainId: string, name: string, pages: seq<Page>, slot: MarkSchemeSlot)
    requires forall j :: 0 <= j < |pages| ==> pages[j].doc.StudentDoc?
    ensures forall c :: c in StudentPages(mainId, name, pages, slot) ==> ShowsSlot(c, slot)
  {
    var cs := StudentPages(mainId, name, pages, slot);
    forall c | c in cs
      ensures ShowsSlot(c, slot)
    {
      var j :| 0 <= j < |cs| && cs[j] == c;
      StudentPagesAt(mainId, name, pages, slot, |pages|, j);
      QuestionPageLayout(pages[j], slot, QuestionLabel(name, mainId, j + 1, |pages|));
    }
  }

  /**
    Every composed page of a question shows one student page on the left and
    the question's mark-scheme slot on the right, under a single label.
  */
  lemma {:induction false} PlanPagesShowSlot(mainId: string, qs: seq<nat>, slot: MarkSchemeSlot, students: seq<Student>)
    requires PlanFor(mainId, qs, slot, students).Ok?
    ensures forall c :: c in PlanFor(mainId, qs, slot, students).value ==> ShowsSlot(c, slot)
  {
    if students != [] {
      var k := |students| - 1;
      var s := students[k];
      PlanPagesShowSlot(mainId, qs, slot, students[..k]);
      var before := PlanFor(mainId, qs, slot, students[..k]).value;
      var pages := LookupPages(StudentDoc(k), Kept(qs, s.pageCount), s.pageCount).value;
      LookupPagesSpec(StudentDoc(k), Kept(qs, s.pageCount), s.pageCount);
      StudentPagesShowSlot(mainId, s.name, pages, slot);
      assert PlanFor(mainId, qs, slot, students).value == before + StudentPages(mainId, s.name, pages, slot);
    }
  }

  /** `[mark_scheme_doc[p - 1] for p in ms]`: the mark-scheme pages, or the first page out of range. */
  method MarkSchemePages(ms: seq<nat>, msCount: nat) returns (r: Result<seq<Page>, nat>)
    ensures r == LookupPages(MarkScheme, ms, msCount)
  {
    var msPages: seq<Page> := [];
    for i := 0 to |ms|
      invariant LookupPages(MarkScheme, ms[..i], msCount) == Ok(msPages)
    {
      assert ms[..i + 1][..i] == ms[..i];
      var idx := PyIndex(ms[i] as int - 1, msCount);
      if idx.None? {
        LookupErrSticks(MarkScheme, ms[..i + 1], ms[i + 1..], msCount);
        assert ms[..i + 1] + ms[i + 1..] == ms;
        return Err(ms[i]);
      }
      msPages := msPages + [Page(MarkScheme, idx.value)];
    }
    assert ms[..|ms|] == ms;
    r := Ok(msPages);
  }

  /**
    The loop that fills student_pages_to_process: each question page that
    passes `p - 1 < pageCount`, looked up in the student's document.
  */
  method PagesToProcess(pos: nat, s: Student, qs: seq<nat>) returns (r: Result<seq<Page>, nat>)
    ensures r == LookupPages(StudentDoc(pos), Kept(qs, s.pageCount), s.pageCount)
  {
    var doc, n := StudentDoc(pos), s.pageCount;
    var toProcess: seq<Page> := [];
    for j := 0 to |qs|
      invariant LookupPages(doc, Kept(qs[..j], n), n) == Ok(toProcess)
    {
      KeptSnoc(qs, j, n);
      var p := qs[j];
      if p as int - 1 >= n {
        assert Kept(qs[..j + 1], n) == Kept(qs[..j], n);
      } else {
        ghost var k := Kept(qs[..j], n);
        assert Kept(qs[..j + 1], n) == k + [p];
        LookupSnoc(doc, k, p, n);
        var idx := PyIndex(p as int - 1, n);
        if idx.None? {
          assert LookupPages(doc, Kept(qs[..j + 1], n), n) == Err(p);
          LookupKeptErrSticks(doc, qs, j + 1, n);
          return Err(p);
        }
        toProcess := toProcess + [Page(doc, idx.value)];
        assert LookupPages(doc, Kept(qs[..j + 1], n), n) == Ok(toProcess);
      }
    }
    assert qs[..|qs|] == qs;
    r := Ok(toProcess);
  }

  lemma LookupKeptErrSticks(doc: DocRef, qs: seq<nat>, j: nat, n: nat)
    requires j <= |qs| && LookupPages(doc, Kept(qs[..j], n), n).Err?
    ensures LookupPages(doc, Kept(qs, n), n) == LookupPages(doc, Kept(qs[..j], n), n)
  {
    KeptAppend(qs[..j], qs[j..], n);
    LookupErrSticks(doc, Kept(qs[..j], n), Kept(qs[j..], n), n);
    assert qs[..j] + qs[j..] == qs;
  }

  lemma KeptSnoc(qs: seq<nat>, j: nat, n: nat)
    requires j < |qs|
    ensures Kept(qs[..j + 1], n) == Kept(qs[..j], n) + (if qs[j] as int - 1 < n then [qs[j]] else [])
  {
    assert qs[..j + 1][..j] == qs[..j];
  }

  lemma LookupSnoc(doc: DocRef, ps: seq<nat>, p: nat, n: nat)
    requires LookupPages(doc, ps, n).Ok?
    ensures LookupPages(doc, ps + [p], n) ==
      match PyIndex(p as int - 1, n)
      case None => Err(p)
      case Some(i) => Ok(LookupPages(doc, ps, n).value + [Page(doc, i)])
  {
    assert (ps + [p])[..|ps|] == ps;
  }

  /** The loop that composes one student's pages, numbering them 1..total. */
  method ComposeStudent(mainId: string, name: string, toProcess: seq<Page>, slot: MarkSchemeSlot)
    returns (mine: seq<ComposedPage>)
    ensures mine == StudentPages(mainId, name, toProcess, slot)
  {
    mine := [];
    for j := 0 to |toProcess|
      invariant mine == StudentPagesUpTo(mainId, name, toProcess, slot, j)
    {
      mine := mine + [StudentPage(mainId, name, toProcess, slot, j)];
    }
  }

  /**
    The second half of collate_question: look up the mark-scheme pages,
    choose the slot, then for each student collect the pages they have and
    compose one page for each.
  */
  method PlanQuestion(mainId: string, qs: seq<nat>, ms: seq<nat>, msCount: nat, students: seq<Student>)
    returns (r: Result<seq<ComposedPage>, CollateError>)
    ensures r == QuestionPlan(mainId, qs, ms, msCount, students)
  {
    var msPages := MarkSchemePages(ms, msCount);
    if msPages.Err? {
      return Err(MarkSchemePageMissing(msPages.error));
    }
    var slot := ChooseSlot(msPages.value);
    var out: seq<ComposedPage> := [];
    for pos := 0 to |students|
      invariant PlanFor(mainId, qs, slot, students[..pos]) == Ok(out)
    {
      assert students[..pos + 1][..pos] == students[..pos];
      var s := students[pos];
      var toProcess := PagesToProcess(pos, s, qs);
      if toProcess.Err? {
        PlanErrSticks(mainId, qs, slot, students, pos + 1);
        return Err(StudentPageMissing(s.name, toProcess.error));
      }
      var mine := ComposeStudent(mainId, s.name, toProcess.value, slot);
      out := out + mine;
    }
    assert students[..|students|] == students;
    r := Ok(out);
  }

  /** collate_question up to the save: its output pages, or the error that aborts the run. */
  method CollateQuestion(mainId: string, rows: seq<Row>, msCount: nat, students: seq<Student>)
    returns (r: Result<seq<ComposedPage>, CollateError>)
    ensures r == QuestionOutput(mainId, rows, msCount, students)
  {
    var pages := CollectPages(rows);
    if pages.Err? {
      return Err(BadPageRange(pages.error));
    }
    var (qs, ms) := pages.value;
    SortedUnique(qs, SortedOf(RowPageSets(rows).value.0), RowPageSets(rows).value.0);
    SortedUnique(ms, SortedOf(RowPageSets(rows).value.1), RowPageSets(rows).value.1);
    r := PlanQuestion(mainId, qs, ms, msCount, students);
  }
}
