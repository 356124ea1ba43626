/**
  The extra-space document (collate_extra_space): every student page past
  the last question page, in student order, paired two to a landscape page.
*/
module ExtraSpace {
  import opened Wrappers
  import opened PageRange
  import opened Grouping
  import opened Layout
  import opened Collation

  /** One collected extra-space page: the page and the name of the student it belongs to. */
  datatype ExtraPage = ExtraPage(page: Page, name: string)

  /** `max(q_pages)` for a non-empty range, 0 for an empty one. */
  function MaxOf(ps: seq<nat>): (m: nat)
    ensures forall i :: 0 <= i < |ps| ==> ps[i] <= m
    ensures ps != [] ==> exists i :: 0 <= i < |ps| && ps[i] == m
  {
    if ps == [] then 0
    else
      var m := MaxOf(ps[..|ps| - 1]);
      var p := ps[|ps| - 1];
      if p > m then p else m
  }

  /**
    `max_question_page`: 0 raised to the largest page of every row's
    question cell, over all rows of the table (including the rows grouping
    drops), or the first cell that does not convert.
  */
  function MaxQuestionPage(rows: seq<Row>): Result<nat, ParseError> {
    if rows == [] then Ok(0)
    else
      match MaxQuestionPage(rows[..|rows| - 1])
      case Err(e) => Err(e)
      case Ok(m) =>
        match ParsePageRange(rows[|rows| - 1].questionPages)
        case Err(e) => Err(e)
        case Ok(q) => Ok(if q != [] && MaxOf(q) > m then MaxOf(q) else m)
  }

  /** Every question page of every row is at most max_question_page. */
  lemma {:induction false} MaxQuestionPageBounds(rows: seq<Row>, i: nat, p: nat)
    requires MaxQuestionPage(rows).Ok?
    requires i < |rows| && InCell(rows[i], QuestionColumn, p)
    ensures p <= MaxQuestionPage(rows).value
  {
    var init := rows[..|rows| - 1];
    if i < |rows| - 1 {
      assert init[i] == rows[i];
      MaxQuestionPageBounds(init, i, p);
    }
  }

  /** max_question_page is 0 or the page of some row's question cell. */
  lemma {:induction false} MaxQuestionPageAttained(rows: seq<Row>)
    requires MaxQuestionPage(rows).Ok?
    ensures var m := MaxQuestionPage(rows).value;
      m == 0 || exists i :: 0 <= i < |rows| && InCell(rows[i], QuestionColumn, m)
  {
    if rows != [] {
      var init := rows[..|rows| - 1];
      MaxQuestionPageAttained(init);
      var m0 := MaxQuestionPage(init).value;
      if m0 != 0 && MaxQuestionPage(rows).value == m0 {
        var i :| 0 <= i < |init| && InCell(init[i], QuestionColumn, m0);
        assert rows[i] == init[i];
      }
    }
  }

  /** Every question cell of the table converts. */
  predicate QuestionCellsConvert(rows: seq<Row>) {
    forall i :: 0 <= i < |rows| ==> ParsePageRange(rows[i].questionPages).Ok?
  }

  lemma QuestionCellsConvertSnoc(rows: seq<Row>)
    requires rows != []
    ensures QuestionCellsConvert(rows) <==>
      QuestionCellsConvert(rows[..|rows| - 1]) && ParsePageRange(rows[|rows| - 1].questionPages).Ok?
  {
    var init := rows[..|rows| - 1];
    assert forall i :: 0 <= i < |init| ==> init[i] == rows[i];
  }

  /** max_question_page is computed exactly when every question cell of the table converts. */
  lemma {:induction false} MaxQuestionPageOkIff(rows: seq<Row>)
    ensures MaxQuestionPage(rows).Ok? <==> QuestionCellsConvert(rows)
  {
    if rows != [] {
      var init := rows[..|rows| - 1];
      MaxQuestionPageOkIff(init);
      QuestionCellsConvertSnoc(rows);
      assert MaxQuestionPage(rows).Ok? <==> MaxQuestionPage(init).Ok? && ParsePageRange(rows[|rows| - 1].questionPages).Ok?;
    }
  }

  lemma {:induction false} MaxQuestionPageErrSticks(rows: seq<Row>, i: nat)
    requires i <= |rows| && MaxQuestionPage(rows[..i]).Err?
    ensures MaxQuestionPage(rows) == MaxQuestionPage(rows[..i])
  {
    if i < |rows| {
      assert rows[..|rows| - 1][..i] == rows[..i];
      MaxQuestionPageErrSticks(rows[..|rows| - 1], i);
    } else {
      assert rows[..i] == rows;
    }
  }

  /** The max-accumulator loop over the table's rows. */
  method ComputeMaxQuestionPage(rows: seq<Row>) returns (r: Result<nat, ParseError>)
    ensures r == MaxQuestionPage(rows)
  {
    var maxQuestionPage: nat := 0;
    for i := 0 to |rows|
      invariant MaxQuestionPage(rows[..i]) == Ok(maxQuestionPage)
    {
      MaxQuestionPageSnoc(rows, i);
      var q := ParsePageRange(rows[i].questionPages);
      if q.Err? {
        MaxQuestionPageErrSticks(rows, i + 1);
        return Err(q.error);
      }
      if q.value != [] {
        var top := MaxOf(q.value);
        if top > maxQuestionPage {
          maxQuestionPage := top;
        }
      }
    }
    assert rows[..|rows|] == rows;
    r := Ok(maxQuestionPage);
  }

  lemma MaxQuestionPageSnoc(rows: seq<Row>, i: nat)
    requires i < |rows| && MaxQuestionPage(rows[..i]).Ok?
    ensures var m := MaxQuestionPage(rows[..i]).value;
      MaxQuestionPage(rows[..i + 1]) ==
        match ParsePageRange(rows[i].questionPages)
        case Err(e) => Err(e)
        case Ok(q) => Ok(if q != [] && MaxOf(q) > m then MaxOf(q) else m)
  {
    assert rows[..i + 1][..i] == rows[..i];
  }

  /** The pages `range(m, pageCount)` of the student at position pos, each tagged with the student's name. */
  function StudentExtra(pos: nat, s: Student, m: nat): (e: seq<ExtraPage>)
    ensures |e| == (if m < s.pageCount then s.pageCount - m else 0)
  {
    var n := if m < s.pageCount then s.pageCount - m else 0;
    seq(n, k requires 0 <= k < n => ExtraPage(Page(StudentDoc(pos), m + k), s.name))
  }

  /** `extra_space_pages`: the extra pages of every student, student by student in discovery order. */
  function ExtraOf(students: seq<Student>, m: nat): seq<ExtraPage> {
    if students == [] then []
    else
      var k := |students| - 1;
      ExtraOf(students[..k], m) + StudentExtra(k, students[k], m)
  }

  /** The page of student pos with index i is collected exactly when m <= i < pageCount. */
  lemma {:induction false} ExtraMembers(students: seq<Student>, m: nat, pos: nat, i: nat)
    requires pos < |students|
    ensures ExtraPage(Page(StudentDoc(pos), i), students[pos].name) in ExtraOf(students, m)
      <==> m <= i < students[pos].pageCount
  {
    var k := |students| - 1;
    var e := ExtraPage(Page(StudentDoc(pos), i), students[pos].name);
    ExtraWellFormed(students[..k], m);
    if pos < k {
      assert students[..k][pos] == students[pos];
      ExtraMembers(students[..k], m, pos, i);
      assert e !in StudentExtra(k, students[k], m);
    } else {
      assert e !in ExtraOf(students[..k], m);
      if m <= i < students[pos].pageCount {
        assert StudentExtra(k, students[k], m)[i - m] == e;
      }
    }
  }

  /** An extra page of the student at its document's position, carrying that student's name. */
  predicate OfStudent(e: ExtraPage, students: seq<Student>) {
    e.page.doc.StudentDoc? && e.page.doc.position < |students| && e.name == students[e.page.doc.position].name
  }

  /** Page e comes before page f: an earlier student, or the same student and an earlier page. */
  predicate Before(e: ExtraPage, f: ExtraPage) {
    e.page.doc.StudentDoc? && f.page.doc.StudentDoc? &&
    (e.page.doc.position < f.page.doc.position || (e.page.doc == f.page.doc && e.page.index < f.page.index))
  }

  predicate AllOfStudents(eps: seq<ExtraPage>, students: seq<Student>) {
    forall j :: 0 <= j < |eps| ==> OfStudent(eps[j], students)
  }

  predicate InStudentOrder(eps: seq<ExtraPage>) {
    forall i, j :: 0 <= i < j < |eps| ==> Before(eps[i], eps[j])
  }

  /**
    Every collected page belongs to a student and carries that student's
    name, and the pages come student by student, each student's in page order.
  */
  lemma {:induction false} ExtraWellFormed(students: seq<Student>, m: nat)
    ensures AllOfStudents(ExtraOf(students, m), students)
    ensures InStudentOrder(ExtraOf(students, m))
  {
    if students != [] {
      var k := |students| - 1;
      var init := students[..k];
      ExtraWellFormed(init, m);
      var a, b := ExtraOf(init, m), StudentExtra(k, students[k], m);
      var e := ExtraOf(students, m);
      assert e == a + b;
      forall j | 0 <= j < |e|
        ensures OfStudent(e[j], students)
      {
        if j < |a| {
          assert OfStudent(a[j], init);
          assert init[a[j].page.doc.position] == students[a[j].page.doc.position];
        } else {
          assert e[j] == b[j - |a|];
        }
      }
      forall i, j | 0 <= i < j < |e|
        ensures Before(e[i], e[j])
      {
        if j < |a| {
          assert Before(a[i], a[j]);
        } else if i < |a| {
          assert OfStudent(a[i], init);
          assert e[j] == b[j - |a|];
        } else {
          assert e[i] == b[i - |a|] && e[j] == b[j - |a|];
        }
      }
    }
  }

  /** The documents with extra pages are exactly the students with more than m pages. */
  lemma ContributingDocs(students: seq<Student>, m: nat, pos: nat)
    requires pos < |students|
    ensures (exists j :: 0 <= j < |ExtraOf(students, m)| && ExtraOf(students, m)[j].page.doc == StudentDoc(pos))
      <==> m < students[pos].pageCount
  {
    var e := ExtraOf(students, m);
    ExtraWellFormed(students, m);
    if m < students[pos].pageCount {
      ExtraMembers(students, m, pos, m);
    }
    if exists j :: 0 <= j < |e| && e[j].page.doc == StudentDoc(pos) {
      var j :| 0 <= j < |e| && e[j].page.doc == StudentDoc(pos);
      assert e[j] == ExtraPage(Page(StudentDoc(pos), e[j].page.index), students[pos].name);
      ExtraMembers(students, m, pos, e[j].page.index);
    }
  }

  /** The collection loop: for each student, append `student_doc[page_num]` for page_num in range(m, pageCount). */
  method CollectExtra(students: seq<Student>, m: nat) returns (pages: seq<ExtraPage>)
    ensures pages == ExtraOf(students, m)
  {
    pages := [];
    for pos := 0 to |students|
      invariant pages == ExtraOf(students[..pos], m)
    {
      assert students[..pos + 1][..pos] == students[..pos];
      var s := students[pos];
      ghost var before := pages;
      ghost var extra := StudentExtra(pos, s, m);
      var pageNum := m;
      while pageNum < s.pageCount
        invariant m <= pageNum <= m + |extra|
        invariant pages == before + extra[..pageNum - m]
      {
        assert extra[..pageNum + 1 - m] == extra[..pageNum - m] + [extra[pageNum - m]];
        pages := pages + [ExtraPage(Page(StudentDoc(pos), pageNum), s.name)];
        pageNum := pageNum + 1;
      }
      assert extra[..pageNum - m] == extra;
    }
    assert students[..|students|] == students;
  }

  /** Pair k of the extra pages: pages 2k and, when it exists, 2k+1 side by side. */
  function Pair(eps: seq<ExtraPage>, k: nat): ComposedPage
    requires 2 * k < |eps|
  {
    var second := 2 * k + 1 < |eps|;
    TwoUpPage(eps[2 * k].page,
              if second then Some(eps[2 * k + 1].page) else None,
              eps[2 * k].name,
              if second then Some(eps[2 * k + 1].name) else None)
  }

  /** The two-up pages of the extra-space document, ceil(n/2) of them. */
  function Paired(eps: seq<ExtraPage>): (out: seq<ComposedPage>)
    ensures |out| == (|eps| + 1) / 2
  {
    seq((|eps| + 1) / 2, k requires 0 <= k < (|eps| + 1) / 2 => Pair(eps, k))
  }

  /** The pages of the collected extra pages, in order. */
  function PagesOf(eps: seq<ExtraPage>): (ps: seq<Page>)
    ensures |ps| == |eps|
  {
    seq(|eps|, i requires 0 <= i < |eps| => eps[i].page)
  }

  /** The pages shown by a sequence of composed pages, left to right, page after page. */
  function AllPlaced(cs: seq<ComposedPage>): seq<Page> {
    if cs == [] then []
    else AllPlaced(cs[..|cs| - 1]) + PlacedPages(cs[|cs| - 1])
  }

  /** Pair k shows page 2k, then page 2k+1 when it exists. */
  lemma PairPages(eps: seq<ExtraPage>, k: nat)
    requires 2 * k < |eps|
    ensures PlacedPages(Pair(eps, k)) == PagesOf(eps)[2 * k..if 2 * k + 2 < |eps| then 2 * k + 2 else |eps|]
  {
    var second := 2 * k + 1 < |eps|;
    TwoUpLayout(eps[2 * k].page, if second then Some(eps[2 * k + 1].page) else None,
                eps[2 * k].name, if second then Some(eps[2 * k + 1].name) else None);
  }

  lemma {:induction false} PairedPrefix(eps: seq<ExtraPage>, k: nat)
    requires k <= (|eps| + 1) / 2
    ensures AllPlaced(Paired(eps)[..k]) == PagesOf(eps)[..if 2 * k < |eps| then 2 * k else |eps|]
  {
    if k > 0 {
      var out := Paired(eps);
      assert out[..k][..k - 1] == out[..k - 1];
      assert out[..k][k - 1] == Pair(eps, k - 1);
      PairedPrefix(eps, k - 1);
      PairPages(eps, k - 1);
      var ps := PagesOf(eps);
      var hi := if 2 * k < |eps| then 2 * k else |eps|;
      assert ps[..hi] == ps[..2 * k - 2] + ps[2 * k - 2..hi];
    }
  }

  /** Pairing loses no page and reorders none: the pages shown, in order, are the collected pages. */
  lemma PairedShowsAll(eps: seq<ExtraPage>)
    ensures AllPlaced(Paired(eps)) == PagesOf(eps)
  {
    var out := Paired(eps);
    PairedPrefix(eps, |out|);
    assert out[..|out|] == out;
    assert PagesOf(eps)[..|eps|] == PagesOf(eps);
  }

  /**
    Pair k shows two pages exactly when page 2k+1 exists, and its right
    label is drawn exactly when that page's student name is non-empty.
  */
  lemma PairShape(eps: seq<ExtraPage>, k: nat)
    requires k < |Paired(eps)|
    ensures var c := Paired(eps)[k];
      && |PlacedPages(c)| == (if 2 * k + 1 < |eps| then 2 else 1)
      && |c.labels| == (if 2 * k + 1 < |eps| && eps[2 * k + 1].name != "" then 2 else 1)
      && c.labels[0].text == ExtraSpaceText(eps[2 * k].name)
  {
    var second := 2 * k + 1 < |eps|;
    TwoUpLayout(eps[2 * k].page, if second then Some(eps[2 * k + 1].page) else None,
                eps[2 * k].name, if second then Some(eps[2 * k + 1].name) else None);
  }

  /** An odd number of extra pages leaves the right half of the last page blank. */
  lemma OddLastAlone(eps: seq<ExtraPage>)
    requires |eps| % 2 == 1
    ensures var c := Paired(eps)[|Paired(eps)| - 1];
      PlacedPages(c) == [eps[|eps| - 1].page] && |c.labels| == 1
  {
    var k := |Paired(eps)| - 1;
    assert 2 * k == |eps| - 1;
    TwoUpLayout(eps[2 * k].page, None, eps[2 * k].name, None);
  }

  /** The stride-2 pairing loop. */
  method PairUp(eps: seq<ExtraPage>) returns (out: seq<ComposedPage>)
    ensures out == Paired(eps)
  {
    out := [];
    var i := 0;
    while i < |eps|
      invariant i % 2 == 0 && i <= |eps| + 1
      invariant out == Paired(eps)[..i / 2]
    {
      var page2 := if i + 1 < |eps| then Some(eps[i + 1].page) else None;
      var name2 := if i + 1 < |eps| then Some(eps[i + 1].name) else None;
      out := out + [TwoUpPage(eps[i].page, page2, eps[i].name, name2)];
      i := i + 2;
    }
    assert out == Paired(eps)[..|Paired(eps)|];
  }

  /**
    The closing loop: each page's document is closed the first time it is
    met, tracked by the set of closed documents.
  */
  method CloseContributing(eps: seq<ExtraPage>) returns (closes: seq<DocRef>)
    ensures forall i, j :: 0 <= i < j < |closes| ==> closes[i] != closes[j]
    ensures forall d :: d in closes <==> exists j :: 0 <= j < |eps| && eps[j].page.doc == d
  {
    var closedDocs: set<DocRef> := {};
    closes := [];
    for j := 0 to |eps|
      invariant forall a, b :: 0 <= a < b < |closes| ==> closes[a] != closes[b]
      invariant forall d :: d in closes <==> d in closedDocs
      invariant forall d :: d in closedDocs <==> exists i :: 0 <= i < j && eps[i].page.doc == d
    {
      var doc := eps[j].page.doc;
      if doc !in closedDocs {
        closes := closes + [doc];
        closedDocs := closedDocs + {doc};
      }
    }
  }

  /** The extra-space document of a run, or the first question cell that does not convert. */
  function ExtraSpaceOutput(rows: seq<Row>, students: seq<Student>): Result<seq<ComposedPage>, ParseError> {
    match MaxQuestionPage(rows)
    case Err(e) => Err(e)
    case Ok(m) => Ok(Paired(ExtraOf(students, m)))
  }

  /**
    collate_extra_space up to the save: the two-up pages, and the documents
    closed, each once, in the order first met; or the conversion error.
  */
  method CollateExtraSpace(rows: seq<Row>, students: seq<Student>)
    returns (r: Result<seq<ComposedPage>, ParseError>, closes: seq<DocRef>)
    ensures r == ExtraSpaceOutput(rows, students)
    ensures r.Ok? ==> forall i, j :: 0 <= i < j < |closes| ==> closes[i] != closes[j]
    ensures r.Ok? ==> forall pos: nat :: pos < |students| ==>
      (StudentDoc(pos) in closes <==> MaxQuestionPage(rows).value < students[pos].pageCount)
    ensures r.Ok? ==> forall d :: d in closes ==> d.StudentDoc? && d.position < |students|
  {
    var maxQuestionPage := ComputeMaxQuestionPage(rows);
    if maxQuestionPage.Err? {
      return Err(maxQuestionPage.error), [];
    }
    var extra := CollectExtra(students, maxQuestionPage.value);
    var out := PairUp(extra);
    closes := CloseContributing(extra);
    forall pos: nat | pos < |students|
      ensures StudentDoc(pos) in closes <==> MaxQuestionPage(rows).value < students[pos].pageCount
    {
      ContributingDocs(students, maxQuestionPage.value, pos);
    }
    ExtraWellFormed(students, maxQuestionPage.value);
    forall d | d in closes
      ensures d.StudentDoc? && d.position < |students|
    {
      var j :| 0 <= j < |extra| && extra[j].page.doc == d;
      assert OfStudent(extra[j], students);
    }
    r := Ok(out);
  }
}
