/**
  The collator object (ExamCollator): it parses the page-mapping table into
  groups, collates each group in key order, then the extra-space pages, and
  records every file it saves.
*/
module Collator {
  import opened Wrappers
  import opened Text
  import opened PageRange
  import opened Grouping
  import opened Layout
  import opened Collation
  import opened ExtraSpace

  /** A saved output document: its file name and its composed pages. */
  datatype SavedFile = SavedFile(name: string, pages: seq<ComposedPage>)

  const ExtraSpaceFile: string := "Extra_space.pdf"

  /** `f"{main_q_id}.pdf"`. */
  function QuestionFile(mainId: string): (f: string)
    ensures |f| == |mainId| + 4 && f[..|mainId|] == mainId && f[|mainId|..] == ".pdf"
  {
    mainId + ".pdf"
  }

  /** The extra-space document is saved only when it has pages. */
  function ExtraFiles(out: seq<ComposedPage>): seq<SavedFile> {
    if out == [] then [] else [SavedFile(ExtraSpaceFile, out)]
  }

  /**
    The question documents of a run in the given key order: the files saved
    before the first error, and that error if there is one.
  */
  ghost function RunQuestions(order: seq<string>, groups: map<string, seq<Row>>, msCount: nat, students: seq<Student>)
    : (seq<SavedFile>, Option<CollateError>)
  {
    if order == [] then ([], None)
    else
      var before := RunQuestions(order[..|order| - 1], groups, msCount, students);
      if before.1.Some? then before
      else
        var k := order[|order| - 1];
        match QuestionOutput(k, Lookup(groups, k), msCount, students)
        case Err(e) => (before.0, Some(e))
        case Ok(pages) =>
          if pages == [] then (before.0, Some(EmptyDocument(QuestionFile(k))))
          else (before.0 + [SavedFile(QuestionFile(k), pages)], None)
  }

  /** One key more: the run either stops (with the files it had) or saves one more file, named after the key. */
  lemma RunQuestionsStep(order: seq<string>, groups: map<string, seq<Row>>, msCount: nat, students: seq<Student>)
    requires order != []
    ensures var before := RunQuestions(order[..|order| - 1], groups, msCount, students);
      var after := RunQuestions(order, groups, msCount, students);
      || (after.1.Some? && after.0 == before.0)
      || (before.1.None? && after.1.None? && after.0 == before.0 + [SavedFile(QuestionFile(order[|order| - 1]), after.0[|before.0|].pages)])
  {
  }

  /**
    The run saves one file per key, in key order, up to the first error:
    file i is named after key i, and without an error every key has its file.
  */
  lemma {:induction false} RunQuestionsFiles(order: seq<string>, groups: map<string, seq<Row>>, msCount: nat, students: seq<Student>)
    ensures var (files, err) := RunQuestions(order, groups, msCount, students);
      && |files| <= |order|
      && (err.None? ==> |files| == |order|)
      && (err.Some? ==> |files| < |order|)
      && forall i :: 0 <= i < |files| ==> files[i].name == QuestionFile(order[i])
  {
    if order != [] {
      var init := order[..|order| - 1];
      RunQuestionsFiles(init, groups, msCount, students);
      RunQuestionsStep(order, groups, msCount, students);
      var before := RunQuestions(init, groups, msCount, students);
      var after := RunQuestions(order, groups, msCount, students);
      forall i | 0 <= i < |after.0|
        ensures after.0[i].name == QuestionFile(order[i])
      {
        if i < |before.0| {
          assert init[i] == order[i];
          assert after.0[i] == before.0[i];
        }
      }
    }
  }

  predicate NoneEmpty(files: seq<SavedFile>) {
    forall i :: 0 <= i < |files| ==> files[i].pages != []
  }

  /** No saved question document is empty: a key whose document has no pages stops the run instead. */
  lemma {:induction false} RunQuestionsNonEmpty(order: seq<string>, groups: map<string, seq<Row>>, msCount: nat, students: seq<Student>)
    ensures NoneEmpty(RunQuestions(order, groups, msCount, students).0)
  {
    if order != [] {
      var init := order[..|order| - 1];
      RunQuestionsNonEmpty(init, groups, msCount, students);
      var before := RunQuestions(init, groups, msCount, students).0;
      var after := RunQuestions(order, groups, msCount, students).0;
      forall i | 0 <= i < |after|
        ensures after[i].pages != []
      {
        if i < |before| {
          assert after[i] == before[i];
        } else {
          var k := order[|order| - 1];
          assert RunQuestions(init, groups, msCount, students).1.None?;
          var out := QuestionOutput(k, Lookup(groups, k), msCount, students);
          assert out.Ok? && out.value != [] && after == before + [SavedFile(QuestionFile(k), out.value)];
          assert i == |before|;
          assert after[i] == SavedFile(QuestionFile(k), out.value);
        }
      }
    }
  }

  /** Saved file i holds the document of key i. */
  lemma {:induction false} RunQuestionsContents(order: seq<string>, groups: map<string, seq<Row>>, msCount: nat, students: seq<Student>)
    ensures var files := RunQuestions(order, groups, msCount, students).0;
      forall i :: 0 <= i < |files| ==> i < |order| && QuestionOutput(order[i], Lookup(groups, order[i]), msCount, students) == Ok(files[i].pages)
  {
    if order != [] {
      var init := order[..|order| - 1];
      RunQuestionsContents(init, groups, msCount, students);
      RunQuestionsFiles(init, groups, msCount, students);
      var before := RunQuestions(init, groups, msCount, students).0;
      var after := RunQuestions(order, groups, msCount, students).0;
      forall i | 0 <= i < |after|
        ensures i < |order| && QuestionOutput(order[i], Lookup(groups, order[i]), msCount, students) == Ok(after[i].pages)
      {
        if i < |before| {
          assert after[i] == before[i];
          assert init[i] == order[i];
        } else {
          var k := order[|order| - 1];
          assert RunQuestions(init, groups, msCount, students).1.None?;
          var out := QuestionOutput(k, Lookup(groups, k), msCount, students);
          assert out.Ok? && after == before + [SavedFile(QuestionFile(k), out.value)];
          assert i == |before| == |order| - 1;
        }
      }
    }
  }

  /** Different keys give different file names. */
  lemma QuestionFileInjective(a: string, b: string)
    requires QuestionFile(a) == QuestionFile(b)
    ensures a == b
  {
    assert |a| == |b|;
    assert QuestionFile(a)[..|a|] == a;
  }

  /** Every group key is "Q" followed by the leading digits (at least one) of some row's id. */
  lemma GroupKeyShape(rows: seq<Row>, k: string)
    requires k in GroupInto(map[], rows)
    ensures |k| >= 2 && k[0] == 'Q' && AllDigits(k[1..])
  {
    GroupIntoSpec(map[], rows, k);
    RowsWithKeyCarryKey(rows, k);
    var g := RowsWithKey(rows, k);
    assert MainKey(g[0].q) == Some(k);
    var d := LeadingDigits(Strip(g[0].q));
    assert k == "Q" + d && k[1..] == d;
  }

  /**
    A run never overwrites a file: the question documents have distinct
    names (the keys are distinct), and none is named like the
    extra-space document.
  */
  lemma SavedNamesDistinct(order: seq<string>, rows: seq<Row>, msCount: nat, students: seq<Student>, out: seq<ComposedPage>)
    requires forall i, j :: 0 <= i < j < |order| ==> LexLess(order[i], order[j])
    requires forall k :: k in order ==> k in GroupInto(map[], rows)
    ensures var files := RunQuestions(order, GroupInto(map[], rows), msCount, students).0 + ExtraFiles(out);
      forall i, j :: 0 <= i < j < |files| ==> files[i].name != files[j].name
  {
    var groups := GroupInto(map[], rows);
    var qfiles := RunQuestions(order, groups, msCount, students).0;
    var files := qfiles + ExtraFiles(out);
    RunQuestionsFiles(order, groups, msCount, students);
    forall i, j | 0 <= i < j < |files|
      ensures files[i].name != files[j].name
    {
      assert files[i] == qfiles[i];
      GroupKeyShape(rows, order[i]);
      if j < |qfiles| {
        if files[i].name == files[j].name {
          QuestionFileInjective(order[i], order[j]);
          LexLessIrreflexive(order[i]);
        }
      } else {
        assert files[j].name == ExtraSpaceFile;
        assert QuestionFile(order[i])[0] == 'Q';
      }
    }
  }

  class ExamCollator {
    /** The page count of the mark-scheme document. */
    var markSchemePageCount: nat
    /** The student response documents, in discovery (file-name) order. */
    var students: seq<Student>
    /** The rows of the page-mapping table (`page_map_df`). */
    var pageMap: seq<Row>
    /** `questions_by_main`: the rows of each main question, in table order. */
    var questionsByMain: map<string, seq<Row>>
    /** The documents saved so far, in the order they were saved. */
    var saved: seq<SavedFile>

    /** A collator over discovered inputs, before the table is parsed. */
    constructor(markSchemePageCount: nat, students: seq<Student>)
      ensures this.markSchemePageCount == markSchemePageCount && this.students == students
      ensures pageMap == [] && questionsByMain == map[] && saved == []
    {
      this.markSchemePageCount := markSchemePageCount;
      this.students := students;
      pageMap := [];
      questionsByMain := map[];
      saved := [];
    }

    /**
      parse_page_mapping: keep the table and append every row whose id has
      leading digits to the group of its key.
    */
    method ParsePageMapping(table: seq<Row>)
      modifies this
      ensures pageMap == table
      ensures questionsByMain == GroupInto(old(questionsByMain), table)
      ensures markSchemePageCount == old(markSchemePageCount) && students == old(students) && saved == old(saved)
    {
      pageMap := table;
      for i := 0 to |table|
        invariant pageMap == table
        invariant questionsByMain == GroupInto(old(questionsByMain), table[..i])
        invariant markSchemePageCount == old(markSchemePageCount) && students == old(students) && saved == old(saved)
      {
        assert table[..i + 1][..i] == table[..i];
        var row := table[i];
        var key := MainKey(row.q);
        if key.Some? {
          questionsByMain := questionsByMain[key.value := Lookup(questionsByMain, key.value) + [row]];
        }
      }
      assert table[..|table|] == table;
    }

    /**
      collate_question: compose the group's document and save it as
      `<key>.pdf`, or stop with the error; a document without pages cannot
      be saved and stops the run too.
    */
    method CollateQuestion(mainId: string, rows: seq<Row>) returns (err: Option<CollateError>)
      modifies this
      ensures match QuestionOutput(mainId, rows, markSchemePageCount, students)
        case Err(e) => err == Some(e) && saved == old(saved)
        case Ok(pages) =>
          if pages == [] then err == Some(EmptyDocument(QuestionFile(mainId))) && saved == old(saved)
          else err == None && saved == old(saved) + [SavedFile(QuestionFile(mainId), pages)]
      ensures markSchemePageCount == old(markSchemePageCount) && students == old(students)
      ensures pageMap == old(pageMap) && questionsByMain == old(questionsByMain)
    {
      var r := Collation.CollateQuestion(mainId, rows, markSchemePageCount, students);
      if r.Err? {
        return Some(r.error);
      }
      if |r.value| == 0 {
        return Some(EmptyDocument(QuestionFile(mainId)));
      }
      saved := saved + [SavedFile(QuestionFile(mainId), r.value)];
      err := None;
    }

    /**
      collate_extra_space: compose the two-up pages and save them as
      Extra_space.pdf only when there are any; the documents that
      contributed pages are closed, each once.
    */
    method CollateExtraSpace() returns (err: Option<CollateError>, closes: seq<DocRef>)
      modifies this
      ensures match ExtraSpaceOutput(pageMap, students)
        case Err(e) => err == Some(BadPageRange(e)) && saved == old(saved)
        case Ok(out) => err == None && saved == old(saved) + ExtraFiles(out)
      ensures err.None? ==> forall i, j :: 0 <= i < j < |closes| ==> closes[i] != closes[j]
      ensures err.None? ==> forall pos: nat :: pos < |students| ==>
        (StudentDoc(pos) in closes <==> MaxQuestionPage(pageMap).value < students[pos].pageCount)
      ensures err.None? ==> forall d :: d in closes ==> d.StudentDoc? && d.position < |students|
      ensures markSchemePageCount == old(markSchemePageCount) && students == old(students)
      ensures pageMap == old(pageMap) && questionsByMain == old(questionsByMain)
    {
      var r;
      r, closes := ExtraSpace.CollateExtraSpace(pageMap, students);
      if r.Err? {
        return Some(BadPageRange(r.error)), closes;
      }
      if |r.value| > 0 {
        saved := saved + [SavedFile(ExtraSpaceFile, r.value)];
      }
      err := None;
    }

    /**
      collate_all: every group in ascending key order, then the extra-space
      pages; the first error stops the run, and the files saved before it stay.
    */
    method CollateAll() returns (order: seq<string>, err: Option<CollateError>)
      modifies this
      ensures forall i, j :: 0 <= i < j < |order| ==> LexLess(order[i], order[j])
      ensures forall k :: k in order <==> k in questionsByMain
      ensures var (files, qerr) := RunQuestions(order, questionsByMain, markSchemePageCount, students);
        if qerr.Some? then err == qerr && saved == old(saved) + files
        else match ExtraSpaceOutput(pageMap, students)
          case Err(e) => err == Some(BadPageRange(e)) && saved == old(saved) + files
          case Ok(out) => err == None && saved == old(saved) + files + ExtraFiles(out)
      ensures markSchemePageCount == old(markSchemePageCount) && students == old(students)
      ensures pageMap == old(pageMap) && questionsByMain == old(questionsByMain)
    {
      order := SortedKeys(questionsByMain.Keys);
      for i := 0 to |order|
        invariant markSchemePageCount == old(markSchemePageCount) && students == old(students)
        invariant pageMap == old(pageMap) && questionsByMain == old(questionsByMain)
        invariant var (files, qerr) := RunQuestions(order[..i], questionsByMain, markSchemePageCount, students);
          qerr.None? && saved == old(saved) + files
      {
        var key := order[i];
        assert key in questionsByMain;
        assert Lookup(questionsByMain, key) == questionsByMain[key];
        RunQuestionsSnoc(order, i, questionsByMain, markSchemePageCount, students);
        err := CollateQuestion(key, questionsByMain[key]);
        if err.Some? {
          RunQuestionsErrSticks(order, i + 1, questionsByMain, markSchemePageCount, students);
          return;
        }
      }
      assert order[..|order|] == order;
      ghost var files := RunQuestions(order, questionsByMain, markSchemePageCount, students).0;
      assert saved == old(saved) + files;
      var closes;
      err, closes := CollateExtraSpace();
    }
  }

  /** Collating key i after a prefix that ran cleanly. */
  lemma RunQuestionsSnoc(order: seq<string>, i: nat, groups: map<string, seq<Row>>, msCount: nat, students: seq<Student>)
    requires i < |order| && RunQuestions(order[..i], groups, msCount, students).1.None?
    ensures var before := RunQuestions(order[..i], groups, msCount, students).0;
      RunQuestions(order[..i + 1], groups, msCount, students) ==
        match QuestionOutput(order[i], Lookup(groups, order[i]), msCount, students)
        case Err(e) => (before, Some(e))
        case Ok(pages) =>
          if pages == [] then (before, Some(EmptyDocument(QuestionFile(order[i]))))
          else (before + [SavedFile(QuestionFile(order[i]), pages)], None)
  {
    assert order[..i + 1][..i] == order[..i];
  }

  /** Once a prefix of the keys stops the run, the whole run stops there with the same files. */
  lemma {:induction false} RunQuestionsErrSticks(order: seq<string>, i: nat, groups: map<string, seq<Row>>, msCount: nat, students: seq<Student>)
    requires i <= |order| && RunQuestions(order[..i], groups, msCount, students).1.Some?
    ensures RunQuestions(order, groups, msCount, students) == RunQuestions(order[..i], groups, msCount, students)
  {
    if i < |order| {
      assert order[..|order| - 1][..i] == order[..i];
      RunQuestionsErrSticks(order[..|order| - 1], i, groups, msCount, students);
    } else {
      assert order[..i] == order;
    }
  }
}
