# Exam response collation, modelled in Dafny

The program collates scanned exam answers for marking. A page-mapping table
says, for each sub-question ("1a", "2b(i)", ...), which pages of the
question paper hold it and which pages of the mark scheme mark it. The
collator files the rows under their main question ("Q1", "Q2", ...). For
each main question it writes one document, `Q<N>.pdf`. Every page of that
document shows:

- one page of one student's answer booklet on the left 60%;
- the question's mark-scheme pages on the right: one page fills the side,
  two are stacked, and any other number leaves it blank;
- a label bar at the bottom of the student's side reading
  `<student> Question <N>`, with ` (page i/total)` added when the student
  has more than one page for the question.

Pages past the last question page of any row are the students' extra
space. They are collected student by student and placed two to a landscape
page in `Extra_space.pdf`. That file is written only when there are such
pages.

The model covers:

- the page-range cell language;
- the grouping of rows and the order in which groups are processed;
- the layout of both kinds of page, as a plan of which source page goes
  into which rectangle and which label goes where;
- per-question collation;
- extra-space collation;
- the collator object that runs them in order and records every file it
  saves.

Documents are modelled by their page count. A source page is a
`Page(doc, index)`. A composed page is the list of placements and labels
it would draw.

Module by module (one file each):

- `wrappers.dfy`: `Option` and `Result`.
- `text.dfy`: the Python string behaviour the program relies on:
  - `str.strip()` over ASCII whitespace;
  - `str(n)` for a natural number;
  - `str.split` and `str.join` on one character;
  - Python's `<` on strings, which is code-point lexicographic.
- `page_range.dfy`: `parse_page_range`, with `int()` on the text it is given.
- `grouping.dfy`: the grouping loop of `parse_page_mapping` and `sorted(keys)`.
- `layout.dfy`: `create_landscape_page`, `create_two_up_landscape_page` and
  `_add_label_to_rect`.
  - Coordinates are whole tenths of a point, so the 60/40 split
    (505.2 points) and the half height (297.5 points) are exact.
- `collation.dfy`: `collate_question`. It is stated as specification
  functions (`QuestionOutput`, `QuestionPlan`, `PlanFor`) and implemented
  by loop methods proved equal to them.
- `extra_space.dfy`: `collate_extra_space`, the same way (`ExtraSpaceOutput`).
- `collator.dfy`: the `ExamCollator` class. Its fields are the mark-scheme
  page count, the students, the table, `questions_by_main` and the list of
  saved files. Its methods are `ParsePageMapping`, `CollateQuestion`,
  `CollateExtraSpace` and `CollateAll`.

Behaviour of the code that the model keeps as written:

- A page number 0 passes the check `p - 1 < len(doc)` and is read as
  `doc[-1]`, the last page of the document. On an empty student document
  this is an IndexError. `PyIndex` models Python's negative indexing, and
  `StudentLookupOk` and `PlanOkIff` state exactly when this fails.
- A mark-scheme page past the end of the mark scheme is an IndexError. It
  is modelled as the error value `MarkSchemePageMissing`.
- A student page past the end of the student's document is skipped, not
  an error.
- A reversed range such as "10-8" gives no pages at all, and no error,
  because `range(10, 9)` is empty (`ExampleReversed`).
- A missing (NaN) cell gives no pages. A present cell that strips to
  nothing is passed to `int("")` and is an error.
- With three or more '-'-separated parts, `map(int, ...)` converts the
  third part before the unpacking fails. So a bad third part reports its
  own conversion error, and otherwise the error is "too many values".
- Saving a question document with no pages fails, because the PDF
  library refuses to save a document without pages. Examples are a
  question whose cells name no pages, or one whose pages lie past the end
  of every student's document. The model makes this the error
  `EmptyDocument`, which stops the run like any other error.
  `Extra_space.pdf` is guarded by a page-count test and never hits this.
- The first error of a run stops it. Question documents saved before it
  stay saved.
- Groups are processed in Python's string order, so "Q10" comes before
  "Q2".

## Model

| member | source | states |
|---|---|---|
| Text.Strip | collate_responses.py:106 | the result neither starts nor ends with whitespace; StripSurround states that only whitespace is removed |
| Text.StripIdempotent | collate_responses.py:106 | stripping twice is stripping once |
| Text.StripNoSpace | collate_responses.py:88 | a string with no whitespace at either end is left unchanged |
| Text.TrimStartIsSuffix | collate_responses.py:106 | lstrip removes only a prefix |
| Text.TrimEndIsPrefix | collate_responses.py:106 | rstrip removes only a suffix |
| Text.TrimStart | collate_responses.py:106 | lstrip never lengthens and its result does not start with whitespace; TrimStartDropsSpace states that it drops only whitespace |
| Text.TrimStartDropsSpace | collate_responses.py:106 | every character lstrip drops is whitespace |
| Text.TrimEnd | collate_responses.py:106 | rstrip never lengthens and its result does not end with whitespace; TrimEndDropsSpace states that it drops only whitespace |
| Text.TrimEndDropsSpace | collate_responses.py:106 | every character rstrip drops is whitespace |
| Text.TrimStartNoSpace | collate_responses.py:106 | lstrip leaves text that starts with a non-blank unchanged |
| Text.TrimEndNoSpace | collate_responses.py:106 | rstrip leaves text that ends with a non-blank unchanged |
| Text.StripSurround | collate_responses.py:106 | strip removes only whitespace: the input is a whitespace run, then the stripped text, then a whitespace run |
| Text.NatToString | collate_responses.py:238 | `str(n)` for a natural number; its digits and value are stated by NatToStringDigits |
| Text.NatToStringDigits | collate_responses.py:238 | `str(n)` is a non-empty run of digits with no leading zero whose value is n |
| Text.NatToStringInjective | collate_responses.py:238 | different page numbers render as different text |
| Text.Split | collate_responses.py:108 | split gives at least one part, at least two exactly when the separator occurs, and the first part is a prefix of the input |
| Text.SplitCount | collate_responses.py:108 | split gives one more part than there are separators |
| Text.SplitPartsFree | collate_responses.py:108 | no part contains the separator |
| Text.JoinSplit | collate_responses.py:108 | joining the parts with the separator restores the input (split's inverse) |
| Text.SplitFree | collate_responses.py:108 | text without the separator splits into itself alone |
| Text.SplitAround | collate_responses.py:108 | `a-b` with no '-' in a or b splits into exactly [a, b] |
| Text.LexLessIrreflexive | collate_responses.py:403 | no key sorts before itself |
| Text.LexLessTransitive | collate_responses.py:403 | Python's string order is transitive |
| Text.LexLessTotal | collate_responses.py:403 | of two different keys, one sorts first |
| Text.LexLessAsymmetric | collate_responses.py:403 | two keys never sort before each other |
| Text.LexLess | collate_responses.py:403 | Python's `<` on strings (code-point lexicographic); it is a strict total order by the four lemmas above |
| PageRange.Range | collate_responses.py:109 | `range(a, b+1)` is ascending and holds exactly the x with a <= x <= b |
| PageRange.ParseInt | collate_responses.py:108-111 | `int()` on text: strip, optional '+', ASCII digits; its round trip is ParseIntNatToString and ParseIntPadded, what it accepts is ParseIntDigitsOnly, and its failures are NoDigitParseInt and ParseIntStray |
| PageRange.ParsePageRange | collate_responses.py:102-111 | a missing cell gives no pages; any successful result is strictly ascending; a successful cell holds at most one '-' |
| PageRange.ParseIntNatToString | collate_responses.py:111 | `int(str(n)) == n` (round trip) |
| PageRange.ParseSinglePage | collate_responses.py:110-111 | the cell `str(n)` is exactly page n |
| PageRange.ParseTwoSides | collate_responses.py:107-109 | a stripped cell `left-right` whose sides convert to a and b is the inclusive range a..b |
| PageRange.ParseRangeRoundTrip | collate_responses.py:107-109 | the cell `str(a)-str(b)` is the range a..b, and that range is empty when a > b |
| PageRange.StripPadded | collate_responses.py:106 | a blank on either side of a word is stripped |
| PageRange.StripSpacedRange | collate_responses.py:106 | stripping " a - b " leaves the inner blanks, next to the '-' |
| PageRange.ParseIntPadded | collate_responses.py:108 | `int()` ignores a blank on either side of a number |
| PageRange.ParseSpaced | collate_responses.py:106-109 | " a - b " parses to a..b when both sides are numbers |
| PageRange.NatToStringWord | collate_responses.py:108 | a rendered number holds no '-' or edge blank and converts back to itself |
| PageRange.ParseSpacedRange | collate_responses.py:106-109 | " str(a) - str(b) " is the range a..b |
| PageRange.NoDigitStrip | collate_responses.py:106 | stripping does not create digits |
| PageRange.NoDigitParseInt | collate_responses.py:111 | `int()` rejects text without a digit |
| PageRange.ParseIntDigitsOnly | collate_responses.py:108-111 | whatever `int()` accepts strips to a non-empty run of ASCII digits, with at most a leading '+' |
| PageRange.NonSpaceKept | collate_responses.py:106 | a non-blank character survives strip(), shifted by the leading whitespace |
| PageRange.ParseIntStray | collate_responses.py:108-111 | `int()` rejects text holding a character that is not a digit, sign, '-' or whitespace |
| PageRange.ParsePageRangeOk | collate_responses.py:102-111 | a cell that converts is one number (its pages are that number) or exactly two '-'-free numbers around one '-' (its pages are the range between them): the converse of ParseSinglePage and ParseTwoSides |
| PageRange.StraySide | collate_responses.py:108-109 | in `left-right`, a stray character makes one side fail to convert |
| PageRange.StrayFails | collate_responses.py:106-111 | a cell holding a letter, comma, '.' or other stray character is an error |
| PageRange.ExamplesRejected | collate_responses.py:102-111 | "8a", "8,9", "8.0" and "8-x" are errors |
| PageRange.NoDigitFails | collate_responses.py:102-111 | a present cell without any digit is a conversion error |
| PageRange.ExampleSingle | collate_responses.py:110-111 | "8" is [8] |
| PageRange.ExampleRange | collate_responses.py:107-109 | "8-10" is [8, 9, 10] |
| PageRange.RenderedEight | collate_responses.py:107-109 | the text "8-10" is `str(8) + "-" + str(10)` |
| PageRange.RangeEightToTen | collate_responses.py:109 | `range(8, 11)` is [8, 9, 10] |
| PageRange.ExampleReversed | collate_responses.py:107-109 | "10-8" is no pages, not an error |
| Grouping.LeadingDigits | collate_responses.py:90 | the match of `^(\d+)` on ASCII digits: all digits, a prefix of the input, and maximal (the next character is not a digit) |
| Grouping.MainKey | collate_responses.py:88-95 | the group key "Q" + leading digits of the stripped id, or none; characterised by DroppedIff and SameGroupIff |
| Grouping.GroupInto | collate_responses.py:87-95 | the grouping loop as a function of the old groups and the rows; its result is characterised by GroupIntoSpec |
| Grouping.DroppedIff | collate_responses.py:88-92 | a row is dropped exactly when its stripped id is empty or does not start with a digit |
| Grouping.SameGroupIff | collate_responses.py:90-95 | two kept rows share a group exactly when their stripped ids have the same leading digits |
| Grouping.KeySubParts | collate_responses.py:93-95 | "1", "1a" and "1b(i)" all go to Q1 |
| Grouping.KeyPadded | collate_responses.py:88-95 | " 12c " goes to Q12 |
| Grouping.KeyLeadingZero | collate_responses.py:94-95 | "01" goes to Q01, a different group from "1" |
| Grouping.KeyTotalsRow | collate_responses.py:89-92 | a TOTAL row is dropped |
| Grouping.RowsWithKey | collate_responses.py:87-95 | the rows carrying a key are no more than the rows |
| Grouping.RowsWithKeyCarryKey | collate_responses.py:87-95 | every row selected for a key carries that key |
| Grouping.GroupIntoSpec | collate_responses.py:87-95 | after the loop, each key's list is its old list plus exactly the rows carrying it, in table order, and a key exists iff it existed or some row carries it |
| Grouping.GroupMembersCarryKey | collate_responses.py:87-95 | every row in a group carries that group's key |
| Grouping.KeptRowIsGrouped | collate_responses.py:87-95 | every row with a leading digit is in the group of its key |
| Grouping.RowWithKeySelected | collate_responses.py:87-95 | a row carrying a key is among that key's rows |
| Grouping.DroppedRowIsNotGrouped | collate_responses.py:89-92 | a dropped row is in no group |
| Grouping.LeastKeyExists | collate_responses.py:403 | every non-empty key set has a least key in Python's string order |
| Grouping.SortedKeys | collate_responses.py:403 | `sorted(keys)`: strictly ascending in Python's string order and holding exactly the keys |
| Grouping.KeyOrderIsTextual | collate_responses.py:403 | "Q10" is processed before "Q2" |
| Layout.LabelOverInside | collate_responses.py:305-327 | the bar is 40 points high across the bottom edge of its region; the text origin is 10 points in from the left and 12 points up from the bottom; in a region at least that large, bar and origin lie inside it |
| Layout.LabelOver | collate_responses.py:305-327 | `_add_label_to_rect`: the bar and text origin over a region; their offsets are stated by LabelOverInside |
| Layout.ChooseSlot | collate_responses.py:145-155 | the right side shows the mark-scheme pages when there are one or two, and nothing otherwise |
| Layout.PlacedPages | collate_responses.py:142-155 | one source page per placement |
| Layout.QuestionPage | collate_responses.py:113-183 | `create_landscape_page`; its placements and label are stated by QuestionPageLayout |
| Layout.QuestionPageLayout | collate_responses.py:113-183 | the student page fills the left 60%; a single mark-scheme page fills the right 40%; two are stacked, the first on the top half and the second on the bottom half; nothing overlaps and everything is on the sheet; one label with the given text, whose bar and origin lie on the student's side |
| Layout.TwoUpLayout | collate_responses.py:263-303 | page 1 on the left half and page 2, if any, on the right; nothing overlaps; the right label is drawn exactly when page 2 exists with a non-empty name; each label reads "<name> Extra Space" inside its half |
| Layout.TwoUpPage | collate_responses.py:263-303 | `create_two_up_landscape_page`; its placements and labels are stated by TwoUpLayout and TwoUpLabelsApart |
| Layout.TwoUpLabelsApart | collate_responses.py:293-301 | the two label bars of a two-up page do not overlap |
| Collation.PageSetFromRows | collate_responses.py:199-203 | every collected page comes from some row's cell in that column |
| Collation.PageSetHasRow | collate_responses.py:199-203 | every page of every row's cell is collected |
| Collation.RowPageSets | collate_responses.py:196-203 | the two page sets collected over the rows, or the first conversion error; stated by PageSetFromRows, PageSetHasRow and RowPageSetsErrSticks |
| Collation.RowPageSetsErrSticks | collate_responses.py:199-201 | the first row whose cell fails to convert decides the group's error |
| Collation.RowPageSetsOkIff | collate_responses.py:199-203 | the page sets are collected exactly when both cells of every row convert |
| Collation.LeastExists | collate_responses.py:205-206 | every non-empty page set has a least page |
| Collation.SortedExists | collate_responses.py:205-206 | every page set has an ascending listing |
| Collation.SortedUnique | collate_responses.py:205-206 | that listing is unique |
| Collation.SortedHeadIsLeast | collate_responses.py:205-206 | the first sorted page is the least page of the set |
| Collation.SortedEmptyIff | collate_responses.py:205-206 | the sorted list is empty exactly when the set is |
| Collation.SortedTail | collate_responses.py:205-206 | after the first page, the rest lists the remaining set in order |
| Collation.SortedOf | collate_responses.py:205-206 | `sorted(list(s))` lists s ascending, each page once |
| Collation.SortedList | collate_responses.py:205-206 | the selection loop yields the ascending listing of the set |
| Collation.CollectPageSets | collate_responses.py:196-203 | the row loop computes the two page sets, or the first conversion error |
| Collation.CollectPages | collate_responses.py:196-206 | the two sorted page lists of the group, or its conversion error |
| Collation.Kept | collate_responses.py:226-229 | a student never has more kept pages than the question has pages |
| Collation.KeptMembers | collate_responses.py:227-229 | page p is kept exactly when it is a question page and `p - 1 < len(student_doc)` |
| Collation.KeptAppend | collate_responses.py:227-229 | filtering distributes over concatenation |
| Collation.KeptIsIncreasingPrefix | collate_responses.py:227-229 | for ascending question pages the kept pages are ascending and a prefix of them |
| Collation.KeptAll | collate_responses.py:227-229 | when every page passes the check, all are kept |
| Collation.KeptMonotone | collate_responses.py:227-229 | a longer document never keeps fewer pages |
| Collation.PyIndex | collate_responses.py:215 | Python's `doc[i]`: defined exactly when -n <= i < n, and then a valid 0-based index |
| Collation.LookupPages | collate_responses.py:215 | a successful lookup gives one page per page number |
| Collation.LookupErrSticks | collate_responses.py:215 | the first missing page decides the error, whatever follows it |
| Collation.LookupKeptErrSticks | collate_responses.py:226-229 | when a prefix of the question pages already fails, the whole list fails the same way |
| Collation.LookupPagesSpec | collate_responses.py:215 | the lookup succeeds exactly when every page exists; page j of the result is `doc[ps[j] - 1]`; otherwise the error names a missing page |
| Collation.StudentLookupOk | collate_responses.py:227-229 | a student's kept pages all exist unless page 0 is a question page and the document is empty |
| Collation.StudentPageIndex | collate_responses.py:229 | kept page p shows index p - 1, and page 0 shows the last page |
| Collation.LabelShape | collate_responses.py:232-240 | with more than one page the label is "<name> Question <N> (page " + str(i) + "/" + str(total) + ")" |
| Collation.QuestionLabel | collate_responses.py:232-240 | the label text of a question page; its shape and distinctness are LabelShape, LabelWithoutSuffix and LabelsDistinct |
| Collation.LabelsDistinct | collate_responses.py:235-240 | two pages of one student's question never carry the same label |
| Collation.LabelWithoutSuffix | collate_responses.py:169-171 | with a single page the label has no page suffix |
| Collation.StudentPages | collate_responses.py:235-250 | one composed page per kept page |
| Collation.StudentPagesUpTo | collate_responses.py:235-250 | the first n composed pages of a student, one per kept page |
| Collation.StudentPagesAt | collate_responses.py:235-250 | composed page j shows the student's page j, labelled as page j+1 of all |
| Collation.PlanErrSticks | collate_responses.py:221-229 | the first student whose page lookup fails decides the question's error |
| Collation.PlanFor | collate_responses.py:221-252 | the student loop as a function: each student's composed pages in discovery order, or the first lookup error; stated by PlanOkIff, PlanPageCount, PlanPagesShowSlot, PlanForAt and PlanErrSticks |
| Collation.StudentPlan | collate_responses.py:225-250 | one student's composed pages: one per kept question page |
| Collation.PlanForSplit | collate_responses.py:221-252 | a successful plan is the plan of the earlier students followed by the last student's pages, and that earlier plan has one page per earlier kept page |
| Collation.PlanForPrefix | collate_responses.py:221-252 | the plan of the first n students is a prefix of the plan of all of them |
| Collation.PlanForPrefixStep | collate_responses.py:221-252 | the plan begins with the plan of the first n students followed by student n's pages |
| Collation.PlanForSlot | collate_responses.py:221-252 | student s's j-th composed page is at position (kept pages of earlier students) + j |
| Collation.PlanForAt | collate_responses.py:221-250 | the page at position (kept pages of students before s) + j shows student s's j-th kept page, in the chosen mark-scheme slot, labelled with their name, the question and page j+1 of all of theirs |
| Collation.QuestionPlan | collate_responses.py:211-252 | the mark-scheme lookup, then the slot and the student loop; implemented by PlanQuestion |
| Collation.QuestionOutput | collate_responses.py:185-252 | the document of one question, or the first error; implemented by CollateQuestion |
| Collation.PlanPageCount | collate_responses.py:221-250 | the question document has one page per (student, kept page) |
| Collation.SomeEmptySnoc | collate_responses.py:221-229 | some document is empty exactly when an earlier one is or the last one is |
| Collation.PlanOkIff | collate_responses.py:221-229 | composing fails exactly when page 0 is a question page and some student document is empty |
| Collation.StudentPagesShowSlot | collate_responses.py:243-250 | each of a student's composed pages shows a student page and then the slot |
| Collation.PlanPagesShowSlot | collate_responses.py:221-250 | every page of the question document shows one student page, then the question's mark-scheme slot, under one label |
| Collation.MarkSchemePages | collate_responses.py:215 | the comprehension loop returns exactly the specified lookup |
| Collation.PagesToProcess | collate_responses.py:226-229 | the filtering loop returns the lookup of exactly the kept pages |
| Collation.ComposeStudent | collate_responses.py:235-250 | the enumerate loop builds exactly the student's composed pages |
| Collation.PlanQuestion | collate_responses.py:211-252 | the mark-scheme lookup, slot choice and student loop compute `QuestionPlan` |
| Collation.CollateQuestion | collate_responses.py:185-261 | the whole method computes `QuestionOutput`: the document, or the first error |
| ExtraSpace.MaxOf | collate_responses.py:338 | `max(q_pages)` bounds every page and is one of them |
| ExtraSpace.MaxQuestionPage | collate_responses.py:334-338 | max_question_page, or the first conversion error; stated by MaxQuestionPageBounds, MaxQuestionPageAttained and MaxQuestionPageErrSticks |
| ExtraSpace.MaxQuestionPageBounds | collate_responses.py:334-338 | every question page of every row is at most max_question_page |
| ExtraSpace.MaxQuestionPageAttained | collate_responses.py:334-338 | max_question_page is 0 or some row's question page |
| ExtraSpace.MaxQuestionPageErrSticks | collate_responses.py:335-336 | the first row that fails to convert decides the error |
| ExtraSpace.MaxQuestionPageOkIff | collate_responses.py:334-338 | max_question_page is computed exactly when every row's question cell converts |
| ExtraSpace.ComputeMaxQuestionPage | collate_responses.py:334-338 | the max-accumulator loop computes `MaxQuestionPage` |
| ExtraSpace.StudentExtra | collate_responses.py:353-358 | a student contributes `pageCount - m` pages when that is positive, and none otherwise |
| ExtraSpace.ExtraOf | collate_responses.py:346-358 | the extra pages of all students; stated by ExtraMembers, ExtraWellFormed and ContributingDocs |
| ExtraSpace.ExtraMembers | collate_responses.py:348-358 | page i of student pos is collected exactly when m <= i < pageCount |
| ExtraSpace.ExtraWellFormed | collate_responses.py:348-358 | every collected page carries its own student's name, and pages are in student order, then page order |
| ExtraSpace.ContributingDocs | collate_responses.py:348-358 | a student's document contributes exactly when it has more than m pages |
| ExtraSpace.CollectExtra | collate_responses.py:346-358 | the nested collection loop computes `ExtraOf` |
| ExtraSpace.Paired | collate_responses.py:363-373 | ceil(n/2) two-up pages |
| ExtraSpace.Pair | collate_responses.py:363-373 | two-up page k of the pairing; stated by PairPages and PairShape |
| ExtraSpace.PagesOf | collate_responses.py:354-358 | one source page per collected page |
| ExtraSpace.PairPages | collate_responses.py:363-373 | pair k shows page 2k and then page 2k+1 when it exists |
| ExtraSpace.PairedPrefix | collate_responses.py:363-373 | the first k two-up pages show exactly the first 2k collected pages, in order |
| ExtraSpace.PairedShowsAll | collate_responses.py:363-373 | pairing loses, duplicates and reorders no page |
| ExtraSpace.PairShape | collate_responses.py:363-373 | pair k holds two pages exactly when page 2k+1 exists; its right label exists exactly when that page's student name is non-empty |
| ExtraSpace.OddLastAlone | collate_responses.py:365 | with an odd number of pages the last page is alone on the left with one label |
| ExtraSpace.PairUp | collate_responses.py:363-373 | the stride-2 loop computes `Paired` |
| ExtraSpace.CloseContributing | collate_responses.py:376-380 | each contributing document is closed once, and only those |
| ExtraSpace.ExtraSpaceOutput | collate_responses.py:329-373 | the extra-space document, or the first conversion error; implemented by CollateExtraSpace |
| ExtraSpace.CollateExtraSpace | collate_responses.py:329-391 | the method computes `ExtraSpaceOutput`; the documents it closes are distinct, are all student documents, and are exactly the students with more pages than max_question_page |
| Collator.QuestionFile | collate_responses.py:255 | `<key>.pdf` is the key followed by exactly ".pdf" |
| Collator.ExtraFiles | collate_responses.py:383-391 | Extra_space.pdf is saved only when it has pages |
| Collator.RunQuestions | collate_responses.py:402-404 | the question documents saved in key order up to the first error; stated by RunQuestionsFiles, RunQuestionsStep, RunQuestionsNonEmpty and RunQuestionsErrSticks |
| Collator.RunQuestionsFiles | collate_responses.py:402-404 | a run saves one file per key, in key order, up to the first error; with no error every key has its file |
| Collator.RunQuestionsContents | collate_responses.py:402-404 | the i-th saved question document holds exactly the pages composed for the i-th key |
| Collator.RunQuestionsNonEmpty | collate_responses.py:255-257 | no saved question document is empty: a key whose document has no pages stops the run |
| Collator.RunQuestionsStep | collate_responses.py:402-404 | one more key either fails and saves nothing, or (after no earlier error) saves exactly `<key>.pdf` |
| Collator.RunQuestionsErrSticks | collate_responses.py:402-404 | once a key fails, the rest of the keys are not collated |
| Collator.QuestionFileInjective | collate_responses.py:255 | different keys give different file names |
| Collator.GroupKeyShape | collate_responses.py:95 | every group key is "Q" followed by one or more ASCII digits |
| Collator.SavedNamesDistinct | collate_responses.py:255-386 | no run writes the same file twice: question files are distinct and none is named Extra_space.pdf |
| Collator.ExamCollator.constructor | collate_responses.py:25-39 | a collator starts with no table, no groups and no saved files |
| Collator.ExamCollator.ParsePageMapping | collate_responses.py:76-95 | the table is kept and `questions_by_main` becomes the old groups extended by the grouping loop |
| Collator.ExamCollator.CollateQuestion | collate_responses.py:185-261 | on success `<key>.pdf` with the question's pages is appended to the saved files; on error, or when the document has no pages (which cannot be saved), nothing is saved and the error is returned; nothing else changes |
| Collator.ExamCollator.CollateExtraSpace | collate_responses.py:329-391 | Extra_space.pdf is saved only when it has pages; the closed documents are distinct, are all student documents, and are exactly the contributing ones |
| Collator.ExamCollator.CollateAll | collate_responses.py:393-407 | keys in ascending string order, each once; the saved files are the non-empty question documents up to the first error, then the extra-space document if no error came first |

## Left out

- File discovery (`discover_inputs`) and `run`: a collator is built from
  the mark-scheme page count and the students' names and page counts.
  Students are in `sorted()` file-name order. The name is the file stem.
- Reading the CSV (tab-separated first, comma-separated as fallback) is
  left out. A row is its `Q` text and its two page-map cells. A missing
  (NaN) cell is `None`. Any other cell is the text `str()` gives it: a
  numeric column read as floats would give "8.0", which `int()` rejects,
  and the model takes whatever text the cell holds.
- Unicode in the text functions. `int()`, `str.strip()` and the `\d` of
  the `^(\d+)` match in `re.match` are modelled on ASCII only. On `str`,
  Python's `\d` matches any Unicode decimal digit. `strip()` and `int()`
  also accept non-ASCII whitespace, and `int()` allows underscores between
  digits. So a Q cell such as "\u00a012" (a no-break space before 12)
  goes to group Q12 in Python but is dropped by `MainKey`. Likewise a cell
  with non-ASCII digits is read by Python and rejected by the model.
- Rendering is left out: PyMuPDF drawing, fonts, colours and opacity. A
  composed page records which source page goes into which rectangle, and
  the label bar, text origin and text.
- Floating-point geometry: coordinates are exact tenths of a point. This
  is how the values 505.2 and 297.5 are meant; IEEE rounding is left out.
- Opening and closing documents in `collate_question` are left out. Saving
  is modelled as appending a `SavedFile` to the collator's list. The only
  save failure modelled is the refusal of a document without pages
  (`EmptyDocument`). Write failures such as a full disk or a missing
  permission are left out.
- Progress printing is left out.
- Creating the output directory is left out.
- In `collate_extra_space`, a student document that contributes no pages
  is opened and never closed (a handle leak). The model records only the
  documents that are closed (`CloseContributing`).
- Exceptions are modelled as error values: `CollateError` and
  `ParseError`. The `except` in `run` is left out.
- Collation.Kept: the function's own contract gives only the length
  bound. Membership, order and prefix are the lemmas `KeptMembers` and
  `KeptIsIncreasingPrefix`.
- PageRange.ParsePageRange: the function's own contract states the
  general properties. Exact results per cell shape are the lemmas
  `ParseSinglePage`, `ParseTwoSides`, `ParseRangeRoundTrip`,
  `ParseSpacedRange` and `ParsePageRangeOk`. Its failures are the lemmas
  `NoDigitFails` and `StrayFails`. A cell of only signs, such as "+" or
  "8-+", is an error by the definition, but no lemma names it.
- Layout.PlacedPages: only the length is stated. The pages themselves are
  stated by `QuestionPageLayout` and `TwoUpLayout`.
