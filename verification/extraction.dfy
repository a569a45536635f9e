/** Turning one scraped timetable row into a lecture record: the body of the `.map` in
    `fetchData`. The HTML is abstracted to the texts the selectors read from each cell. */
module Extraction {
  import opened Wrappers
  import opened Seqs
  import opened Text
  import opened LectureText

  /** The texts read from one `<td>`: the `div > big > b` texts (batch cell), the `big`
      texts (hall and time cells), the cell's whole text and the text of its last child node. */
  datatype Cell = Cell(bolds: seq<string>, bigs: seq<string>, text: string, lastText: string)

  type Row = seq<Cell>

  datatype Location = Location(hall: string, floor: string)
  datatype TimeRange = TimeRange(start: string, end: string)
  datatype Properties = Properties(isExam: bool, branch: string)

  /** A `Lecture` as the handler builds it; `batch` is the list of batch codes. */
  datatype Lecture = Lecture(
    title: string,
    batch: seq<string>,
    lecturer: string,
    offset: nat,
    location: Location,
    time: TimeRange,
    properties: Properties)

  /** The time cell's `"start - end"` separator. */
  const TimeSeparator: string := "-"

  /** The trimmed `big` texts of a cell, in document order. */
  function BigTexts(c: Cell): (ts: seq<string>)
    ensures |ts| == |c.bigs|
    ensures forall i :: 0 <= i < |ts| ==> IsTrimmed(ts[i])
  {
    Map(Trim, c.bigs)
  }

  /** A row survives extraction: three cells, two `big` texts in the third, and a time text
      with a second `-`-separated piece (otherwise `split("-")[1].trim()` throws). */
  predicate WellFormed(row: Row) {
    && |row| >= 3
    && |row[2].bigs| >= 2
    && Contains(Trim(row[2].bigs[0]), TimeSeparator)
  }

  /** The suffix `replaceAll` deletes from batch codes. */
  const CoSuffix: seq<string> := ["/CO"]

  /** One batch code: trimmed, every `/CO` deleted, trimmed again. */
  function BatchCode(b: string): (r: string)
    ensures IsTrimmed(r)
  {
    Trim(StripAll(Trim(b), CoSuffix, false))
  }

  /** The non-empty strings of `ss`, in order (`.filter((x) => x !== "")`). */
  function NonBlank(ss: seq<string>): (r: seq<string>)
    ensures forall i :: 0 <= i < |r| ==> r[i] != "" && r[i] in ss
    ensures forall i :: 0 <= i < |ss| && ss[i] != "" ==> ss[i] in r
    ensures forall x :: multiset(r)[x] == if x != "" then multiset(ss)[x] else 0
    ensures IsSubsequence(r, ss)
    ensures |r| <= |ss|
    decreases |ss|
  {
    if |ss| == 0 then []
    else
      var rest := NonBlank(ss[1..]);
      assert multiset(ss) == multiset{ss[0]} + multiset(ss[1..]) by {
        assert ss == [ss[0]] + ss[1..];
      }
      if |ss[0]| == 0 then rest
      else
        var r := [ss[0]] + rest;
        assert r[0] == ss[0] && r[1..] == rest;
        assert multiset(r) == multiset{ss[0]} + multiset(rest);
        r
  }

  /** The batch codes of the first cell, blank ones dropped, in cell order: every code comes
      from a bold text, and every bold text with a non-blank code contributes it. */
  function Batches(bolds: seq<string>): (bs: seq<string>)
    ensures forall i :: 0 <= i < |bs| ==> bs[i] != "" && IsTrimmed(bs[i])
    ensures forall i :: 0 <= i < |bs| ==> bs[i] in Map(BatchCode, bolds)
    ensures forall k :: 0 <= k < |bolds| && BatchCode(bolds[k]) != "" ==> BatchCode(bolds[k]) in bs
    ensures IsSubsequence(bs, Map(BatchCode, bolds))
    ensures forall x :: multiset(bs)[x] == if x != "" then multiset(Map(BatchCode, bolds))[x] else 0
  {
    var codes := Map(BatchCode, bolds);
    var bs := NonBlank(codes);
    assert forall k :: 0 <= k < |bolds| && BatchCode(bolds[k]) != "" ==> BatchCode(bolds[k]) in bs by {
      forall k | 0 <= k < |bolds| && BatchCode(bolds[k]) != ""
        ensures BatchCode(bolds[k]) in bs
      {
        assert codes[k] == BatchCode(bolds[k]);
      }
    }
    bs
  }

  /** The hall names of the second cell joined by spaces (`hallJoined`). */
  function HallJoined(c: Cell): string {
    Join(BigTexts(c), Space)
  }

  /** The floor: the cell text with the first copy of the hall names removed, trimmed,
      cleaned of branch words, with repeated words dropped. */
  function Floor(c: Cell): (r: string)
    ensures NoDuplicates(Words(r))
    ensures forall w :: w in Words(r) <==> w in Words(CleanLocation(Trim(RemoveFirst(c.text, HallJoined(c)))))
  {
    RemoveDuplicates(CleanLocation(Trim(RemoveFirst(c.text, HallJoined(c)))))
  }

  /** The start and end of a `"start - end"` time text, meridiems removed: the start is the
      text before the first `-`, the end the text between the first and any second `-`. */
  function TimeOf(time: string): (t: TimeRange)
    requires Contains(time, TimeSeparator)
    ensures IsTrimmed(t.start) && IsTrimmed(t.end)
    ensures t.start == TrimDate(Trim(UpTo(time, TimeSeparator)))
    ensures t.end == TrimDate(Trim(UpTo(After(time, TimeSeparator), TimeSeparator)))
  {
    SplitHasSecondPiece(time, TimeSeparator);
    var pieces := Split(time, TimeSeparator);
    SplitHead(time, TimeSeparator);
    SplitHead(After(time, TimeSeparator), TimeSeparator);
    assert pieces[1] == pieces[1..][0];
    TimeRange(TrimDate(Trim(pieces[0])), TrimDate(Trim(pieces[1])))
  }

  /** The lecturer shown: the exact text `EXAM` becomes `None`. */
  function LecturerOf(t: string): string {
    if t == "EXAM" then "None" else t
  }

  /** `lecturer.toLowerCase() === "exam"`. */
  predicate ExamText(t: string) {
    Lower(t) == "exam"
  }

  /** The upper-case spelling counts as an exam. */
  lemma {:induction false} ExamTextUpper()
    ensures ExamText("EXAM")
  {
    assert Lower("EXAM") == "exam";
  }

  /** The record of a row that survives. */
  function Record(row: Row, branch: string, offset: nat): (l: Lecture)
    requires WellFormed(row)
    ensures l.offset == offset && l.properties.branch == Trim(branch)
    ensures l.title == Trim(row[2].lastText)
    ensures l.batch == Batches(row[0].bolds)
    ensures forall i :: 0 <= i < |l.batch| ==> l.batch[i] != "" && IsTrimmed(l.batch[i])
    ensures l.location == Location(Capitalize(HallJoined(row[1])), Floor(row[1]))
    ensures l.time == TimeOf(Trim(row[2].bigs[0]))
    ensures IsTrimmed(l.time.start) && IsTrimmed(l.time.end)
    ensures Trim(row[2].bigs[1]) == "EXAM" ==> l.lecturer == "None" && l.properties.isExam
    ensures Trim(row[2].bigs[1]) != "EXAM" ==> l.lecturer == Trim(row[2].bigs[1])
    ensures l.properties.isExam <==> ExamText(Trim(row[2].bigs[1]))
  {
    var time := Trim(row[2].bigs[0]);
    var lecturer := Trim(row[2].bigs[1]);
    Lecture(
      Trim(row[2].lastText),
      Batches(row[0].bolds),
      (TrimIdempotent(row[2].bigs[1]); ExamTextUpper(); LecturerOf(Trim(lecturer))),
      offset,
      Location(Capitalize(HallJoined(row[1])), Floor(row[1])),
      TimeOf(time),
      Properties(ExamText(lecturer), Trim(branch)))
  }

  /** One row: `None` when the handler returns `null` (directly or through the caught throw). */
  function ExtractRow(row: Row, branch: string, offset: nat): (r: Option<Lecture>)
    ensures r.Some? <==> WellFormed(row)
    ensures r.Some? ==> r.value == Record(row, branch, offset)
  {
    if WellFormed(row) then Some(Record(row, branch, offset)) else None
  }

  function RowExtractor(branch: string, offset: nat): Row -> Option<Lecture> {
    row => ExtractRow(row, branch, offset)
  }

  /** All rows of a page, nulls filtered out; every record carries the page's offset and branch. */
  function ExtractRows(rows: seq<Row>, branch: string, offset: nat): (ls: seq<Lecture>)
    ensures |ls| <= |rows|
    ensures forall i :: 0 <= i < |ls| ==> ls[i].offset == offset && ls[i].properties.branch == Trim(branch)
  {
    FilterMapAll(RowExtractor(branch, offset), rows, (l: Lecture) => l.offset == offset && l.properties.branch == Trim(branch));
    FilterMap(RowExtractor(branch, offset), rows)
  }

  /** The records are those of the well-formed rows, one each, in row order. */
  lemma {:induction false} ExtractRowsSelect(rows: seq<Row>, branch: string, offset: nat)
    ensures |ExtractRows(rows, branch, offset)| == |Filter(WellFormed, rows)|
    ensures forall i :: 0 <= i < |ExtractRows(rows, branch, offset)| ==>
      ExtractRows(rows, branch, offset)[i] == Record(Filter(WellFormed, rows)[i], branch, offset)
  {
    var f := RowExtractor(branch, offset);
    FilterMapSelect(f, rows);
    FilterCongruent(DefinedAt(f), WellFormed, rows);
  }

  /** Extraction is row by row: a page split in two extracts to the two results concatenated. */
  lemma {:induction false} ExtractRowsAppend(a: seq<Row>, b: seq<Row>, branch: string, offset: nat)
    ensures ExtractRows(a + b, branch, offset) == ExtractRows(a, branch, offset) + ExtractRows(b, branch, offset)
  {
    FilterMapAppend(RowExtractor(branch, offset), a, b);
  }

  /** `Exam` is trimmed, is not the exact text `EXAM`, and counts as an exam. */
  lemma {:induction false} MixedCaseSpelling(w: string)
    requires w == "Exam"
    ensures Trim(w) == w && w != "EXAM" && ExamText(w)
  {
    assert Trim(w) == w by {
      assert !IsWhitespace(w[0]) && !IsWhitespace(w[3]);
      TrimTrimmed(w);
    }
    assert w != "EXAM" by {
      assert w[1] != "EXAM"[1];
    }
    assert ExamText(w) by {
      assert Lower(w) == "exam";
    }
  }

  /** A lecturer cell reading `Exam` gives an exam whose lecturer stays `Exam`: only the exact
      text `EXAM` is renamed, while the flag ignores case. */
  lemma {:induction false} MixedCaseExam(row: Row, branch: string, offset: nat)
    requires WellFormed(row) && row[2].bigs[1] == "Exam"
    ensures Record(row, branch, offset).lecturer == "Exam"
    ensures Record(row, branch, offset).properties.isExam
  {
    MixedCaseSpelling(row[2].bigs[1]);
  }

  /** A batch code that is already clean passes through unchanged. */
  lemma {:induction false} BatchCodeClean(b: string)
    requires IsTrimmed(b) && !Contains(b, "/CO")
    ensures BatchCode(b) == b
  {
    TrimTrimmed(b);
    StripAllSubsequence(b, CoSuffix, false);
    assert StripAll(b, CoSuffix, false) == b;
  }

  lemma {:induction false} NonBlankAll(ss: seq<string>)
    requires forall i :: 0 <= i < |ss| ==> ss[i] != ""
    ensures NonBlank(ss) == ss
    decreases |ss|
  {
    if |ss| > 0 {
      NonBlankAll(ss[1..]);
    }
  }

  /** Batch codes that are already clean pass through unchanged. */
  lemma {:induction false} BatchesClean(bolds: seq<string>)
    requires forall i :: 0 <= i < |bolds| ==> bolds[i] != "" && IsTrimmed(bolds[i]) && !Contains(bolds[i], "/CO")
    ensures Batches(bolds) == bolds
  {
    forall i | 0 <= i < |bolds|
      ensures BatchCode(bolds[i]) == bolds[i]
    {
      BatchCodeClean(bolds[i]);
    }
    assert Map(BatchCode, bolds) == bolds;
    NonBlankAll(bolds);
  }

  /** A bold text that is blank or only `/CO` contributes no batch code. */
  lemma {:induction false} BatchesSkipBlank(b: string, rest: seq<string>)
    requires BatchCode(b) == ""
    ensures Batches([b] + rest) == Batches(rest)
  {
    assert Map(BatchCode, [b] + rest) == [BatchCode(b)] + Map(BatchCode, rest);
    assert (Map(BatchCode, [b] + rest))[1..] == Map(BatchCode, rest);
  }
}
