/** The exam endpoint: each row of the exam table becomes an exam record (or is skipped), and
    the `GET` handler filters the records by name and truncates them to a limit. The HTML is
    abstracted to the texts the selectors read from each row. */
module Exams {
  import opened Wrappers
  import opened Seqs
  import opened Text
  import opened Numbers
  import opened TitleCase

  /** The texts read from one `<tr>`: how many `<td>` it has, the first cell's inner HTML
      (`None` when `.html()` gives `null`), the `b` and `small` texts of the second cell, and
      the `href` of the third cell's link (`None` when absent). */
  datatype ExamRow = ExamRow(cellCount: nat, firstHtml: Option<string>, boldText: string, smallText: string, href: Option<string>)

  /** An `Exam` as the handler builds it. */
  datatype Exam = Exam(title: string, batch: string, date: string, time: string, url: string, isSpecial: bool)

  /** `replaceKeywords`, the branch suffixes deleted from batch names; `/RJ` is listed twice. */
  const ReplaceKeywords: seq<string> := ["/MT", "/KU", "/CO", "/RJ", "/NIC", "/RJ"]

  /** The separator of date and time in the first cell. */
  const LineBreak: string := "<br>"

  /** The prefix of every exam link. */
  const LinkPrefix: string := "https://www.nibmworldwide.com/"

  /** The `(Special)` marker as a one-pattern list for `replaceAll`. */
  const SpecialPatterns: seq<string> := [SpecialMarker]

  /** The `limit` used when the parameter is absent or empty. */
  const DefaultExamLimit: string := "999"

  lemma {:induction false} KeywordsNonEmpty()
    ensures NonEmptyPatterns(ReplaceKeywords)
    ensures NonEmptyPatterns(Dedup(ReplaceKeywords))
    ensures NonEmptyPatterns(SpecialPatterns)
  {
    assert forall i :: 0 <= i < |Dedup(ReplaceKeywords)| ==> Dedup(ReplaceKeywords)[i] in ReplaceKeywords;
  }

  /** `rawBatch.replace(pattern, "").trim()`: the alternation of the distinct keywords, every
      match deleted. */
  function ExamBatch(bold: string): (r: string)
    ensures IsTrimmed(r)
  {
    KeywordsNonEmpty();
    Trim(StripAll(Trim(bold), Dedup(ReplaceKeywords), false))
  }

  /** The duplicate `/RJ` is harmless: stripping with the raw list gives the same batch. */
  lemma {:induction false} ExamBatchRawList(bold: string)
    ensures NonEmptyPatterns(ReplaceKeywords)
    ensures ExamBatch(bold) == Trim(StripAll(Trim(bold), ReplaceKeywords, false))
  {
    KeywordsNonEmpty();
    StripAllDedup(Trim(bold), ReplaceKeywords, false);
  }

  /** A keyword between two texts without `/` is deleted, and the two texts are kept:
      `"21.2F" + "/CO" + ""` gives the batch `"21.2F"`. */
  lemma {:induction false} ExamBatchDeletesKeyword(a: string, k: string, b: string)
    requires k in ReplaceKeywords
    requires '/' !in a && '/' !in b
    requires IsTrimmed(a + k + b)
    ensures ExamBatch(a + k + b) == Trim(a + b)
  {
    var s := a + k + b;
    KeywordsNonEmpty();
    assert Trim(s) == s by {
      TrimTrimmed(s);
    }
    assert StripAll(s, ReplaceKeywords, false) == a + StripAll(b, ReplaceKeywords, false) by {
      KeywordFreePrefix(a, k, b);
      ThreePartSlices(a, k, b);
      KeywordMatch(k, b);
      StripAllDeletesMatch(s, |a|, |k|, ReplaceKeywords, false);
    }
    assert StripAll(b, ReplaceKeywords, false) == b by {
      KeywordFreeText(b);
      StripAllNoMatch(b, ReplaceKeywords, false);
    }
    ExamBatchRawList(s);
  }

  /** Text without `/` has no keyword match anywhere. */
  lemma {:induction false} KeywordFreeText(t: string)
    requires '/' !in t
    ensures NoMatchBefore(t, |t|, ReplaceKeywords, false)
  {
    forall j | 0 <= j < |t|
      ensures FirstMatch(t[j..], ReplaceKeywords, false).None?
    {
      assert t[j..][0] == t[j];
      NoSlashNoKeyword(t[j..]);
    }
  }

  /** Before the keyword `k`, nothing in `a + k + b` matches a keyword. */
  lemma {:induction false} KeywordFreePrefix(a: string, k: string, b: string)
    requires '/' !in a
    ensures NoMatchBefore(a + k + b, |a|, ReplaceKeywords, false)
  {
    var s := a + k + b;
    forall j | 0 <= j < |a|
      ensures FirstMatch(s[j..], ReplaceKeywords, false).None?
    {
      assert s[j..][0] == a[j];
      NoSlashNoKeyword(s[j..]);
    }
  }

  /** Every keyword starts with `/`, so none matches where there is no `/`. */
  lemma {:induction false} NoSlashNoKeyword(t: string)
    requires |t| == 0 || t[0] != '/'
    ensures FirstMatch(t, ReplaceKeywords, false).None?
  {
    assert forall i :: 0 <= i < |ReplaceKeywords| ==> |ReplaceKeywords[i]| > 0 && ReplaceKeywords[i][0] == '/';
    NoHeadNoMatch(t, ReplaceKeywords, '/');
  }

  /** No keyword is a prefix of another, so at a keyword the alternation matches exactly it. */
  lemma {:induction false} KeywordMatch(k: string, b: string)
    requires k in ReplaceKeywords
    ensures FirstMatch(k + b, ReplaceKeywords, false) == Some(|k|)
  {
    StartsWithExact(k + b, k);
    assert k <= k + b;
    var n := FirstMatch(k + b, ReplaceKeywords, false);
    var i :| 0 <= i < |ReplaceKeywords| && StartsWith(k + b, ReplaceKeywords[i], false) && n.value == |ReplaceKeywords[i]|;
    var p := ReplaceKeywords[i];
    StartsWithExact(k + b, p);
    KeywordsPrefixFree(p, k, b);
  }

  /** Two keywords that both begin `k + b` have the same length: no two keywords share their
      second character. */
  lemma {:induction false} KeywordsPrefixFree(p: string, k: string, b: string)
    requires p in ReplaceKeywords && k in ReplaceKeywords
    requires p <= k + b
    ensures |p| == |k|
  {
    assert |p| >= 2 && |k| >= 2;
    assert p[1] == (k + b)[1] == k[1];
    KeywordBySecond(p, k);
  }

  /** The second character tells the keywords apart. */
  lemma {:induction false} KeywordBySecond(p: string, k: string)
    requires p in ReplaceKeywords && k in ReplaceKeywords
    requires |p| >= 2 && |k| >= 2 && p[1] == k[1]
    ensures p == k
  {
    assert p == "/MT" || p == "/KU" || p == "/CO" || p == "/RJ" || p == "/NIC";
    assert k == "/MT" || k == "/KU" || k == "/CO" || k == "/RJ" || k == "/NIC";
  }

  /** A batch name with no keyword and no surrounding whitespace is kept as it is. */
  lemma {:induction false} ExamBatchClean(bold: string)
    requires IsTrimmed(bold)
    requires forall i :: 0 <= i < |ReplaceKeywords| ==> !Contains(bold, ReplaceKeywords[i])
    ensures ExamBatch(bold) == bold
  {
    KeywordsNonEmpty();
    assert StripAll(bold, ReplaceKeywords, false) == bold by {
      StripAllSubsequence(bold, ReplaceKeywords, false);
    }
    assert Trim(bold) == bold by {
      TrimTrimmed(bold);
    }
    ExamBatchRawList(bold);
  }

  /** The title: `toTitleCase` of the `small` text with every `(Special)` deleted, trimmed. */
  function ExamTitle(small: string): (t: string)
    ensures !Contains(t, SpecialMarker)
  {
    KeywordsNonEmpty();
    var stripped := Trim(StripAll(small, SpecialPatterns, false));
    TitleHasNoMarker(stripped);
    ToTitleCase(stripped)
  }

  /** The row is kept: three cells, a non-empty first-cell HTML, and a `<br>` in it (so that
      `split("<br>")` has a second piece). */
  predicate Accepted(r: ExamRow) {
    && r.cellCount >= 3
    && r.firstHtml.Some? && r.firstHtml.value != ""
    && Contains(r.firstHtml.value, LineBreak)
  }

  /** One row of `parseExams`: `None` for the rows the loop `continue`s past. */
  function ParseRow(r: ExamRow): (e: Option<Exam>)
    ensures e.Some? <==> Accepted(r)
    ensures e.Some? ==>
      var parts := Split(r.firstHtml.value, LineBreak);
      && |parts| >= 2
      && e.value.date == Trim(parts[0]) && e.value.time == Trim(parts[1])
      && IsTrimmed(e.value.date) && IsTrimmed(e.value.time) && IsTrimmed(e.value.batch)
      && e.value.batch == ExamBatch(r.boldText)
      && e.value.title == ExamTitle(r.smallText)
      && !Contains(e.value.title, SpecialMarker)
      && (e.value.isSpecial <==> Contains(r.smallText, SpecialMarker))
      && e.value.url == LinkPrefix + r.href.GetOr("")
  {
    if r.cellCount < 3 || r.firstHtml.None? || r.firstHtml.value == "" then None
    else
      var html := r.firstHtml.value;
      SplitHasSecondPiece(html, LineBreak);
      var parts := Split(html, LineBreak);
      if |parts| < 2 then None
      else
        Some(Exam(
          ExamTitle(r.smallText),
          ExamBatch(r.boldText),
          Trim(parts[0]),
          Trim(parts[1]),
          LinkPrefix + r.href.GetOr(""),
          Contains(r.smallText, SpecialMarker)))
  }

  function RowParser(): ExamRow -> Option<Exam> {
    r => ParseRow(r)
  }

  /** `parseExams` before its sort: the records of the kept rows, in row order. */
  function ParseExams(rows: seq<ExamRow>): (es: seq<Exam>)
    ensures |es| <= |rows|
    ensures forall i :: 0 <= i < |es| ==> !Contains(es[i].title, SpecialMarker)
  {
    FilterMapAll(RowParser(), rows, (e: Exam) => !Contains(e.title, SpecialMarker));
    FilterMap(RowParser(), rows)
  }

  /** The records are those of the accepted rows, one each, in row order. */
  lemma {:induction false} ParseExamsSelect(rows: seq<ExamRow>)
    ensures |ParseExams(rows)| == |Filter(Accepted, rows)|
    ensures forall i :: 0 <= i < |ParseExams(rows)| ==> Some(ParseExams(rows)[i]) == ParseRow(Filter(Accepted, rows)[i])
  {
    FilterMapSelect(RowParser(), rows);
    FilterCongruent(DefinedAt(RowParser()), Accepted, rows);
  }

  /** `url.searchParams.get("examName")?.trim() || ""`. */
  function ExamName(name: Option<string>): (n: string)
    ensures IsTrimmed(n)
    ensures name.None? ==> n == ""
    ensures name.Some? ==> n == Trim(name.value)
  {
    if name.None? then "" else Trim(name.value)
  }

  /** The title matches the name, ignoring letter case. */
  predicate TitleMatches(e: Exam, name: string) {
    Lower(e.title) == Lower(name)
  }

  /** `examName ? exams.filter(matching title) : exams`. */
  function NameFilter(name: string, exams: seq<Exam>): (r: seq<Exam>)
    ensures name == "" ==> r == exams
    ensures name != "" ==> forall i :: 0 <= i < |r| ==> TitleMatches(r[i], name) && r[i] in exams
    ensures name != "" ==> forall i :: 0 <= i < |exams| && TitleMatches(exams[i], name) ==> exams[i] in r
    ensures name != "" ==> forall e :: multiset(r)[e] == if TitleMatches(e, name) then multiset(exams)[e] else 0
    ensures IsSubsequence(r, exams)
  {
    if name == "" then
      SubsequenceSelf(exams);
      exams
    else
      var r := Filter((e: Exam) => TitleMatches(e, name), exams);
      assert forall i :: 0 <= i < |r| ==> multiset(r)[r[i]] > 0;
      assert forall i :: 0 <= i < |exams| ==> multiset(exams)[exams[i]] > 0;
      r
  }

  /** Two names that differ only in letter case select the same exams. */
  lemma {:induction false} NameFilterIgnoresCase(a: string, b: string, exams: seq<Exam>)
    requires a != "" && b != "" && Lower(a) == Lower(b)
    ensures NameFilter(a, exams) == NameFilter(b, exams)
  {
    FilterCongruent((e: Exam) => TitleMatches(e, a), (e: Exam) => TitleMatches(e, b), exams);
  }

  /** `parseInt(url.searchParams.get("limit") || "999")`. */
  function ExamLimit(limit: Option<string>): Option<int> {
    ParseInt(if limit.None? || limit.value == "" then DefaultExamLimit else limit.value)
  }

  /** An absent or empty limit is 999. */
  lemma {:induction false} DefaultExamLimitValue(limit: Option<string>)
    requires limit.None? || limit.value == ""
    ensures ExamLimit(limit) == Some(999)
  {
    assert NumberToString(Some(999)) == DefaultExamLimit;
    ParseIntOfString(999);
  }

  /** The handler's answer: `filteredExams.slice(0, limit)` of the parsed exams. */
  function ExamsResponse(limit: Option<string>, examName: Option<string>, exams: seq<Exam>): (r: seq<Exam>)
    ensures r <= NameFilter(ExamName(examName), exams)
    ensures |r| == SliceEnd(ExamLimit(limit), |NameFilter(ExamName(examName), exams)|)
  {
    var filtered := NameFilter(ExamName(examName), exams);
    filtered[..SliceEnd(ExamLimit(limit), |filtered|)]
  }

  /** Without parameters the answer is every exam, up to 999. */
  lemma {:induction false} ResponseWithoutParameters(exams: seq<Exam>)
    ensures ExamsResponse(None, None, exams) == exams[..if |exams| < 999 then |exams| else 999]
  {
    DefaultExamLimitValue(None);
  }

  /** A limit that is not a number answers nothing, as `slice(0, NaN)` is empty. */
  lemma {:induction false} UnparsableLimit(limit: string, examName: Option<string>, exams: seq<Exam>)
    requires limit != "" && ParseInt(limit).None?
    ensures ExamsResponse(Some(limit), examName, exams) == []
  {
  }

  /** A negative limit drops that many exams from the end. */
  lemma {:induction false} NegativeLimit(limit: string, examName: Option<string>, exams: seq<Exam>, k: int)
    requires limit != "" && ParseInt(limit) == Some(-k) && 0 < k <= |NameFilter(ExamName(examName), exams)|
    ensures |ExamsResponse(Some(limit), examName, exams)| == |NameFilter(ExamName(examName), exams)| - k
  {
  }

  /** Deleting `(Special)` once can expose a new one: in `((Special)Special)` the inner marker
      goes and the outer one is left. The title still never shows it, because title-casing
      lower-cases its `S`. */
  lemma {:induction false} NestedMarker()
    ensures NonEmptyPatterns(SpecialPatterns)
    ensures StripAll(['('] + SpecialMarker + SpecialMarker[1..], SpecialPatterns, false) == SpecialMarker
  {
    var m := SpecialMarker;
    assert StripAll(['('] + m + m[1..], SpecialPatterns, false) == ['('] + m[1..] by {
      MarkerAbsent(m[1..]);
      StripAroundMarker(m[1..]);
    }
    assert ['('] + m[1..] == m by {
      MarkerShape();
    }
  }

  /** A `(` glued before a marker is kept while the marker goes. */
  lemma {:induction false} StripAroundMarker(x: string)
    requires !Occurs(x, SpecialMarker, false)
    ensures NonEmptyPatterns(SpecialPatterns)
    ensures StripAll(['('] + SpecialMarker + x, SpecialPatterns, false) == ['('] + x
  {
    var m := SpecialMarker;
    assert !(m <= ['('] + m + x) by {
      MarkerShape();
      assert (['('] + m + x)[1] == m[0];
    }
    StripGluedMatch('(', m, x);
  }

  /** A character glued before a match of `m`, which does not itself start a match, is kept
      while the match goes; the rest, free of `m`, stays. */
  lemma {:induction false} StripGluedMatch(c: char, m: string, x: string)
    requires |m| > 0 && !(m <= [c] + m + x) && !Occurs(x, m, false)
    ensures NonEmptyPatterns([m])
    ensures StripAll([c] + m + x, [m], false) == [c] + x
  {
    var s := [c] + m + x;
    var mx := m + x;
    assert FirstMatch(s, [m], false) == None by {
      StartsWithExact(s, m);
    }
    assert s[1..] == mx;
    assert FirstMatch(mx, [m], false) == Some(|m|) by {
      StartsWithExact(mx, m);
    }
    assert mx[|m|..] == x;
    assert StripAll(x, [m], false) == x by {
      StripAllSubsequence(x, [m], false);
    }
  }

  /** A string shorter than the marker cannot contain it. */
  lemma {:induction false} MarkerAbsent(s: string)
    requires |s| < |SpecialMarker|
    ensures !Occurs(s, SpecialMarker, false)
    decreases |s|
  {
    if |s| > 0 {
      MarkerAbsent(s[1..]);
    }
  }
}
