/** The string helpers the lecture scraper applies to table cells: `removeDuplicates`,
    `trimDate`, `cleanLocation` (and `capitalizeFirstLetter`, which is `Text.Capitalize`). */
module LectureText {
  import opened Wrappers
  import opened Seqs
  import opened Text

  /** The space-separated words of `s`, as `s.split(" ")` gives them (empty words included). */
  function Words(s: string): (ws: seq<string>)
    ensures |ws| >= 1
    ensures forall i :: 0 <= i < |ws| ==> ' ' !in ws[i]
  {
    SplitChar(s, ' ');
    Split(s, Space)
  }

  /** `removeDuplicates`: the words of `s` with later repeats dropped, joined by single spaces.
      The result has no repeated word and has exactly the words of `s`. */
  function RemoveDuplicates(s: string): (r: string)
    ensures NoDuplicates(Words(r))
    ensures forall w :: w in Words(r) <==> w in Words(s)
  {
    DedupWords(Words(s));
    Join(Dedup(Words(s)), Space)
  }

  /** Joining the distinct words of a split and splitting again gives those words back. */
  lemma {:induction false} DedupWords(ws: seq<string>)
    requires |ws| >= 1 && forall i :: 0 <= i < |ws| ==> ' ' !in ws[i]
    ensures Words(Join(Dedup(ws), Space)) == Dedup(ws)
  {
    var ds := Dedup(ws);
    assert ws[0] in ds;
    assert forall i :: 0 <= i < |ds| ==> ds[i] in ws;
    assert forall i :: 0 <= i < |ds| ==> ' ' !in ds[i] by {
      forall i | 0 <= i < |ds|
        ensures ' ' !in ds[i]
      {
        var k := IndexOf(ws, ds[i]);
      }
    }
    SplitJoinChar(ds, ' ');
  }

  /** The words of the result are the distinct words of the input, each at its first
      occurrence and in the order of first occurrence. */
  lemma {:induction false} RemoveDuplicatesWords(s: string)
    ensures Words(RemoveDuplicates(s)) == Dedup(Words(s))
    ensures NoDuplicates(Words(RemoveDuplicates(s)))
    ensures forall w :: w in Words(RemoveDuplicates(s)) <==> w in Words(s)
    ensures forall i, j :: 0 <= i < j < |Words(RemoveDuplicates(s))| ==>
      IndexOf(Words(s), Words(RemoveDuplicates(s))[i]) < IndexOf(Words(s), Words(RemoveDuplicates(s))[j])
  {
    DedupWords(Words(s));
  }

  /** Removing duplicates a second time changes nothing. */
  lemma {:induction false} RemoveDuplicatesIdempotent(s: string)
    ensures RemoveDuplicates(RemoveDuplicates(s)) == RemoveDuplicates(s)
  {
    RemoveDuplicatesWords(s);
    DedupIdempotent(Words(s));
  }

  /** The two alternatives of `/(am|pm)/gi`. */
  const Meridiems: seq<string> := ["am", "pm"]

  /** The same alternation spelled out case by case, matched case-sensitively. */
  const MeridiemSpellings: seq<string> := ["am", "aM", "Am", "AM", "pm", "pM", "Pm", "PM"]

  /** `trimDate`: every `am`/`pm` in any letter case deleted, then trimmed. */
  function TrimDate(s: string): (r: string)
    ensures IsTrimmed(r)
    ensures (forall i :: 0 <= i < |Meridiems| ==> !Occurs(s, Meridiems[i], true)) ==> r == Trim(s)
  {
    StripAllSubsequence(s, Meridiems, true);
    Trim(StripAll(s, Meridiems, true))
  }

  /** No `am`/`pm`, in any letter case, starts anywhere in `t`. */
  predicate NoMeridiem(t: string) {
    forall k :: 0 <= k < |t| ==> !MeridiemAt(t[k..])
  }

  /** A meridiem between two meridiem-free texts is deleted, and the two texts are kept:
      `trimDate("9.30" + "am" + "")` is `"9.30"`. */
  lemma {:induction false} TrimDateDeletesMeridiem(a: string, m: string, b: string)
    requires |m| == 2 && MeridiemAt(m)
    requires NoMeridiem(a) && NoMeridiem(b)
    ensures TrimDate(a + m + b) == Trim(a + b)
  {
    var s := a + m + b;
    assert NonEmptyPatterns(Meridiems);
    assert StripAll(s, Meridiems, true) == a + StripAll(b, Meridiems, true) by {
      MeridiemFreePrefix(a, m, b);
      ThreePartSlices(a, m, b);
      assert FirstMatch(m + b, Meridiems, true) == Some(2) by {
        AlternationMatch(m + b);
        assert (m + b)[0] == m[0] && (m + b)[1] == m[1];
      }
      StripAllDeletesMatch(s, |a|, 2, Meridiems, true);
    }
    assert StripAll(b, Meridiems, true) == b by {
      MeridiemFreeText(b);
      StripAllNoMatch(b, Meridiems, true);
    }
  }

  /** Meridiem-free text has no match of the alternation anywhere. */
  lemma {:induction false} MeridiemFreeText(t: string)
    requires NoMeridiem(t)
    ensures NoMatchBefore(t, |t|, Meridiems, true)
  {
    forall k | 0 <= k < |t|
      ensures FirstMatch(t[k..], Meridiems, true).None?
    {
      AlternationMatch(t[k..]);
    }
  }

  /** Before the meridiem `m`, nothing in `a + m + b` matches the alternation. */
  lemma {:induction false} MeridiemFreePrefix(a: string, m: string, b: string)
    requires |m| == 2 && MeridiemAt(m) && NoMeridiem(a)
    ensures NoMatchBefore(a + m + b, |a|, Meridiems, true)
  {
    var s := a + m + b;
    forall k | 0 <= k < |a|
      ensures FirstMatch(s[k..], Meridiems, true).None?
    {
      MeridiemFreeHead(a, m, b, k);
      AlternationMatch(s[k..]);
    }
  }

  /** No meridiem starts inside `a`: two characters of `a` are not one, and a last character of
      `a` followed by a meridiem's `a`/`p` is not one either. */
  lemma {:induction false} MeridiemFreeHead(a: string, m: string, b: string, k: nat)
    requires |m| == 2 && MeridiemAt(m) && NoMeridiem(a) && k < |a|
    ensures !MeridiemAt((a + m + b)[k..])
  {
    var s := a + m + b;
    if k + 1 < |a| {
      assert !MeridiemAt(a[k..]);
      assert s[k..][0] == a[k..][0] && s[k..][1] == a[k..][1];
    } else {
      assert s[k..][1] == m[0];
    }
  }

  /** Ignoring case in the alternation is the same as listing the eight spellings. */
  lemma {:induction false} TrimDateSpellings(s: string)
    ensures NonEmptyPatterns(MeridiemSpellings)
    ensures TrimDate(s) == Trim(StripAll(s, MeridiemSpellings, false))
  {
    StripMeridiems(s);
  }

  lemma {:induction false} StripMeridiems(s: string)
    ensures NonEmptyPatterns(MeridiemSpellings)
    ensures StripAll(s, Meridiems, true) == StripAll(s, MeridiemSpellings, false)
    decreases |s|
  {
    assert NonEmptyPatterns(MeridiemSpellings);
    if |s| > 0 {
      MeridiemMatch(s);
      match FirstMatch(s, Meridiems, true)
      case Some(n) =>
        StripMeridiems(s[n..]);
      case None =>
        StripMeridiems(s[1..]);
    }
  }

  /** At any position, the case-insensitive alternation and the list of spellings agree on
      whether a meridiem starts there (it is always two characters long). */
  lemma {:induction false} MeridiemMatch(s: string)
    ensures FirstMatch(s, Meridiems, true) == FirstMatch(s, MeridiemSpellings, false)
  {
    AlternationMatch(s);
    SpellingsMatch(s);
  }

  predicate MeridiemAt(s: string) {
    |s| >= 2 && (LowerChar(s[0]) == 'a' || LowerChar(s[0]) == 'p') && LowerChar(s[1]) == 'm'
  }

  lemma {:induction false} StartsWithPair(s: string, p: string, ignoreCase: bool)
    requires |p| == 2
    ensures StartsWith(s, p, ignoreCase) <==> |s| >= 2 && CharEq(p[0], s[0], ignoreCase) && CharEq(p[1], s[1], ignoreCase)
  {
    if |s| >= 2 {
      assert StartsWith(s[2..], p[2..], ignoreCase);
    }
  }

  lemma {:induction false} AlternationMatch(s: string)
    ensures FirstMatch(s, Meridiems, true) == if MeridiemAt(s) then Some(2) else None
  {
    StartsWithPair(s, Meridiems[0], true);
    StartsWithPair(s, Meridiems[1], true);
  }

  lemma {:induction false} SpellingsMatch(s: string)
    ensures FirstMatch(s, MeridiemSpellings, false) == if MeridiemAt(s) then Some(2) else None
  {
    assert forall i :: 0 <= i < |MeridiemSpellings| ==> |MeridiemSpellings[i]| == 2;
    FirstMatchPairs(s, MeridiemSpellings);
    if |s| >= 2 {
      SpellingMember(s[..2]);
    }
  }

  /** The eight spellings are exactly the two-letter strings that lower-case to `am` or `pm`. */
  lemma {:induction false} SpellingMember(p: string)
    requires |p| == 2
    ensures p in MeridiemSpellings <==> MeridiemAt(p)
  {
    assert p == [p[0], p[1]];
    if MeridiemAt(p) {
      assert p[0] == 'a' || p[0] == 'A' || p[0] == 'p' || p[0] == 'P';
      assert p[1] == 'm' || p[1] == 'M';
    }
  }

  /** Among two-character patterns matched exactly, the alternation matches iff the next two
      characters are one of them. */
  lemma {:induction false} FirstMatchPairs(s: string, pats: seq<string>)
    requires forall i :: 0 <= i < |pats| ==> |pats[i]| == 2
    ensures FirstMatch(s, pats, false) == if |s| >= 2 && s[..2] in pats then Some(2) else None
    decreases |pats|
  {
    if |pats| > 0 {
      StartsWithPair(s, pats[0], false);
      FirstMatchPairs(s, pats[1..]);
      assert pats == [pats[0]] + pats[1..];
      if |s| >= 2 {
        assert StartsWith(s, pats[0], false) <==> pats[0] == s[..2];
      }
    }
  }

  /** The location words `cleanLocation` removes. */
  const Blacklist: set<string> := {"CO", "NIC", "SOC", "SOB", "/"}

  predicate Allowed(w: string) {
    w !in Blacklist
  }

  /** The words of `s` that are not blacklisted, in order. */
  function KeptWords(s: string): (ws: seq<string>)
    ensures forall i :: 0 <= i < |ws| ==> ws[i] in Words(s) && ws[i] !in Blacklist
    ensures IsSubsequence(ws, Words(s))
  {
    var ws := Filter(Allowed, Words(s));
    assert forall i :: 0 <= i < |ws| ==> multiset(ws)[ws[i]] > 0;
    ws
  }

  /** `cleanLocation`: the non-blacklisted words, joined by single spaces, trimmed. A text
      of blacklisted words only becomes empty. */
  function CleanLocation(s: string): (r: string)
    ensures IsTrimmed(r)
    ensures KeptWords(s) == [] ==> r == ""
  {
    Trim(Join(KeptWords(s), Space))
  }

  /** Before the final trim the words are exactly the kept ones: every blacklisted word is
      gone, every other word stays, in order and with its repeats; when every word is
      blacklisted nothing is left. */
  lemma {:induction false} CleanLocationWords(s: string)
    ensures |KeptWords(s)| >= 1 ==> Words(Join(KeptWords(s), Space)) == KeptWords(s)
    ensures forall w :: w in Words(Join(KeptWords(s), Space)) ==> w !in Blacklist
    ensures forall w :: w in Words(s) ==> multiset(KeptWords(s))[w] == if w in Blacklist then 0 else multiset(Words(s))[w]
    ensures KeptWords(s) == [] ==> CleanLocation(s) == ""
  {
    var ks := KeptWords(s);
    if |ks| >= 1 {
      assert forall i :: 0 <= i < |ks| ==> ' ' !in ks[i] by {
        forall i | 0 <= i < |ks|
          ensures ' ' !in ks[i]
        {
          var k := IndexOf(Words(s), ks[i]);
        }
      }
      SplitJoinChar(ks, ' ');
    } else {
      assert Words(Join(ks, Space)) == Words("") == [""];
    }
  }

  /** A location with no blacklisted word and no stray whitespace is left as it is. */
  lemma {:induction false} CleanLocationClean(s: string)
    requires IsTrimmed(s)
    requires forall w :: w in Words(s) ==> w !in Blacklist
    ensures CleanLocation(s) == s
  {
    FilterAll(Allowed, Words(s));
    JoinSplit(s, Space);
    TrimTrimmed(s);
  }
}
