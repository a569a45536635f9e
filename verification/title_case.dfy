/** `toTitleCase` of the exam endpoint: lower-case the text, then upper-case the first character
    of every space-separated word. */
module TitleCase {
  import opened Seqs
  import opened Text

  /** `str.toLowerCase().split(" ").map(capitalize).join(" ")`: every word start upper-cased,
      every other character lower-cased. */
  function ToTitleCase(s: string): (r: string)
    ensures r == TitleChars(s)
  {
    TitleCaseChars(s);
    Join(Map(Capitalize, Split(Lower(s), Space)), Space)
  }

  /** A position starts a word: it is the first one or follows a space. */
  predicate WordStart(s: string, i: int)
    requires 0 <= i < |s|
  {
    i == 0 || s[i - 1] == ' '
  }

  /** The reference definition, character by character: word starts upper-cased, every other
      character lower-cased. */
  function TitleChars(s: string): (t: string)
    ensures |t| == |s|
    ensures forall i :: 0 <= i < |s| ==> t[i] == if WordStart(s, i) then UpperChar(LowerChar(s[i])) else LowerChar(s[i])
  {
    seq(|s|, i requires 0 <= i < |s| => if WordStart(s, i) then UpperChar(LowerChar(s[i])) else LowerChar(s[i]))
  }

  /** Upper-casing the characters that follow a space; the first one follows a space when
      `prevSpace` says so. */
  function CapAfter(t: string, prevSpace: bool): (r: string)
    ensures |r| == |t|
    ensures forall i :: 0 <= i < |t| ==> r[i] == if (if i == 0 then prevSpace else t[i - 1] == ' ') then UpperChar(t[i]) else t[i]
  {
    seq(|t|, i requires 0 <= i < |t| => if (if i == 0 then prevSpace else t[i - 1] == ' ') then UpperChar(t[i]) else t[i])
  }

  /** Upper-casing the first character and every character that follows a space. */
  function CapAfterSpace(t: string): string {
    CapAfter(t, true)
  }

  /** Capitalising space-free words and joining them with spaces is upper-casing every word
      start of the joined text. */
  lemma {:induction false} JoinCapitalized(ws: seq<string>)
    requires |ws| >= 1
    requires forall i :: 0 <= i < |ws| ==> ' ' !in ws[i]
    ensures Join(Map(Capitalize, ws), Space) == CapAfterSpace(Join(ws, Space))
    decreases |ws|
  {
    if |ws| == 1 {
      assert Map(Capitalize, ws) == [Capitalize(ws[0])];
      CapitalizeWord(ws[0]);
    } else {
      JoinCapitalized(ws[1..]);
      assert ws == [ws[0]] + ws[1..];
      JoinCapitalizedStep(ws[0], ws[1..]);
    }
  }

  lemma {:induction false} JoinCapitalizedStep(w: string, ws: seq<string>)
    requires |ws| >= 1 && ' ' !in w
    requires Join(Map(Capitalize, ws), Space) == CapAfterSpace(Join(ws, Space))
    ensures Join(Map(Capitalize, [w] + ws), Space) == CapAfterSpace(Join([w] + ws, Space))
  {
    JoinCons(w, ws, Space);
    assert Map(Capitalize, [w] + ws) == [Capitalize(w)] + Map(Capitalize, ws);
    JoinCons(Capitalize(w), Map(Capitalize, ws), Space);
    CapAfterSpaceAppend(w, Join(ws, Space));
  }

  /** Upper-casing distributes over concatenation, the second part following the first's
      last character. */
  lemma {:induction false} CapAfterAppend(x: string, y: string, prevSpace: bool)
    ensures CapAfter(x + y, prevSpace) == CapAfter(x, prevSpace) + CapAfter(y, if |x| == 0 then prevSpace else x[|x| - 1] == ' ')
  {
    var a := CapAfter(x + y, prevSpace);
    var b := CapAfter(x, prevSpace) + CapAfter(y, if |x| == 0 then prevSpace else x[|x| - 1] == ' ');
    forall i | 0 <= i < |x + y|
      ensures a[i] == b[i]
    {
      if i >= |x| {
        assert (x + y)[i] == y[i - |x|];
        if i > |x| {
          assert (x + y)[i - 1] == y[i - |x| - 1];
        }
      } else {
        assert (x + y)[i] == x[i];
        if i > 0 {
          assert (x + y)[i - 1] == x[i - 1];
        }
      }
    }
    assert |a| == |b|;
  }

  /** On a space-free word, upper-casing word starts is `capitalize`. */
  lemma {:induction false} CapitalizeWord(w: string)
    requires ' ' !in w
    ensures CapAfter(w, true) == Capitalize(w)
  {
    var a := CapAfter(w, true);
    var c := Capitalize(w);
    forall i | 0 <= i < |w|
      ensures a[i] == c[i]
    {
      if i > 0 {
        assert c[1..][i - 1] == c[i];
        assert w[1..][i - 1] == w[i];
        assert w[i - 1] in w;
      }
    }
  }

  lemma {:induction false} CapAfterSpaceAppend(w: string, rest: string)
    requires ' ' !in w
    ensures CapAfterSpace(w + Space + rest) == Capitalize(w) + Space + CapAfterSpace(rest)
  {
    assert w + Space + rest == w + (Space + rest);
    CapAfterAppend(w, Space + rest, true);
    if |w| > 0 {
      assert w[|w| - 1] in w;
    }
    CapAfterAppend(Space, rest, |w| == 0);
    assert CapAfter(Space, |w| == 0) == Space;
    CapitalizeWord(w);
  }

  lemma {:induction false} LowerSpace(s: string)
    ensures forall i :: 0 <= i < |s| ==> (Lower(s)[i] == ' ' <==> s[i] == ' ')
  {
  }

  /** The split-map-join definition agrees with the character-by-character one. */
  lemma {:induction false} TitleCaseChars(s: string)
    ensures Join(Map(Capitalize, Split(Lower(s), Space)), Space) == TitleChars(s)
  {
    var t := Lower(s);
    SplitChar(t, ' ');
    JoinCapitalized(Split(t, Space));
    JoinSplit(t, Space);
    LowerSpace(s);
  }

  /** Title-casing keeps the length and puts spaces exactly where they were. */
  lemma {:induction false} TitleCaseShape(s: string)
    ensures |ToTitleCase(s)| == |s|
    ensures forall i :: 0 <= i < |s| ==> (ToTitleCase(s)[i] == ' ' <==> s[i] == ' ')
  {
  }

  lemma {:induction false} CountSameSpaces(s: string, t: string)
    requires |s| == |t|
    requires forall i :: 0 <= i < |s| ==> (s[i] == ' ' <==> t[i] == ' ')
    ensures CountChar(s, ' ') == CountChar(t, ' ')
    decreases |s|
  {
    if |s| > 0 {
      CountSameSpaces(s[1..], t[1..]);
    }
  }

  /** Title-casing keeps the number of space-separated words. */
  lemma {:induction false} TitleCaseWordCount(s: string)
    ensures |Split(ToTitleCase(s), Space)| == |Split(s, Space)|
  {
    TitleCaseShape(s);
    CountSameSpaces(ToTitleCase(s), s);
    SplitChar(ToTitleCase(s), ' ');
    SplitChar(s, ' ');
  }

  /** Case mapping settles after one round: lower-casing twice, or re-upper-casing an
      upper-cased lower-case letter, changes nothing more. */
  lemma {:induction false} CaseRoundTrip(c: char)
    ensures LowerChar(LowerChar(c)) == LowerChar(c)
    ensures UpperChar(LowerChar(UpperChar(LowerChar(c)))) == UpperChar(LowerChar(c))
  {
  }

  /** Title-casing a title-cased text changes nothing. */
  lemma {:induction false} TitleCaseIdempotent(s: string)
    ensures ToTitleCase(ToTitleCase(s)) == ToTitleCase(s)
  {
    TitleCaseShape(s);
    var t := ToTitleCase(s);
    var u := TitleChars(t);
    forall i | 0 <= i < |s|
      ensures u[i] == t[i]
    {
      CaseRoundTrip(s[i]);
      assert WordStart(t, i) == WordStart(s, i);
    }
  }

  /** Outside word starts no upper-case ASCII letter remains. */
  predicate CaseShaped(t: string) {
    forall i :: 0 < i < |t| && t[i - 1] != ' ' ==> !('A' <= t[i] <= 'Z')
  }

  lemma {:induction false} TitleCaseShaped(s: string)
    ensures CaseShaped(ToTitleCase(s))
  {
    var t := ToTitleCase(s);
    assert |t| == |s| && forall i :: 0 <= i < |s| ==> t[i] == TitleChars(s)[i];
  }

  /** The marker of a special exam sitting. */
  const SpecialMarker: string := "(Special)"

  /** The marker opens with `(S` and is nine characters long. */
  lemma {:induction false} MarkerShape()
    ensures |SpecialMarker| == 9 && SpecialMarker[0] == '(' && SpecialMarker[1] == 'S'
  {
  }

  lemma {:induction false} ShapedNoMarker(t: string)
    requires CaseShaped(t)
    ensures !Contains(t, SpecialMarker)
    decreases |t|
  {
    var m := SpecialMarker;
    MarkerShape();
    StartsWithExact(t, m);
    assert !StartsWith(t, m, false);
    if |t| > 0 {
      assert CaseShaped(t[1..]) by {
        forall i | 0 < i < |t[1..]| && t[1..][i - 1] != ' '
          ensures !('A' <= t[1..][i] <= 'Z')
        {
          assert t[1..][i] == t[i + 1] && t[1..][i - 1] == t[i];
        }
      }
      ShapedNoMarker(t[1..]);
    }
  }

  /** A title never contains `(Special)`: its `S` would have to start a word, yet it follows `(`. */
  lemma {:induction false} TitleHasNoMarker(s: string)
    ensures !Contains(ToTitleCase(s), SpecialMarker)
  {
    TitleCaseShaped(s);
    ShapedNoMarker(ToTitleCase(s));
  }
}
