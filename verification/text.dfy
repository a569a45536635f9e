/** The JavaScript string operations the handlers rely on, over `string = seq<char>`:
    `trim`, `split`, `join`, `includes`, `replace`/`replaceAll` with a literal or an
    alternation pattern and the empty replacement, and ASCII case mapping. */
module Text {
  import opened Wrappers
  import opened Seqs

  /** The code points `String.prototype.trim` removes: WhiteSpace and LineTerminator. */
  predicate IsWhitespace(c: char) {
    var n := c as int;
    n == 0x09 || n == 0x0A || n == 0x0B || n == 0x0C || n == 0x0D || n == 0x20
    || n == 0xA0 || n == 0x1680 || (0x2000 <= n <= 0x200A) || n == 0x2028 || n == 0x2029
    || n == 0x202F || n == 0x205F || n == 0x3000 || n == 0xFEFF
  }

  /** Neither end is whitespace. */
  predicate IsTrimmed(s: string) {
    |s| == 0 || (!IsWhitespace(s[0]) && !IsWhitespace(s[|s| - 1]))
  }

  /** `s.trimStart()`: the longest suffix of `s` that does not start with whitespace. */
  function TrimStart(s: string): (r: string)
    ensures |r| <= |s| && r == s[|s| - |r|..]
    ensures forall i :: 0 <= i < |s| - |r| ==> IsWhitespace(s[i])
    ensures |r| > 0 ==> !IsWhitespace(r[0])
    decreases |s|
  {
    if |s| > 0 && IsWhitespace(s[0]) then TrimStart(s[1..]) else s
  }

  /** `s.trimEnd()`: the longest prefix of `s` that does not end with whitespace. */
  function TrimEnd(s: string): (r: string)
    ensures |r| <= |s| && r == s[..|r|]
    ensures forall i :: |r| <= i < |s| ==> IsWhitespace(s[i])
    ensures |r| > 0 ==> !IsWhitespace(r[|r| - 1])
    decreases |s|
  {
    if |s| > 0 && IsWhitespace(s[|s| - 1]) then TrimEnd(s[..|s| - 1]) else s
  }

  /** Number of whitespace characters `trim` removes from the front of `s`. */
  function TrimOffset(s: string): nat {
    |s| - |TrimStart(s)|
  }

  /** `s.trim()`: the infix of `s` left after removing leading and trailing whitespace. */
  function Trim(s: string): (r: string)
    ensures IsTrimmed(r)
  {
    var t := TrimStart(s);
    var r := TrimEnd(t);
    assert |r| > 0 ==> r[0] == t[0];
    r
  }

  /** What `trim` keeps is the infix of `s` between its leading and trailing whitespace. */
  lemma {:induction false} TrimInfix(s: string)
    ensures TrimOffset(s) + |Trim(s)| <= |s| && Trim(s) == s[TrimOffset(s)..TrimOffset(s) + |Trim(s)|]
    ensures forall i :: 0 <= i < TrimOffset(s) ==> IsWhitespace(s[i])
    ensures forall i :: TrimOffset(s) + |Trim(s)| <= i < |s| ==> IsWhitespace(s[i])
  {
    var t := TrimStart(s);
    var r := TrimEnd(t);
    assert Trim(s) == r && TrimOffset(s) == |s| - |t|;
    PrefixOfSuffix(s, |s| - |t|, t, r);
  }

  /** A prefix `r` of the suffix `t` of `s` that starts at `o` is the infix `s[o..o + |r|]`, and
      whitespace after `r` in `t` is whitespace after it in `s`. */
  lemma {:induction false} PrefixOfSuffix(s: string, o: nat, t: string, r: string)
    requires o <= |s| && t == s[o..] && |r| <= |t| && r == t[..|r|]
    requires forall i :: |r| <= i < |t| ==> IsWhitespace(t[i])
    ensures o + |r| <= |s| && r == s[o..o + |r|]
    ensures forall i :: o + |r| <= i < |s| ==> IsWhitespace(s[i])
  {
    forall i | o + |r| <= i < |s|
      ensures IsWhitespace(s[i])
    {
      assert s[i] == t[i - o];
    }
  }

  /** A string without edge whitespace is its own trim, so `trim` is idempotent. */
  lemma {:induction false} TrimTrimmed(s: string)
    requires IsTrimmed(s)
    ensures Trim(s) == s
  {
    assert TrimStart(s) == s;
    assert TrimEnd(s) == s;
  }

  lemma {:induction false} TrimIdempotent(s: string)
    ensures Trim(Trim(s)) == Trim(s)
  {
    TrimTrimmed(Trim(s));
  }

  /** ASCII `toLowerCase` of one character. */
  function LowerChar(c: char): char {
    if 'A' <= c <= 'Z' then (c as int + 32) as char else c
  }

  /** ASCII `toUpperCase` of one character. */
  function UpperChar(c: char): char {
    if 'a' <= c <= 'z' then (c as int - 32) as char else c
  }

  /** `s.toLowerCase()` on the ASCII letters. */
  function Lower(s: string): (r: string)
    ensures |r| == |s|
    ensures forall i :: 0 <= i < |s| ==> r[i] == LowerChar(s[i])
  {
    seq(|s|, i requires 0 <= i < |s| => LowerChar(s[i]))
  }

  /** `s.charAt(0).toUpperCase() + s.slice(1)`; the empty string stays empty. */
  function Capitalize(s: string): (r: string)
    ensures |r| == |s|
    ensures |s| > 0 ==> r[0] == UpperChar(s[0])
    ensures |s| > 0 ==> r[1..] == s[1..]
  {
    if |s| == 0 then "" else [UpperChar(s[0])] + s[1..]
  }

  lemma {:induction false} CapitalizeIdempotent(s: string)
    ensures Capitalize(Capitalize(s)) == Capitalize(s)
  {
  }

  /** Character equality, optionally ignoring ASCII case (the `i` flag of a regular expression). */
  predicate CharEq(a: char, b: char, ignoreCase: bool) {
    if ignoreCase then LowerChar(a) == LowerChar(b) else a == b
  }

  /** `p` matches at the start of `s`. */
  predicate StartsWith(s: string, p: string, ignoreCase: bool)
    decreases |p|
  {
    |p| <= |s| && (|p| == 0 || (CharEq(p[0], s[0], ignoreCase) && StartsWith(s[1..], p[1..], ignoreCase)))
  }

  /** A match starts with the pattern's first character. */
  lemma {:induction false} StartsWithFirst(s: string, p: string, ignoreCase: bool)
    requires |p| > 0 && StartsWith(s, p, ignoreCase)
    ensures |s| > 0 && CharEq(p[0], s[0], ignoreCase)
  {
  }

  /** `p` matches somewhere in `s`. */
  predicate Occurs(s: string, p: string, ignoreCase: bool)
    decreases |s|
  {
    StartsWith(s, p, ignoreCase) || (|s| > 0 && Occurs(s[1..], p, ignoreCase))
  }

  /** `s.includes(p)`. */
  predicate Contains(s: string, p: string) {
    Occurs(s, p, false)
  }

  lemma {:induction false} StartsWithExact(s: string, p: string)
    ensures StartsWith(s, p, false) <==> p <= s
    decreases |p|
  {
    if |p| > 0 && |s| > 0 {
      StartsWithExact(s[1..], p[1..]);
      assert p == [p[0]] + p[1..];
      assert s == [s[0]] + s[1..];
    }
  }

  /** The single space the handlers split words on and join them with. */
  const Space: string := [' ']

  /** `s.split(sep)` for a non-empty literal separator: the pieces between
      left-to-right, non-overlapping occurrences of `sep`. */
  function Split(s: string, sep: string): (parts: seq<string>)
    requires |sep| > 0
    ensures |parts| >= 1
    decreases |s|
  {
    if |s| == 0 then [""]
    else if StartsWith(s, sep, false) then [""] + Split(s[|sep|..], sep)
    else
      var rest := Split(s[1..], sep);
      [[s[0]] + rest[0]] + rest[1..]
  }

  /** `parts.join(sep)`. */
  function Join(parts: seq<string>, sep: string): string
    decreases |parts|
  {
    if |parts| == 0 then ""
    else if |parts| == 1 then parts[0]
    else parts[0] + sep + Join(parts[1..], sep)
  }

  lemma {:induction false} JoinCons(w: string, ws: seq<string>, sep: string)
    requires |ws| >= 1
    ensures Join([w] + ws, sep) == w + sep + Join(ws, sep)
  {
    assert ([w] + ws)[1..] == ws;
  }

  /** Splitting then joining with the same separator gives the input back. */
  lemma {:induction false} JoinSplit(s: string, sep: string)
    requires |sep| > 0
    ensures Join(Split(s, sep), sep) == s
    decreases |s|
  {
    if |s| == 0 {
    } else if StartsWith(s, sep, false) {
      JoinSplit(s[|sep|..], sep);
      JoinSplitAtSeparator(s, sep);
    } else {
      JoinSplit(s[1..], sep);
      JoinSplitAtChar(s, sep);
    }
  }

  lemma {:induction false} JoinSplitAtSeparator(s: string, sep: string)
    requires |sep| > 0 && |s| > 0 && StartsWith(s, sep, false)
    requires Join(Split(s[|sep|..], sep), sep) == s[|sep|..]
    ensures Join(Split(s, sep), sep) == s
  {
    var tail := Split(s[|sep|..], sep);
    assert Split(s, sep) == [""] + tail;
    assert Join([""] + tail, sep) == sep + s[|sep|..] by {
      JoinCons("", tail, sep);
    }
    assert s == sep + s[|sep|..] by {
      StartsWithExact(s, sep);
    }
  }

  lemma {:induction false} JoinSplitAtChar(s: string, sep: string)
    requires |sep| > 0 && |s| > 0 && !StartsWith(s, sep, false)
    requires Join(Split(s[1..], sep), sep) == s[1..]
    ensures Join(Split(s, sep), sep) == s
  {
    var rest := Split(s[1..], sep);
    var first := [s[0]] + rest[0];
    assert Split(s, sep) == [first] + rest[1..];
    if |rest| == 1 {
      assert [first] + rest[1..] == [first];
      assert Join(rest, sep) == rest[0];
    } else {
      var tail := Join(rest[1..], sep);
      assert rest == [rest[0]] + rest[1..];
      JoinCons(rest[0], rest[1..], sep);
      assert s[1..] == rest[0] + sep + tail;
      JoinCons(first, rest[1..], sep);
      assert Join(Split(s, sep), sep) == first + sep + tail;
      assert first + sep + tail == [s[0]] + (rest[0] + sep + tail);
    }
    assert s == [s[0]] + s[1..];
  }

  /** `s.split(sep)` has a second piece exactly when `sep` occurs in `s`. */
  lemma {:induction false} SplitHasSecondPiece(s: string, sep: string)
    requires |sep| > 0
    ensures |Split(s, sep)| >= 2 <==> Contains(s, sep)
    decreases |s|
  {
    if |s| > 0 && !StartsWith(s, sep, false) {
      SplitHasSecondPiece(s[1..], sep);
    }
  }

  /** Occurrences of the character `c` in `s`. */
  function CountChar(s: string, c: char): nat
    decreases |s|
  {
    if |s| == 0 then 0 else (if s[0] == c then 1 else 0) + CountChar(s[1..], c)
  }

  /** Splitting on a single character yields one piece more than it has occurrences,
      and no piece contains it. */
  lemma {:induction false} SplitChar(s: string, c: char)
    ensures |Split(s, [c])| == CountChar(s, c) + 1
    ensures forall i :: 0 <= i < |Split(s, [c])| ==> c !in Split(s, [c])[i]
    decreases |s|
  {
    if |s| > 0 {
      SplitChar(s[1..], c);
      var rest := Split(s[1..], [c]);
      if s[0] == c {
        assert [c][1..] == [];
        assert StartsWith(s, [c], false);
        assert Split(s, [c]) == [""] + rest;
      } else {
        assert !StartsWith(s, [c], false);
        assert Split(s, [c]) == [[s[0]] + rest[0]] + rest[1..];
        assert c !in [s[0]] + rest[0];
      }
    }
  }

  /** Splitting `w + t` where `w` has no `c`: `w` is glued to the front of the first piece of `t`. */
  lemma {:induction false} SplitCharPrefix(w: string, t: string, c: char)
    requires c !in w
    ensures Split(w + t, [c]) == [w + Split(t, [c])[0]] + Split(t, [c])[1..]
    decreases |w|
  {
    if |w| > 0 {
      SplitCharPrefix(w[1..], t, c);
      assert (w + t)[1..] == w[1..] + t;
      assert !StartsWith(w + t, [c], false);
      assert [(w + t)[0]] + (w[1..] + Split(t, [c])[0]) == w + Split(t, [c])[0];
    } else {
      assert w + t == t;
      assert w + Split(t, [c])[0] == Split(t, [c])[0];
      assert Split(t, [c]) == [Split(t, [c])[0]] + Split(t, [c])[1..];
    }
  }

  /** Joining words free of `c` with `c` and splitting again gives the words back. */
  lemma {:induction false} SplitJoinChar(ws: seq<string>, c: char)
    requires |ws| >= 1
    requires forall i :: 0 <= i < |ws| ==> c !in ws[i]
    ensures Split(Join(ws, [c]), [c]) == ws
    decreases |ws|
  {
    if |ws| == 1 {
      SplitCharPrefix(ws[0], "", c);
      assert ws[0] + "" == ws[0];
      assert Split("", [c]) == [""];
      assert ws[0] + Split("", [c])[0] == ws[0];
      assert ws == [ws[0]];
    } else {
      var rest := Join(ws[1..], [c]);
      SplitJoinChar(ws[1..], c);
      assert Join(ws, [c]) == ws[0] + ([c] + rest);
      SplitCharPrefix(ws[0], [c] + rest, c);
      assert StartsWith([c] + rest, [c], false);
      assert ([c] + rest)[1..] == rest;
      assert [c][1..] == [];
      assert Split([c] + rest, [c]) == [""] + ws[1..];
      var x := Split([c] + rest, [c]);
      assert x[0] == "" && x[1..] == ws[1..];
      assert ws[0] + x[0] == ws[0];
      assert ws == [ws[0]] + ws[1..];
    }
  }

  /** Length of the first pattern, in list order, that matches at the start of `s`:
      how a regular expression alternation `p0|p1|...` chooses its match. */
  function FirstMatch(s: string, pats: seq<string>, ignoreCase: bool): (n: Option<nat>)
    ensures n.Some? ==> n.value <= |s|
    ensures n.None? <==> forall i :: 0 <= i < |pats| ==> !StartsWith(s, pats[i], ignoreCase)
    ensures n.Some? ==> exists i :: 0 <= i < |pats| && StartsWith(s, pats[i], ignoreCase) && n.value == |pats[i]|
    decreases |pats|
  {
    if |pats| == 0 then None
    else if StartsWith(s, pats[0], ignoreCase) then Some(|pats[0]|)
    else
      var n := FirstMatch(s, pats[1..], ignoreCase);
      assert forall i :: 1 <= i < |pats| ==> pats[i] == pats[1..][i - 1];
      n
  }

  predicate NonEmptyPatterns(pats: seq<string>) {
    forall i :: 0 <= i < |pats| ==> |pats[i]| > 0
  }

  /** When every pattern starts with `c`, nothing matches where `c` is not. */
  lemma {:induction false} NoHeadNoMatch(t: string, pats: seq<string>, c: char)
    requires forall i :: 0 <= i < |pats| ==> |pats[i]| > 0 && pats[i][0] == c
    requires |t| == 0 || t[0] != c
    ensures FirstMatch(t, pats, false).None?
  {
    forall i | 0 <= i < |pats|
      ensures !StartsWith(t, pats[i], false)
    {
      if StartsWith(t, pats[i], false) {
        StartsWithFirst(t, pats[i], false);
      }
    }
  }

  /** `s.replace(/p0|p1|.../g, "")` (or `s.replaceAll(p, "")` for one pattern): scanning left
      to right, every match is deleted and scanning resumes after it. */
  function StripAll(s: string, pats: seq<string>, ignoreCase: bool): string
    requires NonEmptyPatterns(pats)
    decreases |s|
  {
    if |s| == 0 then ""
    else match FirstMatch(s, pats, ignoreCase)
      case Some(n) => StripAll(s[n..], pats, ignoreCase)
      case None => [s[0]] + StripAll(s[1..], pats, ignoreCase)
  }

  /** Deleting matches only removes characters: what is left is a subsequence, and a string
      in which no pattern occurs is left alone. */
  lemma {:induction false} StripAllSubsequence(s: string, pats: seq<string>, ignoreCase: bool)
    requires NonEmptyPatterns(pats)
    ensures IsSubsequence(StripAll(s, pats, ignoreCase), s)
    ensures (forall i :: 0 <= i < |pats| ==> !Occurs(s, pats[i], ignoreCase)) ==> StripAll(s, pats, ignoreCase) == s
    decreases |s|
  {
    if |s| > 0 {
      match FirstMatch(s, pats, ignoreCase)
      case Some(n) =>
        StripAllSubsequence(s[n..], pats, ignoreCase);
        SubsequenceOfSuffix(StripAll(s[n..], pats, ignoreCase), s, n);
      case None =>
        var rest := StripAll(s[1..], pats, ignoreCase);
        StripAllSubsequence(s[1..], pats, ignoreCase);
        assert ([s[0]] + rest)[1..] == rest;
        assert s == [s[0]] + s[1..];
    }
  }

  /** No pattern of the alternation starts at any of the first `n` positions of `s`. */
  predicate NoMatchBefore(s: string, n: nat, pats: seq<string>, ignoreCase: bool)
    requires n <= |s|
  {
    forall k :: 0 <= k < n ==> FirstMatch(s[k..], pats, ignoreCase).None?
  }

  /** One step of the scan: a match at the head is skipped, otherwise the head is kept. */
  lemma {:induction false} StripAllStep(s: string, pats: seq<string>, ignoreCase: bool)
    requires NonEmptyPatterns(pats) && |s| > 0
    ensures FirstMatch(s, pats, ignoreCase).None? ==>
      StripAll(s, pats, ignoreCase) == [s[0]] + StripAll(s[1..], pats, ignoreCase)
    ensures FirstMatch(s, pats, ignoreCase).Some? ==>
      StripAll(s, pats, ignoreCase) == StripAll(s[FirstMatch(s, pats, ignoreCase).value..], pats, ignoreCase)
  {
  }

  /** A match of length `m` at position `n`, with no match before it, is deleted: the text
      before it is kept as it is and scanning resumes after it. */
  lemma {:induction false} StripAllDeletesMatch(s: string, n: nat, m: nat, pats: seq<string>, ignoreCase: bool)
    requires NonEmptyPatterns(pats)
    requires n + m <= |s|
    requires NoMatchBefore(s, n, pats, ignoreCase)
    requires FirstMatch(s[n..], pats, ignoreCase) == Some(m)
    ensures StripAll(s, pats, ignoreCase) == s[..n] + StripAll(s[n + m..], pats, ignoreCase)
  {
    StripAllDeletesFrom(s, 0, n, m, pats, ignoreCase);
    assert s[0..] == s && s[0..n] == s[..n];
  }

  /** The same from position `j` on: the scan keeps `s[j..n]` and resumes after the match. */
  lemma {:induction false} StripAllDeletesFrom(s: string, j: nat, n: nat, m: nat, pats: seq<string>, ignoreCase: bool)
    requires NonEmptyPatterns(pats)
    requires j <= n && n + m <= |s|
    requires NoMatchBefore(s, n, pats, ignoreCase)
    requires FirstMatch(s[n..], pats, ignoreCase) == Some(m)
    ensures StripAll(s[j..], pats, ignoreCase) == s[j..n] + StripAll(s[n + m..], pats, ignoreCase)
    decreases n - j
  {
    if j == n {
      StripAllMatchAt(s, n, m, pats, ignoreCase);
    } else {
      StripAllDeletesFrom(s, j + 1, n, m, pats, ignoreCase);
      assert FirstMatch(s[j..], pats, ignoreCase).None?;
      StripAllKeepsAt(s, j, pats, ignoreCase);
      ConsSlice(s, j, n, StripAll(s[n + m..], pats, ignoreCase));
    }
  }

  lemma {:induction false} StripAllMatchAt(s: string, n: nat, m: nat, pats: seq<string>, ignoreCase: bool)
    requires NonEmptyPatterns(pats)
    requires n + m <= |s| && FirstMatch(s[n..], pats, ignoreCase) == Some(m)
    ensures StripAll(s[n..], pats, ignoreCase) == s[n..n] + StripAll(s[n + m..], pats, ignoreCase)
  {
    StripAllMatchAtHead(s[n..], m, pats, ignoreCase);
    assert s[n..][m..] == s[n + m..];
    assert s[n..n] == [];
  }

  lemma {:induction false} StripAllKeepsAt(s: string, j: nat, pats: seq<string>, ignoreCase: bool)
    requires NonEmptyPatterns(pats)
    requires j < |s| && FirstMatch(s[j..], pats, ignoreCase).None?
    ensures StripAll(s[j..], pats, ignoreCase) == [s[j]] + StripAll(s[j + 1..], pats, ignoreCase)
  {
    StripAllStep(s[j..], pats, ignoreCase);
    assert s[j..][1..] == s[j + 1..];
  }

  lemma {:induction false} ConsSlice(s: string, j: nat, n: nat, tail: string)
    requires j < n <= |s|
    ensures [s[j]] + (s[j + 1..n] + tail) == s[j..n] + tail
  {
    assert s[j..n] == [s[j]] + s[j + 1..n];
  }

  /** A match at the head is skipped. */
  lemma {:induction false} StripAllMatchAtHead(s: string, m: nat, pats: seq<string>, ignoreCase: bool)
    requires NonEmptyPatterns(pats)
    requires m <= |s| && FirstMatch(s, pats, ignoreCase) == Some(m)
    ensures StripAll(s, pats, ignoreCase) == StripAll(s[m..], pats, ignoreCase)
  {
    assert |s| > 0 by {
      var i :| 0 <= i < |pats| && StartsWith(s, pats[i], ignoreCase) && m == |pats[i]|;
    }
    StripAllStep(s, pats, ignoreCase);
  }

  /** No match before position `n > 0` means no match at the head, and none before `n - 1` in
      the rest. */
  lemma {:induction false} NoMatchBeforeTail(s: string, n: nat, pats: seq<string>, ignoreCase: bool)
    requires 0 < n <= |s|
    requires NoMatchBefore(s, n, pats, ignoreCase)
    ensures FirstMatch(s, pats, ignoreCase).None?
    ensures NoMatchBefore(s[1..], n - 1, pats, ignoreCase)
  {
    assert s[0..] == s;
    forall k | 0 <= k < n - 1
      ensures FirstMatch(s[1..][k..], pats, ignoreCase).None?
    {
      assert s[1..][k..] == s[k + 1..];
    }
  }

  /** Text with no match at any position is left alone. */
  lemma {:induction false} StripAllNoMatch(s: string, pats: seq<string>, ignoreCase: bool)
    requires NonEmptyPatterns(pats)
    requires NoMatchBefore(s, |s|, pats, ignoreCase)
    ensures StripAll(s, pats, ignoreCase) == s
    decreases |s|
  {
    if |s| > 0 {
      NoMatchBeforeTail(s, |s|, pats, ignoreCase);
      StripAllNoMatch(s[1..], pats, ignoreCase);
      StripAllStep(s, pats, ignoreCase);
      assert s == [s[0]] + s[1..];
    }
  }

  lemma {:induction false} SubsequenceOfSuffix(a: string, s: string, n: nat)
    requires n <= |s|
    requires IsSubsequence(a, s[n..])
    ensures IsSubsequence(a, s)
    decreases n
  {
    if n > 0 {
      assert s[1..][n - 1..] == s[n..];
      SubsequenceOfSuffix(a, s[1..], n - 1);
    }
  }

  /** Dropping later repeats from the pattern list never changes which match is found. */
  lemma {:induction false} FirstMatchDedup(s: string, pats: seq<string>, seen: set<string>, ignoreCase: bool)
    requires forall q :: q in seen ==> !StartsWith(s, q, ignoreCase)
    ensures FirstMatch(s, DedupFrom(pats, seen), ignoreCase) == FirstMatch(s, pats, ignoreCase)
    decreases |pats|
  {
    if |pats| > 0 {
      var p := pats[0];
      if p in seen {
        FirstMatchDedup(s, pats[1..], seen, ignoreCase);
      } else if !StartsWith(s, p, ignoreCase) {
        FirstMatchDedup(s, pats[1..], seen + {p}, ignoreCase);
        assert ([p] + DedupFrom(pats[1..], seen + {p}))[1..] == DedupFrom(pats[1..], seen + {p});
      }
    }
  }

  /** A repeated pattern in an alternation is harmless: stripping with the list or with its
      duplicate-free version gives the same string. */
  lemma {:induction false} StripAllDedup(s: string, pats: seq<string>, ignoreCase: bool)
    requires NonEmptyPatterns(pats)
    ensures NonEmptyPatterns(Dedup(pats))
    ensures StripAll(s, pats, ignoreCase) == StripAll(s, Dedup(pats), ignoreCase)
    decreases |s|
  {
    assert forall i :: 0 <= i < |Dedup(pats)| ==> Dedup(pats)[i] in pats;
    if |s| > 0 {
      FirstMatchDedup(s, pats, {}, ignoreCase);
      match FirstMatch(s, pats, ignoreCase)
      case Some(n) =>
        StripAllDedup(s[n..], pats, ignoreCase);
      case None =>
        StripAllDedup(s[1..], pats, ignoreCase);
    }
  }

  /** Index of the first occurrence of `p` in `s`. */
  function FirstIndex(s: string, p: string): (i: nat)
    requires Contains(s, p)
    ensures i + |p| <= |s| && StartsWith(s[i..], p, false)
    ensures forall j :: 0 <= j < i ==> !StartsWith(s[j..], p, false)
    decreases |s|
  {
    if StartsWith(s, p, false) then 0
    else
      var k := FirstIndex(s[1..], p);
      assert forall j :: 1 <= j <= k ==> s[j..] == s[1..][j - 1..];
      assert s[k + 1..] == s[1..][k..];
      k + 1
  }

  /** The text before the first `p` in `s`, or all of `s` when `p` does not occur. */
  function UpTo(s: string, p: string): string {
    if Contains(s, p) then s[..FirstIndex(s, p)] else s
  }

  /** The text after the first `p` in `s`. */
  function After(s: string, p: string): string
    requires Contains(s, p)
  {
    s[FirstIndex(s, p) + |p|..]
  }

  /** `s.split(sep)` cuts at the first separator: its first piece is the text before it,
      the remaining pieces are those of the text after it; with no separator, `s` is the
      only piece. */
  lemma {:induction false} SplitHead(s: string, sep: string)
    requires |sep| > 0
    ensures Split(s, sep)[0] == UpTo(s, sep)
    ensures Contains(s, sep) ==> Split(s, sep)[1..] == Split(After(s, sep), sep)
    ensures !Contains(s, sep) ==> Split(s, sep) == [s]
    decreases |s|
  {
    if |s| == 0 {
      assert !StartsWith(s, sep, false);
    } else if StartsWith(s, sep, false) {
      assert FirstIndex(s, sep) == 0;
    } else {
      SplitHead(s[1..], sep);
      SplitHeadStep(s, sep);
    }
  }

  /** The step of `SplitHead` past a first character that does not start a separator. */
  lemma {:induction false} SplitHeadStep(s: string, sep: string)
    requires |sep| > 0 && |s| > 0 && !StartsWith(s, sep, false)
    requires Split(s[1..], sep)[0] == UpTo(s[1..], sep)
    requires Contains(s[1..], sep) ==> Split(s[1..], sep)[1..] == Split(After(s[1..], sep), sep)
    requires !Contains(s[1..], sep) ==> Split(s[1..], sep) == [s[1..]]
    ensures Split(s, sep)[0] == UpTo(s, sep)
    ensures Contains(s, sep) ==> Split(s, sep)[1..] == Split(After(s, sep), sep)
    ensures !Contains(s, sep) ==> Split(s, sep) == [s]
  {
    var t := s[1..];
    var rest := Split(t, sep);
    assert Split(s, sep) == [[s[0]] + rest[0]] + rest[1..];
    assert Contains(s, sep) <==> Contains(t, sep);
    if Contains(s, sep) {
      var k := FirstIndex(t, sep);
      assert FirstIndex(s, sep) == k + 1;
      assert UpTo(s, sep) == [s[0]] + UpTo(t, sep) by {
        assert [s[0]] + t[..k] == s[..k + 1];
      }
      assert After(s, sep) == After(t, sep) by {
        assert t[k + |sep|..] == s[k + 1 + |sep|..];
      }
    } else {
      assert [s[0]] + t == s;
    }
  }

  /** `s.replace(p, "")` for a string pattern: only the first occurrence is deleted. */
  function RemoveFirst(s: string, p: string): (r: string)
    ensures !Contains(s, p) ==> r == s
    decreases |s|
  {
    if StartsWith(s, p, false) then s[|p|..]
    else if |s| == 0 then s
    else
      assert s == [s[0]] + s[1..];
      [s[0]] + RemoveFirst(s[1..], p)
  }

  /** When `p` occurs, `RemoveFirst` splices out exactly its first occurrence. */
  lemma {:induction false} RemoveFirstSplice(s: string, p: string)
    requires Contains(s, p)
    ensures RemoveFirst(s, p) == s[..FirstIndex(s, p)] + s[FirstIndex(s, p) + |p|..]
    ensures |RemoveFirst(s, p)| + |p| == |s|
    decreases |s|
  {
    if !StartsWith(s, p, false) {
      RemoveFirstSplice(s[1..], p);
      var k := FirstIndex(s[1..], p);
      assert FirstIndex(s, p) == k + 1;
      assert [s[0]] + s[1..][..k] == s[..k + 1];
      assert s[1..][k + |p|..] == s[k + 1 + |p|..];
    }
  }
}
