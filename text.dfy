/** The few Python `str` operations the wrappers rely on: `strip()`,
    `split(sep)`, `split()[-1]`, `rstrip(chars)` and `startswith`. */
module Text {
  import opened Wrappers

  /** The code points Python's `str.isspace()` accepts; `strip()` and
      `split()` with no argument cut at exactly these. */
  predicate IsSpace(c: char) {
    || c == ' '
    || '\t' <= c <= '\r'
    || '\U{1c}' <= c <= '\U{1f}'
    || c == '\U{85}' || c == '\U{a0}' || c == '\U{1680}'
    || '\U{2000}' <= c <= '\U{200a}'
    || c == '\U{2028}' || c == '\U{2029}' || c == '\U{202f}'
    || c == '\U{205f}' || c == '\U{3000}'
  }

  predicate AllSpace(s: string) {
    forall k :: 0 <= k < |s| ==> IsSpace(s[k])
  }

  predicate HasNoSpace(s: string) {
    forall k :: 0 <= k < |s| ==> !IsSpace(s[k])
  }

  /** `s.lstrip()`: what it cuts is whitespace (`TrimStartCutsSpace`). */
  function TrimStart(s: string): (r: string)
    ensures |r| <= |s| && r == s[|s| - |r|..]
    ensures r == [] || !IsSpace(r[0])
  {
    if |s| > 0 && IsSpace(s[0]) then
      var r := TrimStart(s[1..]);
      assert s[1..][|s| - 1 - |r|..] == s[|s| - |r|..];
      r
    else s
  }

  /** `lstrip()` cuts nothing but whitespace. */
  lemma {:induction false} TrimStartCutsSpace(s: string)
    ensures AllSpace(s[..|s| - |TrimStart(s)|])
  {
    if |s| > 0 && IsSpace(s[0]) {
      TrimStartCutsSpace(s[1..]);
      SpaceBeforeSpace(s, |s| - 1 - |TrimStart(s[1..])|);
    }
  }

  /** A space in front of a run of spaces makes a longer run. */
  lemma SpaceBeforeSpace(s: string, n: nat)
    requires |s| > 0 && IsSpace(s[0])
    requires n <= |s| - 1 && AllSpace(s[1..][..n])
    ensures AllSpace(s[..n + 1])
  {
    forall k | 0 < k < n + 1 ensures IsSpace(s[k]) {
      assert s[k] == s[1..][..n][k - 1];
    }
  }

  /** `s.rstrip()`: what it cuts is whitespace (`TrimEndCutsSpace`). */
  function TrimEnd(s: string): (r: string)
    ensures r <= s
    ensures r == [] || !IsSpace(r[|r| - 1])
  {
    if |s| > 0 && IsSpace(s[|s| - 1]) then TrimEnd(s[..|s| - 1]) else s
  }

  /** `rstrip()` cuts nothing but whitespace. */
  lemma {:induction false} TrimEndCutsSpace(s: string)
    ensures AllSpace(s[|TrimEnd(s)|..])
  {
    if |s| > 0 && IsSpace(s[|s| - 1]) {
      var u := s[..|s| - 1];
      TrimEndCutsSpace(u);
      SpaceAfterSpace(s, |TrimEnd(u)|);
    }
  }

  /** A run of spaces followed by a space makes a longer run. */
  lemma SpaceAfterSpace(s: string, m: nat)
    requires |s| > 0 && IsSpace(s[|s| - 1])
    requires m <= |s| - 1 && AllSpace(s[..|s| - 1][m..])
    ensures AllSpace(s[m..])
  {
    forall k | 0 <= k < |s| - m - 1 ensures IsSpace(s[m..][k]) {
      assert s[m..][k] == s[..|s| - 1][m..][k];
    }
  }

  /** Neither end of `s` is whitespace: what `strip()` returns. */
  predicate IsStripped(s: string) {
    s == [] || (!IsSpace(s[0]) && !IsSpace(s[|s| - 1]))
  }

  /** `s.strip()`: `s` with the whitespace at both ends cut away. What is
      left sits in `s` with only whitespace around it (`StripIsInfix`) and
      is left alone by a second strip (`StripIdempotent`). */
  function Strip(s: string): (r: string)
    ensures |r| <= |s|
    ensures IsStripped(r)
  {
    var t := TrimStart(s);
    var r := TrimEnd(t);
    StrippedPrefix(t, r);
    r
  }

  /** A prefix of text that does not start with whitespace, itself not
      ending in whitespace, has neither end in whitespace. */
  lemma StrippedPrefix(t: string, r: string)
    requires t == [] || !IsSpace(t[0])
    requires r <= t && (r == [] || !IsSpace(r[|r| - 1]))
    ensures IsStripped(r)
  {
    assert r != [] ==> r[0] == t[0];
  }

  /** `r` occurs in `s` at `i` with nothing but whitespace around it. */
  predicate SpaceAround(s: string, i: nat, r: string) {
    i + |r| <= |s| && r == s[i..i + |r|] && AllSpace(s[..i]) && AllSpace(s[i + |r|..])
  }

  /** Stripping only removes whitespace, and only at the ends: what is
      left starts right after the leading whitespace. */
  lemma StripIsInfix(s: string)
    ensures SpaceAround(s, |s| - |TrimStart(s)|, Strip(s))
  {
    var t := TrimStart(s);
    var r := TrimEnd(t);
    assert Strip(s) == r;
    TrimStartCutsSpace(s);
    TrimEndCutsSpace(t);
    TrimmedInfix(s, t, r);
  }

  /** Every string of a list stripped (`StripAllAt`), each sitting in its
      original with only whitespace around it (`StripAllInfix`). */
  function StripAll(parts: seq<string>): (r: seq<string>)
    ensures |r| == |parts|
  {
    if parts == [] then [] else [Strip(parts[0])] + StripAll(parts[1..])
  }

  lemma {:induction false} StripAllStripped(parts: seq<string>)
    ensures forall x :: x in StripAll(parts) ==> IsStripped(x)
  {
    if parts != [] {
      StripAllStripped(parts[1..]);
    }
  }

  lemma {:induction false} StripAllAt(parts: seq<string>)
    ensures forall j :: 0 <= j < |parts| ==> StripAll(parts)[j] == Strip(parts[j])
  {
    if parts != [] {
      StripAllAt(parts[1..]);
      forall j | 0 < j < |parts| ensures StripAll(parts)[j] == Strip(parts[j]) {
        assert parts[j] == parts[1..][j - 1];
      }
    }
  }

  /** The stripped list holds exactly the stripped parts. */
  lemma StripAllMembers(parts: seq<string>)
    ensures forall x :: x in StripAll(parts) <==> exists j :: 0 <= j < |parts| && x == Strip(parts[j])
  {
    StripAllAt(parts);
    var r := StripAll(parts);
    assert forall x :: x in r <==> exists j :: 0 <= j < |r| && x == r[j];
  }

  lemma {:induction false} StripAllAppend(a: seq<string>, b: seq<string>)
    ensures StripAll(a + b) == StripAll(a) + StripAll(b)
  {
    if a != [] {
      assert (a + b)[0] == a[0];
      assert (a + b)[1..] == a[1..] + b;
      StripAllAppend(a[1..], b);
    } else {
      assert a + b == b;
    }
  }

  /** A character absent from every string is absent from every stripped
      one. */
  lemma StripAllAvoids(parts: seq<string>, c: char)
    requires forall k :: 0 <= k < |parts| ==> c !in parts[k]
    ensures forall k :: 0 <= k < |parts| ==> c !in StripAll(parts)[k]
  {
    StripAllInfix(parts);
    forall k | 0 <= k < |parts| ensures c !in StripAll(parts)[k] {
      InfixAvoids(parts[k], Lead(parts[k]), StripAll(parts)[k], c);
    }
  }

  lemma InfixAvoids(s: string, i: nat, r: string, c: char)
    requires c !in s && SpaceAround(s, i, r)
    ensures c !in r
  {
    forall j | 0 <= j < |r| ensures r[j] != c {
      assert r[j] == s[i + j];
    }
  }

  /** How much whitespace `strip()` cuts from the front of `s`. */
  function Lead(s: string): (n: nat)
    ensures n <= |s|
  {
    |s| - |TrimStart(s)|
  }

  /** Each stripped string sits in its original, at the same position of
      the list, after its leading whitespace and with only whitespace
      after it. */
  lemma {:induction false} StripAllInfix(parts: seq<string>)
    ensures forall k :: 0 <= k < |parts| ==> SpaceAround(parts[k], Lead(parts[k]), StripAll(parts)[k])
  {
    if parts != [] {
      StripAllInfix(parts[1..]);
      StripIsInfix(parts[0]);
      assert StripAll(parts)[0] == Strip(parts[0]);
      forall k | 0 < k < |parts| ensures SpaceAround(parts[k], Lead(parts[k]), StripAll(parts)[k]) {
        assert parts[k] == parts[1..][k - 1];
        assert StripAll(parts)[k] == StripAll(parts[1..])[k - 1];
      }
    }
  }

  /** Cutting whitespace from the front and then from the back leaves an
      infix with only whitespace around it. */
  lemma TrimmedInfix(s: string, t: string, r: string)
    requires |t| <= |s| && t == s[|s| - |t|..] && AllSpace(s[..|s| - |t|])
    requires r <= t && AllSpace(t[|r|..])
    ensures SpaceAround(s, |s| - |t|, r)
  {
    var i := |s| - |t|;
    assert r == t[..|r|] == s[i..i + |r|];
    assert s[i + |r|..] == t[|r|..];
  }

  /** `strip()` leaves text without whitespace at its ends as it is. */
  lemma StripKeepsStripped(s: string)
    requires IsStripped(s)
    ensures Strip(s) == s
  {
    TrimStartKeeps(s);
    TrimEndKeeps(s);
  }

  lemma TrimStartKeeps(s: string)
    requires s == [] || !IsSpace(s[0])
    ensures TrimStart(s) == s
  {
  }

  lemma TrimEndKeeps(s: string)
    requires s == [] || !IsSpace(s[|s| - 1])
    ensures TrimEnd(s) == s
  {
  }

  /** Text that does not end in whitespace only loses its leading
      whitespace to `strip()`. */
  lemma StripCleanEnd(s: string)
    requires s != [] && !IsSpace(s[|s| - 1])
    ensures Strip(s) == TrimStart(s)
  {
    var t := TrimStart(s);
    assert t != [] && !IsSpace(t[|t| - 1]) by {
      TrimStartCutsSpace(s);
      LastSurvivesCut(s, t);
    }
    TrimEndKeeps(t);
    assert Strip(s) == TrimEnd(t);
  }

  /** Cutting whitespace from the front keeps a last character that is not
      whitespace. */
  lemma LastSurvivesCut(s: string, t: string)
    requires s != [] && !IsSpace(s[|s| - 1])
    requires |t| <= |s| && t == s[|s| - |t|..] && AllSpace(s[..|s| - |t|])
    ensures t != [] && t[|t| - 1] == s[|s| - 1]
  {
  }

  /** Stripping twice is stripping once. */
  lemma StripIdempotent(s: string)
    ensures Strip(Strip(s)) == Strip(s)
  {
    StripKeepsStripped(Strip(s));
  }

  /** No part holds the separator. */
  predicate SepFree(parts: seq<string>, sep: char) {
    forall k :: 0 <= k < |parts| ==> sep !in parts[k]
  }

  /** Gluing `parts` back together with `sep` between neighbours
      (`sep.join(parts)`). */
  function Join(parts: seq<string>, sep: char): (s: string)
    requires |parts| >= 1
  {
    if |parts| == 1 then parts[0] else parts[0] + [sep] + Join(parts[1..], sep)
  }

  /** `s.split(sep)` for a one-character separator: the pieces between
      separators, empty pieces included, so that at least one piece comes
      back (`"".split(",") == [""]`). */
  function Split(s: string, sep: char): (parts: seq<string>)
    ensures |parts| >= 1
    ensures SepFree(parts, sep)
    ensures Join(parts, sep) == s
  {
    if |s| == 0 then [""]
    else
      var rest := Split(s[1..], sep);
      if s[0] == sep then
        assert ([""] + rest)[1..] == rest;
        [""] + rest
      else
        var parts := [[s[0]] + rest[0]] + rest[1..];
        assert parts[1..] == rest[1..];
        assert sep !in parts[0];
        parts
  }

  /** Splitting undoes joining when no part holds the separator: with the
      ensures of `Split`, the two are inverse to each other. */
  lemma {:induction false} SplitJoin(parts: seq<string>, sep: char)
    requires |parts| >= 1
    requires SepFree(parts, sep)
    ensures Split(Join(parts, sep), sep) == parts
  {
    var q := Split(Join(parts, sep), sep);
    JoinInjective(q, parts, sep);
  }

  /** Two separator-free lists of parts that join to the same text are
      the same list. */
  lemma {:induction false} JoinInjective(p: seq<string>, q: seq<string>, sep: char)
    requires |p| >= 1 && |q| >= 1
    requires SepFree(p, sep) && SepFree(q, sep)
    requires Join(p, sep) == Join(q, sep)
    ensures p == q
    decreases |p|
  {
    var s := Join(p, sep);
    if |p| == 1 && |q| == 1 {
    } else if |p| == 1 {
      SeparatorAfterHead(q, sep);
      assert false;
    } else if |q| == 1 {
      SeparatorAfterHead(p, sep);
      assert false;
    } else {
      SeparatorAfterHead(p, sep);
      SeparatorAfterHead(q, sep);
      if |p[0]| < |q[0]| {
        assert false;
      } else if |q[0]| < |p[0]| {
        assert false;
      } else {
        assert p[0] == s[..|p[0]|] == q[0];
        assert Join(p[1..], sep) == s[|p[0]| + 1..] == Join(q[1..], sep);
        JoinInjective(p[1..], q[1..], sep);
        assert p == [p[0]] + p[1..];
        assert q == [q[0]] + q[1..];
      }
    }
  }

  /** In the joined text of two or more parts, the first part is followed
      by a separator. */
  lemma SeparatorAfterHead(parts: seq<string>, sep: char)
    requires |parts| >= 2
    ensures |parts[0]| < |Join(parts, sep)|
    ensures Join(parts, sep)[..|parts[0]|] == parts[0]
    ensures Join(parts, sep)[|parts[0]|] == sep
    ensures Join(parts, sep)[|parts[0]| + 1..] == Join(parts[1..], sep)
  {
  }

  /** The maximal run of non-space characters at the end of `s`. */
  function TrailingWord(s: string): (w: string)
    ensures |w| <= |s| && w == s[|s| - |w|..]
    ensures HasNoSpace(w)
    ensures |w| == |s| || IsSpace(s[|s| - |w| - 1])
  {
    if |s| > 0 && !IsSpace(s[|s| - 1]) then
      var w := TrailingWord(s[..|s| - 1]) + [s[|s| - 1]];
      w
    else []
  }

  /** `s.split()[-1]`: the last whitespace-separated word of `s`, or `None`
      where Python raises `IndexError` because `s` holds no word at all.
      The word found is the last one (`LastWordIsLast`). */
  function LastWord(s: string): (r: Option<string>)
    ensures r.None? <==> AllSpace(s)
    ensures r.Some? ==> r.value != [] && HasNoSpace(r.value)
  {
    var t := TrimEnd(s);
    TrimEndCutsSpace(s);
    if t == [] then
      assert s[0..] == s;
      None
    else
      assert IsSpace(s[|t| - 1]) ==> !AllSpace(s);
      Some(TrailingWord(t))
  }

  /** `w` starts at `j` in `s`, after a space or at the start, and only
      whitespace follows it. */
  predicate FinalWordAt(s: string, j: nat, w: string) {
    j + |w| <= |s| && w == s[j..j + |w|] && AllSpace(s[j + |w|..])
    && (j == 0 || IsSpace(s[j - 1]))
  }

  /** The word `LastWord` finds is preceded by a space or the start of `s`,
      and nothing but whitespace follows it. */
  lemma LastWordIsLast(s: string)
    requires LastWord(s).Some?
    ensures exists j: nat :: FinalWordAt(s, j, LastWord(s).value)
  {
    var t := TrimEnd(s);
    var w := TrailingWord(t);
    assert LastWord(s) == Some(w);
    TrimEndCutsSpace(s);
    TrailingWordPlaced(s, t, w);
  }

  lemma TrailingWordPlaced(s: string, t: string, w: string)
    requires t <= s && AllSpace(s[|t|..])
    requires |w| <= |t| && w == t[|t| - |w|..]
    requires |w| == |t| || IsSpace(t[|t| - |w| - 1])
    ensures FinalWordAt(s, |t| - |w|, w)
  {
    var j := |t| - |w|;
    assert s[j..j + |w|] == t[j..];
    assert j > 0 ==> s[j - 1] == t[j - 1];
  }

  /** Joining two non-empty part lists puts a separator between their
      joined texts. */
  lemma {:induction false} JoinConcat(p: seq<string>, q: seq<string>, sep: char)
    requires |p| >= 1 && |q| >= 1
    ensures Join(p + q, sep) == Join(p, sep) + [sep] + Join(q, sep)
    decreases |p|
  {
    if |p| == 1 {
      assert (p + q)[1..] == q;
    } else {
      assert (p + q)[1..] == p[1..] + q;
      JoinConcat(p[1..], q, sep);
    }
  }

  /** Splitting at a separator distributes over the two sides of it. */
  lemma SplitAround(a: string, b: string, sep: char)
    ensures Split(a + [sep] + b, sep) == Split(a, sep) + Split(b, sep)
  {
    var pa, pb := Split(a, sep), Split(b, sep);
    var ps := pa + pb;
    var q := Split(a + [sep] + b, sep);
    JoinConcat(pa, pb, sep);
    SepFreeConcat(pa, pb, sep);
    JoinInjective(q, ps, sep);
  }

  /** Concatenating separator-free part lists keeps them separator-free. */
  /** Text without the separator is a single piece. */
  lemma SplitWithout(s: string, sep: char)
    requires sep !in s
    ensures Split(s, sep) == [s]
  {
    SplitJoin([s], sep);
  }

  lemma SepFreeConcat(p: seq<string>, q: seq<string>, sep: char)
    requires SepFree(p, sep) && SepFree(q, sep)
    ensures SepFree(p + q, sep)
  {
    forall k | 0 <= k < |p + q| ensures sep !in (p + q)[k] {
      if k < |p| { assert (p + q)[k] == p[k]; } else { assert (p + q)[k] == q[k - |p|]; }
    }
  }

  /** A final word of a stripped infix is a final word of the whole text. */
  lemma FinalWordInInfix(s: string, i: nat, r: string, j: nat, w: string)
    requires SpaceAround(s, i, r) && FinalWordAt(r, j, w)
    ensures FinalWordAt(s, i + j, w)
  {
    var m := i + j + |w|;
    forall k | 0 <= k < |w| ensures s[i + j + k] == w[k] {
      assert w[k] == r[j + k];
    }
    assert w == s[i + j..m];
    forall k | 0 <= k < |s| - m ensures IsSpace(s[m..][k]) {
      if m + k < i + |r| {
        assert s[m..][k] == r[j + |w|..][k];
      } else {
        assert s[m..][k] == s[i + |r|..][m + k - i - |r|];
      }
    }
    if i + j > 0 {
      if j > 0 {
        assert s[i + j - 1] == r[j - 1];
      } else {
        assert s[i - 1] == s[..i][i - 1];
      }
    }
  }

  /** Text with only whitespace around a stripped infix is blank exactly
      when the infix is. */
  lemma AllSpaceInfix(s: string, i: nat, r: string)
    requires SpaceAround(s, i, r) && IsStripped(r)
    ensures AllSpace(r) <==> AllSpace(s)
  {
    if r != [] {
      assert s[i] == r[0];
    } else {
      forall k | 0 <= k < |s| ensures IsSpace(s[k]) {
        if k < i {
          assert s[k] == s[..i][k];
        } else {
          assert s[k] == s[i..][k - i];
        }
      }
    }
  }

  /** The first piece of a split is the text before the first separator,
      or the whole text when there is no separator. */
  lemma HeadOfSplit(s: string, sep: char)
    ensures var h := Split(s, sep)[0];
            && sep !in h
            && (sep in s ==> |h| < |s| && s[..|h|] == h && s[|h|] == sep)
            && (sep !in s ==> h == s)
  {
    var parts := Split(s, sep);
    if |parts| >= 2 {
      SeparatorAfterHead(parts, sep);
    } else {
      assert Join(parts, sep) == parts[0];
    }
  }

  /** `s.rstrip(chars)`: `s` without the longest suffix made of `chars`. */
  function RStrip(s: string, chars: set<char>): (r: string)
    ensures r <= s
    ensures forall k :: |r| <= k < |s| ==> s[k] in chars
    ensures r == [] || r[|r| - 1] !in chars
  {
    if |s| > 0 && s[|s| - 1] in chars then RStrip(s[..|s| - 1], chars) else s
  }
}
