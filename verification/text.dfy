/** The Python string methods the generator uses, restricted to ASCII where
    Python consults Unicode tables: `split`, `strip`, `isdigit`,
    `endswith`, `replace` and `os.path.splitext`. */
module Text {

  /** `ch.isspace()` for the ASCII range: tab, line feed, vertical tab,
      form feed, carriage return, the four information separators and the
      space. */
  predicate IsSpace(ch: char)
  {
    ch == ' ' || '\t' <= ch <= '\r' || '\U{1c}' <= ch <= '\U{1f}'
  }

  predicate IsDigit(ch: char)
  {
    '0' <= ch <= '9'
  }

  /** `s.isdigit()`: true for a non-empty string of digits only. */
  predicate IsDigits(s: string)
  {
    |s| > 0 && forall i :: 0 <= i < |s| ==> IsDigit(s[i])
  }

  /** `s.endswith(suffix)`. */
  predicate EndsWith(s: string, suffix: string)
  {
    |suffix| <= |s| && s[|s| - |suffix|..] == suffix
  }

  // ---------------------------------------------------------------------
  // split

  /** The parts joined back with the separator between them, the inverse
      of `Split`. */
  function Join(parts: seq<string>, sep: char): string
    requires |parts| >= 1
  {
    if |parts| == 1 then parts[0] else parts[0] + [sep] + Join(parts[1..], sep)
  }

  /** `s.split(sep)` for a one-character separator: every occurrence of the
      separator cuts, empty parts are kept, so there is always one part more
      than there are separators. */
  function Split(s: string, sep: char): (r: seq<string>)
    ensures |r| >= 1
    ensures forall i :: 0 <= i < |r| ==> sep !in r[i]
    decreases |s|
  {
    if |s| == 0 then [""]
    else
      var rest := Split(s[1..], sep);
      if s[0] == sep then [""] + rest else [[s[0]] + rest[0]] + rest[1..]
  }

  /** Splitting and joining back restores the input. */
  lemma {:induction false} JoinSplit(s: string, sep: char)
    ensures Join(Split(s, sep), sep) == s
    decreases |s|
  {
    if |s| > 0 {
      JoinSplit(s[1..], sep);
      var rest := Split(s[1..], sep);
      if s[0] == sep {
        assert Split(s, sep)[1..] == rest;
      } else {
        var r := Split(s, sep);
        assert r[1..] == rest[1..];
        if |rest| > 1 {
          assert Join(r, sep) == [s[0]] + rest[0] + [sep] + Join(rest[1..], sep);
        }
      }
    }
  }

  /** Joining parts that do not contain the separator and splitting again
      gives the parts back: the two functions are inverse. */
  lemma {:induction false} SplitJoin(parts: seq<string>, sep: char)
    requires |parts| >= 1
    requires forall i :: 0 <= i < |parts| ==> sep !in parts[i]
    ensures Split(Join(parts, sep), sep) == parts
    decreases |parts|, |parts[0]|
  {
    var s := Join(parts, sep);
    if |parts[0]| > 0 {
      // Peel the first character of the first part.
      var parts' := [parts[0][1..]] + parts[1..];
      assert forall i :: 0 <= i < |parts'| ==> sep !in parts'[i] by { PeelFree(parts, sep); }
      SplitJoin(parts', sep);
      assert s == [parts[0][0]] + Join(parts', sep) by { JoinPeel(parts, sep); }
      assert s[1..] == Join(parts', sep);
      assert s[0] == parts[0][0] && s[0] != sep;
      assert Split(s, sep) == [[s[0]] + parts'[0]] + parts'[1..];
      assert [parts[0][0]] + parts'[0] == parts[0];
      assert [parts[0]] + parts'[1..] == parts;
    } else if |parts| == 1 {
      assert s == "";
    } else {
      SplitJoin(parts[1..], sep);
      assert s == [sep] + Join(parts[1..], sep);
      assert s[1..] == Join(parts[1..], sep);
      assert Split(s, sep) == [""] + parts[1..];
      assert [""] + parts[1..] == parts;
    }
  }

  lemma PeelFree(parts: seq<string>, sep: char)
    requires |parts| >= 1 && |parts[0]| > 0
    requires forall i :: 0 <= i < |parts| ==> sep !in parts[i]
    ensures var parts' := [parts[0][1..]] + parts[1..];
            forall i :: 0 <= i < |parts'| ==> sep !in parts'[i]
  {
    var parts' := [parts[0][1..]] + parts[1..];
    forall i | 0 <= i < |parts'| ensures sep !in parts'[i] {
      if i == 0 {
        assert forall x :: x in parts[0][1..] ==> x in parts[0];
      } else {
        assert parts'[i] == parts[i];
      }
    }
  }

  lemma JoinPeel(parts: seq<string>, sep: char)
    requires |parts| >= 1 && |parts[0]| > 0
    ensures Join(parts, sep) == [parts[0][0]] + Join([parts[0][1..]] + parts[1..], sep)
  {
    var parts' := [parts[0][1..]] + parts[1..];
    assert parts'[1..] == parts[1..];
    assert parts[0] == [parts[0][0]] + parts[0][1..];
  }

  /** A separator cuts the input into the parts on either side. */
  lemma SplitConcat(x: string, y: string, sep: char)
    ensures Split(x + [sep] + y, sep) == Split(x, sep) + Split(y, sep)
  {
    var a, b := Split(x, sep), Split(y, sep);
    JoinSplit(x, sep);
    JoinSplit(y, sep);
    JoinConcat(a, b, sep);
    SplitJoin(a + b, sep);
  }

  lemma {:induction false} JoinConcat(a: seq<string>, b: seq<string>, sep: char)
    requires |a| >= 1 && |b| >= 1
    ensures Join(a + b, sep) == Join(a, sep) + [sep] + Join(b, sep)
    decreases |a|
  {
    if |a| == 1 {
      assert (a + b)[1..] == b;
    } else {
      JoinConcat(a[1..], b, sep);
      assert (a + b)[1..] == a[1..] + b;
    }
  }

  /** Position of the first occurrence of `c` in `s`. */
  function IndexOf(s: string, c: char): (k: nat)
    requires c in s
    ensures k < |s| && s[k] == c && c !in s[..k]
  {
    if s[0] == c then 0
    else
      var k := IndexOf(s[1..], c);
      assert s[..k + 1] == [s[0]] + s[1..][..k];
      k + 1
  }

  /** `s.split(sep, 1)`: at most one cut, at the first separator. */
  function SplitOnce(s: string, sep: char): (r: seq<string>)
    ensures |r| == 1 <==> sep !in s
    ensures |r| == 1 || |r| == 2
    ensures sep !in r[0]
    ensures |r| == 1 ==> r[0] == s
    ensures |r| == 2 ==> s == r[0] + [sep] + r[1]
  {
    if sep in s then
      var k := IndexOf(s, sep);
      assert s == s[..k] + [sep] + s[k + 1..];
      [s[..k], s[k + 1..]]
    else [s]
  }

  /** The first part of a one-cut split is the first part of a full split. */
  lemma {:induction false} SplitOnceHead(s: string, sep: char)
    ensures SplitOnce(s, sep)[0] == Split(s, sep)[0]
    decreases |s|
  {
    if |s| > 0 && s[0] != sep {
      SplitOnceHead(s[1..], sep);
      assert Split(s, sep)[0] == [s[0]] + Split(s[1..], sep)[0];
      if sep in s {
        assert sep in s[1..] by { assert s == [s[0]] + s[1..]; }
        var k' := IndexOf(s[1..], sep);
        assert IndexOf(s, sep) == k' + 1;
        assert SplitOnce(s[1..], sep)[0] == s[1..][..k'];
        assert s[..k' + 1] == [s[0]] + s[1..][..k'];
      } else {
        assert sep !in s[1..];
      }
    }
  }

  // ---------------------------------------------------------------------
  // strip

  /** `s.lstrip()`. */
  function StripLeft(s: string): (r: string)
    ensures |r| <= |s| && r == s[|s| - |r|..]
    ensures forall k :: 0 <= k < |s| - |r| ==> IsSpace(s[k])
    ensures r == [] || !IsSpace(r[0])
  {
    if |s| > 0 && IsSpace(s[0]) then StripLeft(s[1..]) else s
  }

  /** `s.rstrip()`. */
  function StripRight(s: string): (r: string)
    ensures |r| <= |s| && r == s[..|r|]
    ensures forall k :: |r| <= k < |s| ==> IsSpace(s[k])
    ensures r == [] || !IsSpace(r[|r| - 1])
  {
    if |s| > 0 && IsSpace(s[|s| - 1]) then StripRight(s[..|s| - 1]) else s
  }

  /** `r` is `s` with the whitespace before position `i` and after
      position `i + |r|` removed. */
  predicate TrimmedAt(s: string, r: string, i: nat)
  {
    && i + |r| <= |s| && r == s[i..i + |r|]
    && (forall k :: 0 <= k < i ==> IsSpace(s[k]))
    && (forall k :: i + |r| <= k < |s| ==> IsSpace(s[k]))
  }

  /** `s.strip()`. */
  function Strip(s: string): string
  {
    StripRight(StripLeft(s))
  }

  /** Stripping removes the leading and trailing whitespace and nothing
      else. */
  lemma StripSpec(s: string)
    ensures exists i: nat :: TrimmedAt(s, Strip(s), i)
    ensures var r := Strip(s); r == [] || (!IsSpace(r[0]) && !IsSpace(r[|r| - 1]))
  {
    var l := StripLeft(s);
    var r := StripRight(l);
    assert Strip(s) == r;
    var i := |s| - |l|;
    assert r == s[i..i + |r|];
    assert forall k :: i + |r| <= k < |s| ==> s[k] == l[k - i];
    assert TrimmedAt(s, r, i);
    if r != [] {
      assert r[0] == l[0];
    }
  }

  /** Stripping a string without surrounding whitespace changes nothing. */
  lemma StripTrimmed(s: string)
    requires s == [] || (!IsSpace(s[0]) && !IsSpace(s[|s| - 1]))
    ensures Strip(s) == s
  {
  }

  // ---------------------------------------------------------------------
  // replace

  /** `p` occurs in `s` starting at position `i`. */
  predicate OccursAt(s: string, p: string, i: nat)
  {
    i + |p| <= |s| && s[i..i + |p|] == p
  }

  /** `s.replace(p, n)` for a non-empty pattern: scanning from the left,
      every occurrence of `p` that does not overlap an earlier replaced one
      becomes `n`. */
  function ReplaceAll(s: string, p: string, n: string): string
    requires |p| > 0
    decreases |s|
  {
    if |s| < |p| then s
    else if s[..|p|] == p then n + ReplaceAll(s[|p|..], p, n)
    else [s[0]] + ReplaceAll(s[1..], p, n)
  }

  /** Occurrences in a suffix are occurrences in the whole string, shifted. */
  lemma OccursInSuffix(s: string, p: string, d: nat, i: nat)
    requires d <= |s|
    ensures OccursAt(s[d..], p, i) <==> OccursAt(s, p, i + d)
  {
    if i + |p| <= |s| - d {
      assert s[d..][i..i + |p|] == s[i + d..i + d + |p|];
    }
  }

  /** Without an occurrence of the pattern, replacing changes nothing. */
  lemma {:induction false} ReplaceAbsent(s: string, p: string, n: string)
    requires |p| > 0
    requires forall i: nat :: !OccursAt(s, p, i)
    ensures ReplaceAll(s, p, n) == s
    decreases |s|
  {
    if |s| >= |p| {
      assert !OccursAt(s, p, 0);
      forall i: nat ensures !OccursAt(s[1..], p, i) {
        OccursInSuffix(s, p, 1, i);
      }
      ReplaceAbsent(s[1..], p, n);
    }
  }

  /** A pattern that occurs exactly once, at `k`, is spliced out and the
      replacement put in its place. */
  lemma {:induction false} ReplaceUnique(s: string, p: string, n: string, k: nat)
    requires |p| > 0
    requires OccursAt(s, p, k)
    requires forall i: nat :: OccursAt(s, p, i) ==> i == k
    ensures ReplaceAll(s, p, n) == s[..k] + n + s[k + |p|..]
    decreases |s|
  {
    if k == 0 {
      assert s[..|p|] == p;
      forall i: nat ensures !OccursAt(s[|p|..], p, i) {
        OccursInSuffix(s, p, |p|, i);
      }
      ReplaceAbsent(s[|p|..], p, n);
    } else {
      assert !OccursAt(s, p, 0);
      forall i: nat ensures OccursAt(s[1..], p, i) <==> i == k - 1 {
        OccursInSuffix(s, p, 1, i);
      }
      ReplaceUnique(s[1..], p, n, k - 1);
      var t := s[1..];
      assert ReplaceAll(s, p, n) == [s[0]] + ReplaceAll(t, p, n);
      assert s[..k] == [s[0]] + t[..k - 1];
      assert s[k + |p|..] == t[k - 1 + |p|..];
      assert s[..k] + n + s[k + |p|..] == [s[0]] + (t[..k - 1] + n + t[k - 1 + |p|..]);
    }
  }

  /** Replacing a pattern by itself changes nothing. */
  lemma {:induction false} ReplaceSelf(s: string, p: string)
    requires |p| > 0
    ensures ReplaceAll(s, p, p) == s
    decreases |s|
  {
    if |s| >= |p| {
      if s[..|p|] == p {
        ReplaceSelf(s[|p|..], p);
        assert s == s[..|p|] + s[|p|..];
      } else {
        ReplaceSelf(s[1..], p);
        assert s == [s[0]] + s[1..];
      }
    }
  }

  /** The parts joined back with the string `sep` between them. */
  function JoinOn(parts: seq<string>, sep: string): string
    requires |parts| >= 1
  {
    if |parts| == 1 then parts[0] else parts[0] + sep + JoinOn(parts[1..], sep)
  }

  /** `s.split(p)` for a non-empty pattern: cut at every occurrence found
      scanning from the left, an occurrence that overlaps an earlier one
      not counting. */
  function SplitOn(s: string, p: string): (r: seq<string>)
    requires |p| > 0
    ensures |r| >= 1
    decreases |s|
  {
    if |s| < |p| then [s]
    else if s[..|p|] == p then [""] + SplitOn(s[|p|..], p)
    else
      var rest := SplitOn(s[1..], p);
      [[s[0]] + rest[0]] + rest[1..]
  }

  /** Part i followed by the separator after it, if any: an occurrence of
      `p` starting inside part i lies within this window. */
  function Window(parts: seq<string>, i: nat, p: string): string
    requires i < |parts|
  {
    if i < |parts| - 1 then parts[i] + p else parts[i]
  }

  /** No occurrence of `p` begins inside any part. */
  predicate Clean(parts: seq<string>, p: string)
  {
    forall i, k :: 0 <= i < |parts| && 0 <= k < |parts[i]| ==> !OccursAt(Window(parts, i, p), p, k)
  }

  /** `parts` is `s` cut at the occurrences of `p` met scanning from the
      left: joined with `p` they give `s`, and no occurrence starts before
      a cut without being the cut itself. */
  predicate Decomposes(s: string, p: string, parts: seq<string>)
  {
    |parts| >= 1 && JoinOn(parts, p) == s && Clean(parts, p)
  }

  /** The head of a joined list moves out of the join. */
  lemma JoinOnCons(c: char, rest: seq<string>, sep: string)
    requires |rest| >= 1
    ensures JoinOn([[c] + rest[0]] + rest[1..], sep) == [c] + JoinOn(rest, sep)
  {
    var parts := [[c] + rest[0]] + rest[1..];
    assert parts[1..] == rest[1..];
  }

  /** Replacing is splitting at the pattern and joining with the
      replacement. */
  lemma {:induction false} ReplaceSplit(s: string, p: string, n: string)
    requires |p| > 0
    ensures ReplaceAll(s, p, n) == JoinOn(SplitOn(s, p), n)
    decreases |s|
  {
    if |s| >= |p| {
      if s[..|p|] == p {
        ReplaceSplit(s[|p|..], p, n);
        assert ([""] + SplitOn(s[|p|..], p))[1..] == SplitOn(s[|p|..], p);
      } else {
        ReplaceSplit(s[1..], p, n);
        JoinOnCons(s[0], SplitOn(s[1..], p), n);
      }
    }
  }

  /** Joining the parts of a split with the pattern restores the input. */
  lemma JoinSplitOn(s: string, p: string)
    requires |p| > 0
    ensures JoinOn(SplitOn(s, p), p) == s
  {
    ReplaceSplit(s, p, p);
    ReplaceSelf(s, p);
  }

  /** The first window of a split is a prefix of the input. */
  lemma {:induction false} SplitOnWindow(s: string, p: string)
    requires |p| > 0
    ensures Window(SplitOn(s, p), 0, p) <= s
    decreases |s|
  {
    if |s| >= |p| && s[..|p|] != p {
      SplitOnWindow(s[1..], p);
      FirstWindowShape(s, p);
      assert s == [s[0]] + s[1..];
    }
  }

  /** A split cuts at the occurrences met scanning from the left. */
  lemma {:induction false} SplitOnClean(s: string, p: string)
    requires |p| > 0
    ensures Clean(SplitOn(s, p), p)
    decreases |s|
  {
    var parts := SplitOn(s, p);
    if |s| >= |p| {
      if s[..|p|] == p {
        var rest := SplitOn(s[|p|..], p);
        SplitOnClean(s[|p|..], p);
        forall i, k | 1 <= i < |parts| && 0 <= k < |parts[i]|
          ensures !OccursAt(Window(parts, i, p), p, k)
        {
          assert parts[i] == rest[i - 1] && Window(parts, i, p) == Window(rest, i - 1, p);
        }
      } else {
        var rest := SplitOn(s[1..], p);
        SplitOnClean(s[1..], p);
        forall i, k | 1 <= i < |parts| && 0 <= k < |parts[i]|
          ensures !OccursAt(Window(parts, i, p), p, k)
        {
          assert parts[i] == rest[i] && Window(parts, i, p) == Window(rest, i, p);
        }
        FirstWindowClean(s, p);
      }
    }
  }

  /** The first part of a split that does not start at an occurrence holds
      no occurrence either. */
  lemma FirstWindowClean(s: string, p: string)
    requires |p| > 0 && |s| >= |p| && s[..|p|] != p
    requires Clean(SplitOn(s[1..], p), p)
    ensures forall k :: 0 <= k < |SplitOn(s, p)[0]| ==> !OccursAt(Window(SplitOn(s, p), 0, p), p, k)
  {
    var rest := SplitOn(s[1..], p);
    FirstWindowShape(s, p);
    var w := Window(SplitOn(s, p), 0, p);
    var v := Window(rest, 0, p);
    assert w <= s by { SplitOnWindow(s, p); }
    assert |p| <= |w| ==> w[..|p|] == s[..|p|];
    assert forall k :: 0 <= k < |rest[0]| ==> !OccursAt(v, p, k);
    ConsClean(w, v, p, |rest[0]|);
  }

  /** A string that does not start with `p` and whose tail holds no
      occurrence starting before n holds none starting before n + 1. */
  lemma ConsClean(w: string, v: string, p: string, n: nat)
    requires |w| >= 1 && w[1..] == v
    requires |p| <= |w| ==> w[..|p|] != p
    requires forall k :: 0 <= k < n ==> !OccursAt(v, p, k)
    ensures forall k :: 0 <= k < n + 1 ==> !OccursAt(w, p, k)
  {
    forall k | 1 <= k < n + 1
      ensures !OccursAt(w, p, k)
    {
      OccursInSuffix(w, p, 1, k - 1);
    }
  }

  /** Without an occurrence at the start, the first part and the first
      window of a split begin with the first character. */
  lemma FirstWindowShape(s: string, p: string)
    requires |p| > 0 && |s| >= |p| && s[..|p|] != p
    ensures |SplitOn(s, p)| == |SplitOn(s[1..], p)|
    ensures SplitOn(s, p)[0] == [s[0]] + SplitOn(s[1..], p)[0]
    ensures Window(SplitOn(s, p), 0, p) == [s[0]] + Window(SplitOn(s[1..], p), 0, p)
  {
    var rest := SplitOn(s[1..], p);
    assert SplitOn(s, p) == [[s[0]] + rest[0]] + rest[1..];
    WindowCons(s[0], SplitOn(s, p), rest, p);
  }

  lemma WindowCons(c: char, parts: seq<string>, rest: seq<string>, p: string)
    requires |parts| == |rest| >= 1 && parts[0] == [c] + rest[0]
    ensures Window(parts, 0, p) == [c] + Window(rest, 0, p)
  {
    if |rest| > 1 {
      assert [c] + rest[0] + p == [c] + (rest[0] + p);
    }
  }

  /** `SplitOn` decomposes its input. */
  lemma SplitOnDecomposes(s: string, p: string)
    requires |p| > 0
    ensures Decomposes(s, p, SplitOn(s, p))
  {
    JoinSplitOn(s, p);
    SplitOnClean(s, p);
  }

  /** A decomposition is unique: it is the split. */
  lemma {:induction false} SplitOnUnique(s: string, p: string, parts: seq<string>)
    requires |p| > 0 && Decomposes(s, p, parts)
    ensures parts == SplitOn(s, p)
    decreases |s|
  {
    if |parts| > 1 {
      assert s == parts[0] + p + JoinOn(parts[1..], p);
    }
    if |s| < |p| {
      // A cut would need room for the pattern.
    } else if s[..|p|] == p {
      assert parts[0] == "" by { DecomposedAtStart(s, p, parts); }
      var tail := parts[1..];
      assert s[|p|..] == JoinOn(tail, p);
      CleanTail(parts, p);
      SplitOnUnique(s[|p|..], p, tail);
      assert parts == [""] + tail;
    } else {
      var parts' := [parts[0][1..]] + parts[1..];
      CleanPeel(s, p, parts);
      SplitOnUnique(s[1..], p, parts');
      assert parts[0] == [s[0]] + parts'[0];
      assert parts[1..] == parts'[1..];
      assert parts == [[s[0]] + parts'[0]] + parts'[1..];
    }
  }

  /** A decomposition of a text starting with the pattern starts with an
      empty part. */
  lemma DecomposedAtStart(s: string, p: string, parts: seq<string>)
    requires |p| > 0 && |s| >= |p| && s[..|p|] == p && Decomposes(s, p, parts)
    ensures parts[0] == ""
  {
    if parts[0] != "" {
      var w := Window(parts, 0, p);
      if |parts| > 1 {
        assert s == parts[0] + p + JoinOn(parts[1..], p);
        assert w[..|p|] == s[..|p|];
      }
      assert OccursAt(w, p, 0);
    }
  }

  /** Dropping the first part of a clean list leaves a clean list. */
  lemma CleanTail(parts: seq<string>, p: string)
    requires |parts| > 1 && Clean(parts, p)
    ensures Clean(parts[1..], p)
  {
    var tail := parts[1..];
    forall i, k | 0 <= i < |tail| && 0 <= k < |tail[i]|
      ensures !OccursAt(Window(tail, i, p), p, k)
    {
      assert tail[i] == parts[i + 1] && Window(tail, i, p) == Window(parts, i + 1, p);
    }
  }

  /** Dropping the first character of a non-empty first part keeps the
      list a decomposition of the rest of the text. */
  lemma CleanPeel(s: string, p: string, parts: seq<string>)
    requires |p| > 0 && Decomposes(s, p, parts) && parts[0] != ""
    ensures |s| > 0 && parts[0][0] == s[0]
    ensures Decomposes(s[1..], p, [parts[0][1..]] + parts[1..])
  {
    var parts' := [parts[0][1..]] + parts[1..];
    assert parts[0] == [parts[0][0]] + parts'[0];
    assert parts[1..] == parts'[1..];
    JoinOnCons(parts[0][0], parts', p);
    assert s == [parts[0][0]] + JoinOn(parts', p);
    forall i, k | 0 <= i < |parts'| && 0 <= k < |parts'[i]|
      ensures !OccursAt(Window(parts', i, p), p, k)
    {
      if i == 0 {
        WindowCons(parts[0][0], parts, parts', p);
        OccursInSuffix(Window(parts, 0, p), p, 1, k);
        assert Window(parts, 0, p)[1..] == Window(parts', 0, p);
      } else {
        assert parts'[i] == parts[i] && Window(parts', i, p) == Window(parts, i, p);
      }
    }
  }

  // ---------------------------------------------------------------------
  // os.path.splitext

  /** `s.rfind(c)`: the last position of `c`, or -1. */
  function RFind(s: string, c: char): (r: int)
    ensures -1 <= r < |s|
    ensures r >= 0 ==> s[r] == c
    ensures forall k :: r < k < |s| ==> s[k] != c
  {
    if |s| == 0 then -1
    else if s[|s| - 1] == c then |s| - 1
    else RFind(s[..|s| - 1], c)
  }

  /** `os.path.splitext(s)[0]` on POSIX: the name without its last
      extension. The extension starts at the last dot of the final path
      component, and only if that component has a character other than a
      dot before it (so ".png" and "..png" have no extension). */
  function StemOf(s: string): string
  {
    var sepIndex := RFind(s, '/');
    var dotIndex := RFind(s, '.');
    if dotIndex > sepIndex && exists j :: sepIndex + 1 <= j < dotIndex && s[j] != '.' then s[..dotIndex]
    else s
  }

  /** The stem is a prefix of the name; what it cuts off starts with a dot
      and holds no other dot and no slash; only the empty name has an empty
      stem. */
  lemma StemOfSpec(s: string)
    ensures StemOf(s) <= s
    ensures StemOf(s) != s ==> s[|StemOf(s)|] == '.' && '.' !in s[|StemOf(s)| + 1..] && '/' !in s[|StemOf(s)|..]
    ensures |s| > 0 ==> |StemOf(s)| > 0
  {
    var sepIndex := RFind(s, '/');
    var dotIndex := RFind(s, '.');
    if dotIndex > sepIndex && exists j :: sepIndex + 1 <= j < dotIndex && s[j] != '.' {
      assert '.' !in s[dotIndex + 1..] by {
        assert forall k :: dotIndex < k < |s| ==> s[k] != '.';
      }
      assert '/' !in s[dotIndex..] by {
        assert forall k :: dotIndex <= k < |s| ==> s[k] != '/';
      }
    }
  }

  /** A name with no dot is its own stem, and a stem followed by a
      dot-free, slash-free extension is recovered from the full name. */
  lemma {:induction false} StemOfAppend(stem: string, ext: string)
    requires |stem| > 0 && stem[0] != '.' && '/' !in stem
    requires '.' !in ext && '/' !in ext
    ensures StemOf(stem + "." + ext) == stem
  {
    var s := stem + "." + ext;
    assert s[|stem|] == '.';
    assert forall k :: |stem| < k < |s| ==> s[k] == ext[k - |stem| - 1];
    assert RFind(s, '.') == |stem|;
    assert forall k :: 0 <= k < |s| ==> s[k] != '/' by {
      forall k | 0 <= k < |s| ensures s[k] != '/' {
        if k < |stem| { assert s[k] == stem[k]; }
      }
    }
    assert RFind(s, '/') == -1;
    assert s[0] == stem[0];
  }
}
