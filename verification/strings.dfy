/**
 * The few Python string operations the two DNS webhooks rely on, for a
 * one-character separator or strip character: str.split, str.join,
 * str.rstrip, str.strip and str.replace(pattern, "").
 */
module Strings {

  /** Python's `s.split(sep)`: the pieces between separators, never an empty list. */
  function Split(s: string, sep: char): (parts: seq<string>)
    ensures |parts| >= 1
    ensures forall i :: 0 <= i < |parts| ==> sep !in parts[i]
    decreases |s|
  {
    if |s| == 0 then [""]
    else
      var rest := Split(s[1..], sep);
      if s[0] == sep then [""] + rest
      else [[s[0]] + rest[0]] + rest[1..]
  }

  /** Python's `sep.join(parts)`. */
  function Join(parts: seq<string>, sep: char): string
  {
    if |parts| == 0 then ""
    else if |parts| == 1 then parts[0]
    else parts[0] + [sep] + Join(parts[1..], sep)
  }

  /** Python's `s.rstrip(c)`: every trailing `c` removed. */
  function RStrip(s: string, c: char): (r: string)
    ensures r <= s
    ensures |r| == 0 || r[|r| - 1] != c
    ensures forall i :: |r| <= i < |s| ==> s[i] == c
    decreases |s|
  {
    if |s| > 0 && s[|s| - 1] == c then RStrip(s[..|s| - 1], c) else s
  }

  /** Every leading `c` removed. */
  function LStrip(s: string, c: char): (r: string)
    ensures |r| <= |s| && r == s[|s| - |r|..]
    ensures |r| == 0 || r[0] != c
    ensures forall i :: 0 <= i < |s| - |r| ==> s[i] == c
    decreases |s|
  {
    if |s| > 0 && s[0] == c then LStrip(s[1..], c) else s
  }

  /** Python's `s.strip(c)`: neither end of the result is `c`. */
  function Strip(s: string, c: char): (r: string)
    ensures |r| <= |s|
    ensures |r| == 0 || (r[0] != c && r[|r| - 1] != c)
  {
    var l := LStrip(s, c);
    var r := RStrip(l, c);
    assert |r| > 0 ==> r[0] == l[0];
    r
  }

  /** `r` occurs in `s` starting at index `k`. */
  predicate SliceAt(s: string, k: nat, r: string)
  {
    k + |r| <= |s| && r == s[k..k + |r|]
  }

  /** What `s.strip(c)` keeps is a slice of `s`: all that lies outside it is `c`. */
  lemma StripIsSlice(s: string, c: char)
    ensures var k := |s| - |LStrip(s, c)|;
      SliceAt(s, k, Strip(s, c)) &&
      (forall i :: 0 <= i < k ==> s[i] == c) &&
      (forall i :: k + |Strip(s, c)| <= i < |s| ==> s[i] == c)
  {
    var l := LStrip(s, c);
    PrefixOfSuffix(s, l, RStrip(l, c), c);
  }

  /** A prefix `r` of a suffix `l` of `s` is a slice of `s`; what follows it in `l` follows it in `s`. */
  lemma PrefixOfSuffix(s: string, l: string, r: string, c: char)
    requires |l| <= |s| && l == s[|s| - |l|..]
    requires r <= l && forall i :: |r| <= i < |l| ==> l[i] == c
    ensures SliceAt(s, |s| - |l|, r)
    ensures forall i :: |s| - |l| + |r| <= i < |s| ==> s[i] == c
  {
    var k := |s| - |l|;
    assert r == l[..|r|];
    forall i | k + |r| <= i < |s| ensures s[i] == c {
      assert s[i] == l[i - k];
    }
  }

  /** `pat` starts at index `i` of `s`. */
  predicate OccursAt(s: string, pat: string, i: nat)
    requires i <= |s|
  {
    pat <= s[i..]
  }

  /** Python's `s.replace(pat, "")`: occurrences are found left to right and do not overlap. */
  function RemoveAll(s: string, pat: string): (r: string)
    requires |pat| > 0
    ensures |r| <= |s|
    decreases |s|
  {
    if |s| < |pat| then s
    else if s[..|pat|] == pat then RemoveAll(s[|pat|..], pat)
    else [s[0]] + RemoveAll(s[1..], pat)
  }

  /** Splitting a piece that holds no separator, followed by more text. */
  lemma {:induction false} SplitPrefix(a: string, t: string, sep: char)
    requires sep !in a
    ensures Split(a + t, sep) == [a + Split(t, sep)[0]] + Split(t, sep)[1..]
    decreases |a|
  {
    if |a| > 0 {
      assert (a + t)[1..] == a[1..] + t;
      SplitPrefix(a[1..], t, sep);
      assert [a[0]] + (a[1..] + Split(t, sep)[0]) == a + Split(t, sep)[0];
    } else {
      assert a + t == t;
      assert a + Split(t, sep)[0] == Split(t, sep)[0];
      assert Split(t, sep) == [Split(t, sep)[0]] + Split(t, sep)[1..];
    }
  }

  /** A string splits into more than one piece exactly when it holds the separator. */
  lemma {:induction false} SplitCount(s: string, sep: char)
    ensures |Split(s, sep)| >= 2 <==> sep in s
    decreases |s|
  {
    if |s| > 0 {
      SplitCount(s[1..], sep);
      assert s == [s[0]] + s[1..];
      assert sep in s <==> s[0] == sep || sep in s[1..];
    }
  }

  /** Joining what was split gives back the string. */
  lemma {:induction false} JoinSplit(s: string, sep: char)
    ensures Join(Split(s, sep), sep) == s
    decreases |s|
  {
    if |s| > 0 {
      var rest := Split(s[1..], sep);
      JoinSplit(s[1..], sep);
      if s[0] == sep {
        assert Join([""] + rest, sep) == "" + [sep] + Join(rest, sep);
      } else if |rest| == 1 {
        assert Join(rest, sep) == rest[0];
      } else {
        var parts := [[s[0]] + rest[0]] + rest[1..];
        assert parts[1..] == rest[1..];
        assert Join(parts, sep) == [s[0]] + (rest[0] + [sep] + Join(rest[1..], sep));
      }
    }
  }

  /** Splitting what was joined gives back the pieces, when no piece holds the separator. */
  lemma {:induction false} SplitJoin(parts: seq<string>, sep: char)
    requires |parts| >= 1
    requires forall i :: 0 <= i < |parts| ==> sep !in parts[i]
    ensures Split(Join(parts, sep), sep) == parts
    decreases |parts|
  {
    if |parts| == 1 {
      SplitPrefix(parts[0], "", sep);
      assert parts[0] + "" == parts[0];
    } else {
      var tail := Join(parts[1..], sep);
      SplitJoin(parts[1..], sep);
      SplitPrefix(parts[0], [sep] + tail, sep);
      assert parts[0] + [sep] + tail == parts[0] + ([sep] + tail);
      assert Split([sep] + tail, sep) == [""] + parts[1..];
      assert parts[0] + "" == parts[0];
    }
  }

  /** Joining a prefix and the matching suffix of a list with the separator between them. */
  lemma {:induction false} JoinSplitAt(parts: seq<string>, k: nat, sep: char)
    requires 0 < k < |parts|
    ensures Join(parts[..k], sep) + [sep] + Join(parts[k..], sep) == Join(parts, sep)
    decreases k
  {
    if k > 1 {
      JoinSplitAt(parts[1..], k - 1, sep);
      assert parts[1..][..k - 1] == parts[..k][1..];
      assert parts[1..][k - 1..] == parts[k..];
    }
  }

  /** `Join(parts[k..])` is a suffix of `Join(parts)`. */
  lemma JoinSuffix(parts: seq<string>, k: nat, sep: char)
    requires k < |parts|
    ensures |Join(parts[k..], sep)| <= |Join(parts, sep)|
    ensures Join(parts[k..], sep) == Join(parts, sep)[|Join(parts, sep)| - |Join(parts[k..], sep)|..]
  {
    if k > 0 {
      JoinSplitAt(parts, k, sep);
    } else {
      assert parts[k..] == parts;
    }
  }

  /** A string in which the pattern never starts is left as it is. */
  lemma {:induction false} RemoveAllAbsent(s: string, pat: string)
    requires |pat| > 0
    requires forall i :: 0 <= i <= |s| ==> !OccursAt(s, pat, i)
    ensures RemoveAll(s, pat) == s
    decreases |s|
  {
    if |s| >= |pat| {
      assert !OccursAt(s, pat, 0);
      assert s[..|pat|] != pat;
      forall i | 0 <= i <= |s[1..]|
        ensures !OccursAt(s[1..], pat, i)
      {
        assert !OccursAt(s, pat, i + 1);
        assert s[1..][i..] == s[i + 1..];
      }
      RemoveAllAbsent(s[1..], pat);
    }
  }

  /**
   * The first occurrence of the pattern, wherever it is, is removed and the
   * search goes on after it: text before that occurrence is kept as it is.
   */
  lemma {:induction false} RemoveAllStep(a: string, pat: string, b: string)
    requires |pat| > 0
    requires forall i :: 0 <= i < |a| ==> !OccursAt(a + pat + b, pat, i)
    ensures RemoveAll(a + pat + b, pat) == a + RemoveAll(b, pat)
    decreases |a|
  {
    var s := a + pat + b;
    if |a| == 0 {
      assert s == pat + b && s[..|pat|] == pat;
      assert s[|pat|..] == b;
    } else {
      assert !OccursAt(s, pat, 0);
      assert s[..|pat|] != pat;
      assert s[1..] == a[1..] + pat + b;
      forall i | 0 <= i < |a[1..]|
        ensures !OccursAt(a[1..] + pat + b, pat, i)
      {
        assert !OccursAt(s, pat, i + 1);
        assert s[i + 1..] == (a[1..] + pat + b)[i..];
      }
      RemoveAllStep(a[1..], pat, b);
      assert [a[0]] + (a[1..] + RemoveAll(b, pat)) == a + RemoveAll(b, pat);
    }
  }

  /**
   * A text followed by the pattern, where the pattern starts nowhere inside the
   * text (nor across its end), loses exactly that last occurrence.
   */
  lemma RemoveAllSuffix(p: string, pat: string)
    requires |pat| > 0
    requires forall i :: 0 <= i < |p| ==> !OccursAt(p + pat, pat, i)
    ensures RemoveAll(p + pat, pat) == p
  {
    assert p + pat + "" == p + pat;
    RemoveAllStep(p, pat, "");
    assert p + "" == p;
  }

  /**
   * A pattern that starts with `c` cannot occur in `a + b` when `a` holds no
   * `c` and the pattern is longer than `b`.
   */
  lemma NoOccurrenceAfterFreePrefix(a: string, b: string, pat: string, c: char)
    requires |pat| > |b| && pat[0] == c && c !in a
    ensures forall i :: 0 <= i <= |a + b| ==> !OccursAt(a + b, pat, i)
  {
  }
}
