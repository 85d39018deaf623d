/** The Python string operations jbud relies on: `str.strip()`,
    `str.split(",")`, `str.split()` and `sep.join(...)`, over strings as
    sequences of Unicode code points. */
module Text {

  /** Python's `str.isspace()` for one character. */
  predicate IsSpace(c: char)
  {
    c == ' ' || ('\t' <= c <= '\r') || ('\U{1C}' <= c <= '\U{1F}')
    || c == '\U{85}' || c == '\U{A0}' || c == '\U{1680}'
    || ('\U{2000}' <= c <= '\U{200A}') || c == '\U{2028}' || c == '\U{2029}'
    || c == '\U{202F}' || c == '\U{205F}' || c == '\U{3000}'
  }

  predicate AllSpace(s: string)
  {
    forall i :: 0 <= i < |s| ==> IsSpace(s[i])
  }

  predicate NoSpace(s: string)
  {
    forall i :: 0 <= i < |s| ==> !IsSpace(s[i])
  }

  /** Neither end is whitespace: what `strip()` leaves behind. */
  predicate IsStripped(s: string)
  {
    s == [] || (!IsSpace(s[0]) && !IsSpace(s[|s| - 1]))
  }

  /** How many whitespace characters `s` starts with. */
  function LeadingSpaces(s: string): (k: nat)
    ensures k <= |s| && (k < |s| ==> !IsSpace(s[k]))
  {
    if s != [] && IsSpace(s[0]) then 1 + LeadingSpaces(s[1..]) else 0
  }

  lemma {:induction false} LeadingSpacesAreSpace(s: string)
    ensures AllSpace(s[..LeadingSpaces(s)])
  {
    if s != [] && IsSpace(s[0]) {
      LeadingSpacesAreSpace(s[1..]);
      assert s[..LeadingSpaces(s)] == [s[0]] + s[1..][..LeadingSpaces(s[1..])];
    }
  }

  /** Where the whitespace that `s` ends with begins. */
  function TrailingStart(s: string): (k: nat)
    ensures k <= |s| && (k > 0 ==> !IsSpace(s[k - 1]))
  {
    if s != [] && IsSpace(s[|s| - 1]) then TrailingStart(s[..|s| - 1]) else |s|
  }

  lemma {:induction false} TrailingAreSpace(s: string)
    ensures AllSpace(s[TrailingStart(s)..])
  {
    if s != [] && IsSpace(s[|s| - 1]) {
      var k := TrailingStart(s);
      TrailingAreSpace(s[..|s| - 1]);
      assert s[k..] == s[..|s| - 1][k..] + [s[|s| - 1]];
    }
  }

  /** `s.strip()`: empty exactly when `s` is all whitespace, otherwise
      starting and ending with a character that is not whitespace. */
  function Strip(s: string): (r: string)
    ensures IsStripped(r)
    ensures r == [] <==> AllSpace(s)
  {
    StripSpan(s);
    var t := s[LeadingSpaces(s)..];
    t[..TrailingStart(t)]
  }

  lemma StripSpan(s: string)
    ensures var i := LeadingSpaces(s); var t := s[i..]; var r := t[..TrailingStart(t)];
      s[i..i + |r|] == r && AllSpace(s[..i]) && AllSpace(s[i + |r|..]) && IsStripped(r)
      && (r == [] <==> AllSpace(s))
  {
    var i := LeadingSpaces(s);
    var t := s[i..];
    var r := t[..TrailingStart(t)];
    StripSpanLayout(s);
    if r == [] {
      StripBlank(s);
    } else {
      assert r[0] == s[i];
      assert !AllSpace(s);
    }
  }

  /** Leading whitespace, the kept middle, trailing whitespace. */
  lemma StripSpanLayout(s: string)
    ensures var i := LeadingSpaces(s); var t := s[i..]; var r := t[..TrailingStart(t)];
      s[i..i + |r|] == r && AllSpace(s[..i]) && AllSpace(s[i + |r|..])
  {
    var i := LeadingSpaces(s);
    var t := s[i..];
    LeadingSpacesAreSpace(s);
    TrailingAreSpace(t);
    SpanLayout(s, i, TrailingStart(t));
  }

  lemma SpanLayout(s: string, i: nat, j: nat)
    requires i + j <= |s| && AllSpace(s[i..][j..])
    ensures s[i..][..j] == s[i..i + j] && AllSpace(s[i + j..])
  {
    assert s[i + j..] == s[i..][j..];
  }

  /** Nothing kept means nothing but whitespace. */
  lemma StripBlank(s: string)
    requires var t := s[LeadingSpaces(s)..]; TrailingStart(t) == 0
    ensures AllSpace(s)
  {
    var i := LeadingSpaces(s);
    var t := s[i..];
    LeadingSpacesAreSpace(s);
    TrailingAreSpace(t);
    AllSpaceJoin(s, i);
  }

  lemma AllSpaceJoin(s: string, i: nat)
    requires i <= |s| && AllSpace(s[..i]) && AllSpace(s[i..][0..])
    ensures AllSpace(s)
  {
    forall k | 0 <= k < |s| ensures IsSpace(s[k]) {
      if k < i {
        assert s[..i][k] == s[k];
      } else {
        assert s[i..][0..][k - i] == s[k];
      }
    }
  }

  /** `strip()` adds no character. */
  lemma StripKeepsOut(s: string, c: char)
    requires c !in s
    ensures c !in Strip(s)
  {
    var i := LeadingSpaces(s);
    var t := s[i..];
    assert Strip(s) == s[i..i + |Strip(s)|] by { StripSpan(s); }
  }

  /** What `strip()` removes is whitespace at either end, and nothing else. */
  lemma StripIsInfix(s: string)
    ensures exists i :: 0 <= i <= |s| - |Strip(s)| && s[i..i + |Strip(s)|] == Strip(s)
                        && AllSpace(s[..i]) && AllSpace(s[i + |Strip(s)|..])
  {
    StripSpan(s);
    var i := LeadingSpaces(s);
    assert s[i..i + |Strip(s)|] == Strip(s);
  }

  /** Whitespace around a stripped, non-empty string is removed by `strip()`. */
  lemma {:induction false} StripPadded(pad: string, t: string)
    requires AllSpace(pad) && t != [] && IsStripped(t)
    ensures Strip(pad + t) == t
  {
    LeadingPadded(pad, t);
    assert (pad + t)[|pad|..] == t;
  }

  lemma {:induction false} LeadingPadded(pad: string, t: string)
    requires AllSpace(pad) && (t == [] || !IsSpace(t[0]))
    ensures LeadingSpaces(pad + t) == |pad|
  {
    if pad == [] {
      assert pad + t == t;
    } else {
      assert (pad + t)[1..] == pad[1..] + t;
      LeadingPadded(pad[1..], t);
    }
  }

  /** `s.split(sep)` with an explicit separator: never empty, and the
      pieces hold no separator. */
  function SplitOn(s: string, sep: char): (r: seq<string>)
    ensures |r| >= 1
    ensures forall i :: 0 <= i < |r| ==> sep !in r[i]
  {
    if s == [] then [[]]
    else
      var rest := SplitOn(s[1..], sep);
      if s[0] == sep then [[]] + rest else [[s[0]] + rest[0]] + rest[1..]
  }

  /** `sep.join(xs)`. */
  function Join(xs: seq<string>, sep: string): string
  {
    if xs == [] then []
    else if |xs| == 1 then xs[0]
    else xs[0] + sep + Join(xs[1..], sep)
  }

  /** Splitting and joining with the same separator gives back the string. */
  lemma {:induction false} JoinSplitOn(s: string, sep: char)
    ensures Join(SplitOn(s, sep), [sep]) == s
  {
    if s != [] {
      var rest := SplitOn(s[1..], sep);
      JoinSplitOn(s[1..], sep);
      if s[0] == sep {
        assert SplitOn(s, sep) == [[]] + rest;
        assert s == [] + [sep] + Join(rest, [sep]);
      } else {
        var ps := [[s[0]] + rest[0]] + rest[1..];
        assert SplitOn(s, sep) == ps;
        if |rest| == 1 {
          assert Join(ps, [sep]) == [s[0]] + rest[0];
        } else {
          assert ps[1..] == rest[1..];
          assert Join(rest, [sep]) == rest[0] + [sep] + Join(rest[1..], [sep]);
          assert Join(ps, [sep]) == [s[0]] + rest[0] + [sep] + Join(rest[1..], [sep]);
        }
      }
    }
  }

  /** Splitting at a separator splits the pieces the same way: the pieces
      of the left part come first, in order, then those of the right. */
  lemma {:induction false} SplitOnAt(a: string, b: string, sep: char)
    ensures SplitOn(a + [sep] + b, sep) == SplitOn(a, sep) + SplitOn(b, sep)
  {
    var s := a + [sep] + b;
    if a == [] {
      assert s[1..] == b;
    } else {
      assert s[0] == a[0] && s[1..] == a[1..] + [sep] + b;
      SplitOnAt(a[1..], b, sep);
    }
  }

  /** A string without the separator is one piece. */
  lemma {:induction false} SplitOnNone(s: string, sep: char)
    requires sep !in s
    ensures SplitOn(s, sep) == [s]
  {
    if s != [] {
      SplitOnNone(s[1..], sep);
      assert s == [s[0]] + s[1..];
    }
  }

  /** Length of the run of non-whitespace characters that starts `s`. */
  function WordLength(s: string): (k: nat)
    ensures k <= |s| && NoSpace(s[..k]) && (k == |s| || IsSpace(s[k]))
  {
    if s == [] || IsSpace(s[0]) then 0 else 1 + WordLength(s[1..])
  }

  /** `s.split()` with no argument: the maximal runs of non-whitespace. */
  function Words(s: string): (r: seq<string>)
    ensures forall i :: 0 <= i < |r| ==> r[i] != [] && NoSpace(r[i])
  {
    if s == [] then []
    else if IsSpace(s[0]) then Words(s[1..])
    else
      var k := WordLength(s);
      [s[..k]] + Words(s[k..])
  }

  /** The characters of `s` that are not whitespace, in order. */
  function RemoveSpaces(s: string): string
  {
    if s == [] then []
    else (if IsSpace(s[0]) then [] else [s[0]]) + RemoveSpaces(s[1..])
  }

  function Concat(xs: seq<string>): string
  {
    if xs == [] then [] else xs[0] + Concat(xs[1..])
  }

  lemma {:induction false} RemoveSpacesAppend(a: string, b: string)
    ensures RemoveSpaces(a + b) == RemoveSpaces(a) + RemoveSpaces(b)
  {
    if a != [] {
      assert (a + b)[0] == a[0] && (a + b)[1..] == a[1..] + b;
      RemoveSpacesAppend(a[1..], b);
    } else {
      assert a + b == b;
    }
  }

  lemma {:induction false} RemoveSpacesOfSpace(s: string)
    requires AllSpace(s)
    ensures RemoveSpaces(s) == []
  {
    if s != [] { RemoveSpacesOfSpace(s[1..]); }
  }

  lemma {:induction false} RemoveSpacesOfWord(s: string)
    requires NoSpace(s)
    ensures RemoveSpaces(s) == s
  {
    if s != [] { RemoveSpacesOfWord(s[1..]); }
  }

  /** The words of `s`, put back together, are exactly its non-whitespace
      characters: `split()` loses only whitespace. */
  lemma {:induction false} WordsKeepText(s: string)
    ensures Concat(Words(s)) == RemoveSpaces(s)
    decreases |s|
  {
    if s != [] && IsSpace(s[0]) {
      WordsKeepText(s[1..]);
    } else if s != [] {
      var k := WordLength(s);
      assert s == s[..k] + s[k..];
      RemoveSpacesAppend(s[..k], s[k..]);
      RemoveSpacesOfWord(s[..k]);
      WordsKeepText(s[k..]);
    }
  }

  /** `s.split()` is empty exactly when `s.strip()` is. */
  lemma {:induction false} WordsEmptyIffBlank(s: string)
    ensures Words(s) == [] <==> Strip(s) == []
  {
    if s != [] && IsSpace(s[0]) {
      WordsEmptyIffBlank(s[1..]);
      assert AllSpace(s[1..]) ==> AllSpace(s);
    }
  }

  /** Position `i` begins a run of non-whitespace: it is not whitespace and
      either starts the string or follows whitespace. */
  predicate IsRunStart(s: string, i: nat)
    requires i < |s|
  {
    !IsSpace(s[i]) && (i == 0 || IsSpace(s[i - 1]))
  }

  /** How many runs begin at position `i` or later. */
  function RunStartsFrom(s: string, i: nat): nat
    requires i <= |s|
    decreases |s| - i
  {
    if i == |s| then 0 else (if IsRunStart(s, i) then 1 else 0) + RunStartsFrom(s, i + 1)
  }

  /** The number of maximal runs of non-whitespace in `s`. */
  function RunStarts(s: string): nat
  {
    RunStartsFrom(s, 0)
  }

  /** Counting from a position onwards in `s` is counting in the suffix
      that starts at `i`, as long as the boundary at `i` is read the same. */
  lemma {:induction false} RunStartsInSuffix(s: string, i: nat, j: nat)
    requires i <= j <= |s|
    requires j > i || i == 0 || IsSpace(s[i - 1])
    ensures RunStartsFrom(s, j) == RunStartsFrom(s[i..], j - i)
    decreases |s| - j
  {
    if j < |s| {
      assert s[i..][j - i] == s[j];
      if j > i {
        assert s[i..][j - i - 1] == s[j - 1];
      }
      assert IsRunStart(s, j) == IsRunStart(s[i..], j - i);
      RunStartsInSuffix(s, i, j + 1);
    }
  }

  /** Inside a word no run begins. */
  lemma {:induction false} NoRunStartInWord(s: string, j: nat, k: nat)
    requires 1 <= j <= k <= |s| && NoSpace(s[..k])
    ensures RunStartsFrom(s, j) == RunStartsFrom(s, k)
    decreases k - j
  {
    if j < k {
      assert s[..k][j - 1] == s[j - 1];
      NoRunStartInWord(s, j + 1, k);
    }
  }

  /** `len(s.split())` is the number of maximal runs of non-whitespace. */
  lemma {:induction false} WordsCountRuns(s: string)
    ensures |Words(s)| == RunStarts(s)
    decreases |s|
  {
    if s != [] && IsSpace(s[0]) {
      RunStartsInSuffix(s, 1, 1);
      WordsCountRuns(s[1..]);
    } else if s != [] {
      var k := WordLength(s);
      NoRunStartInWord(s, 1, k);
      if k < |s| {
        assert s[k..][1..] == s[k + 1..];
        assert Words(s[k..]) == Words(s[k + 1..]);
        RunStartsInSuffix(s, k + 1, k + 1);
        WordsCountRuns(s[k + 1..]);
      }
    }
  }
}
