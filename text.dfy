/** The Python `str` operations the core relies on, over Dafny strings:
    `startswith`, `endswith`, `removeprefix`, `split`, `join`, `replace`,
    `strip`. Each is written to follow CPython's semantics for the arguments
    the core passes (a single-character separator, a non-empty pattern). */
module Text {

  predicate StartsWith(s: string, prefix: string) {
    prefix <= s
  }

  predicate EndsWith(s: string, suffix: string) {
    |suffix| <= |s| && s[|s| - |suffix|..] == suffix
  }

  /** `removeprefix` of render_dag.py: drop `prefix` when `s` starts with it. */
  function RemovePrefix(s: string, prefix: string): (r: string)
    ensures StartsWith(s, prefix) ==> prefix + r == s
    ensures !StartsWith(s, prefix) ==> r == s
    ensures EndsWith(s, r)
  {
    if StartsWith(s, prefix) then s[|prefix|..] else s
  }

  /** `s.split(sep)`: always at least one part, and no part holds `sep`. */
  function Split(s: string, sep: char): (parts: seq<string>)
    ensures |parts| >= 1
    ensures forall i :: 0 <= i < |parts| ==> sep !in parts[i]
    decreases |s|
  {
    if |s| == 0 then [""]
    else if s[0] == sep then [""] + Split(s[1..], sep)
    else
      var rest := Split(s[1..], sep);
      [[s[0]] + rest[0]] + rest[1..]
  }

  /** `sep.join(parts)` for a non-empty list of parts. */
  function Join(parts: seq<string>, sep: char): string
    requires |parts| >= 1
    decreases |parts|
  {
    if |parts| == 1 then parts[0] else parts[0] + [sep] + Join(parts[1..], sep)
  }

  /** Joining the parts of a split gives back the string. */
  lemma {:induction false} JoinSplit(s: string, sep: char)
    ensures Join(Split(s, sep), sep) == s
    decreases |s|
  {
    if |s| == 0 {
    } else if s[0] == sep {
      JoinSplit(s[1..], sep);
      assert Split(s, sep) == [""] + Split(s[1..], sep);
      assert ([""] + Split(s[1..], sep))[1..] == Split(s[1..], sep);
      assert s == [s[0]] + s[1..];
    } else {
      JoinSplit(s[1..], sep);
      var rest := Split(s[1..], sep);
      assert s == [s[0]] + s[1..];
      if |rest| == 1 {
        assert Split(s, sep) == [[s[0]] + rest[0]];
      } else {
        var parts := Split(s, sep);
        assert parts == [[s[0]] + rest[0]] + rest[1..];
        assert parts[1..] == rest[1..];
        assert Join(rest, sep) == rest[0] + [sep] + Join(rest[1..], sep);
      }
    }
  }

  /** Splitting `w + t`, where `w` holds no separator, glues `w` onto the first part of `t`. */
  lemma {:induction false} SplitGlue(w: string, t: string, sep: char)
    requires sep !in w
    ensures Split(w + t, sep) == [w + Split(t, sep)[0]] + Split(t, sep)[1..]
    decreases |w|
  {
    if |w| == 0 {
      assert w + t == t;
      assert w + Split(t, sep)[0] == Split(t, sep)[0];
      assert Split(t, sep) == [Split(t, sep)[0]] + Split(t, sep)[1..];
    } else {
      SplitGlue(w[1..], t, sep);
      assert (w + t)[0] == w[0];
      assert (w + t)[1..] == w[1..] + t;
      assert [w[0]] + (w[1..] + Split(t, sep)[0]) == w + Split(t, sep)[0];
    }
  }

  /** A string without the separator splits into itself. */
  lemma SplitNoSep(w: string, sep: char)
    requires sep !in w
    ensures Split(w, sep) == [w]
  {
    SplitGlue(w, "", sep);
    assert w + "" == w;
  }

  /** Splitting a join of separator-free parts gives back the parts. */
  lemma {:induction false} SplitJoin(parts: seq<string>, sep: char)
    requires |parts| >= 1
    requires forall i :: 0 <= i < |parts| ==> sep !in parts[i]
    ensures Split(Join(parts, sep), sep) == parts
    decreases |parts|
  {
    if |parts| == 1 {
      SplitNoSep(parts[0], sep);
    } else {
      var t := Join(parts[1..], sep);
      SplitJoin(parts[1..], sep);
      SplitGlue(parts[0], [sep] + t, sep);
      assert Split([sep] + t, sep) == [""] + Split(t, sep);
      assert parts[0] + [sep] + t == parts[0] + ([sep] + t);
      assert parts[0] + "" == parts[0];
      assert parts == [parts[0]] + parts[1..];
    }
  }

  /** Joining two non-empty lists of parts puts a separator between their joins. */
  lemma {:induction false} JoinAppend(xs: seq<string>, ys: seq<string>, sep: char)
    requires |xs| >= 1 && |ys| >= 1
    ensures Join(xs + ys, sep) == Join(xs, sep) + [sep] + Join(ys, sep)
    decreases |xs|
  {
    if |xs| > 1 {
      JoinAppend(xs[1..], ys, sep);
      assert (xs + ys)[1..] == xs[1..] + ys;
    } else {
      assert (xs + ys)[1..] == ys;
    }
  }

  /** Splitting at a separator between `a` and `b` splits each side apart. */
  lemma SplitAppend(a: string, b: string, sep: char)
    ensures Split(a + [sep] + b, sep) == Split(a, sep) + Split(b, sep)
  {
    var parts := Split(a, sep) + Split(b, sep);
    JoinSplit(a, sep);
    JoinSplit(b, sep);
    JoinAppend(Split(a, sep), Split(b, sep), sep);
    forall i | 0 <= i < |parts|
      ensures sep !in parts[i]
    {
      if i >= |Split(a, sep)| {
        assert parts[i] == Split(b, sep)[i - |Split(a, sep)|];
      }
    }
    SplitJoin(parts, sep);
  }

  /** A join opens with the first part and closes with the last. */
  lemma {:induction false} JoinEnds(parts: seq<string>, sep: char)
    requires |parts| >= 1
    ensures StartsWith(Join(parts, sep), parts[0]) && EndsWith(Join(parts, sep), parts[|parts| - 1])
    decreases |parts|
  {
    if |parts| > 1 {
      var tail := parts[1..];
      JoinEnds(tail, sep);
      assert tail[|tail| - 1] == parts[|parts| - 1];
      assert Join(parts, sep) == parts[0] + ([sep] + Join(tail, sep));
    }
  }

  /** Separator-free parts leave exactly one separator between each two. */
  lemma {:induction false} JoinSeparators(parts: seq<string>, sep: char)
    requires |parts| >= 1
    requires forall i :: 0 <= i < |parts| ==> sep !in parts[i]
    ensures multiset(Join(parts, sep))[sep] == |parts| - 1
    decreases |parts|
  {
    if |parts| > 1 {
      var tail := parts[1..];
      assert forall i :: 0 <= i < |tail| ==> sep !in tail[i] by {
        forall i | 0 <= i < |tail| ensures sep !in tail[i] {
          assert tail[i] == parts[i + 1];
        }
      }
      JoinSeparators(tail, sep);
      assert Join(parts, sep) == parts[0] + [sep] + Join(tail, sep);
      assert multiset(parts[0])[sep] == 0;
    }
  }

  /** The join of a tail of the parts is a suffix of the join of all of them. */
  lemma {:induction false} JoinTailIsSuffix(parts: seq<string>, k: nat, sep: char)
    requires k < |parts|
    ensures EndsWith(Join(parts, sep), Join(parts[k..], sep))
    decreases k
  {
    if k > 0 {
      JoinTailIsSuffix(parts[1..], k - 1, sep);
      assert parts[1..][k - 1..] == parts[k..];
      var whole := Join(parts, sep);
      var rest := Join(parts[1..], sep);
      var tail := Join(parts[k..], sep);
      assert whole == (parts[0] + [sep]) + rest;
      assert rest[|rest| - |tail|..] == tail;
      assert whole[|whole| - |tail|..] == rest[|rest| - |tail|..];
    } else {
      assert parts[0..] == parts;
    }
  }

  /** `pat` occurs in `s` starting at index `i`. */
  predicate OccursAt(pat: string, s: string, i: int) {
    0 <= i && i + |pat| <= |s| && s[i..i + |pat|] == pat
  }

  /** `pat` occurs somewhere in `s`. */
  ghost predicate Occurs(pat: string, s: string) {
    exists i :: OccursAt(pat, s, i)
  }

  /** `s.replace(pat, repl)`: every non-overlapping occurrence of a non-empty
      `pat`, scanning left to right, is replaced by `repl`. */
  function Replace(s: string, pat: string, repl: string): string
    requires |pat| > 0
    decreases |s|
  {
    if |s| == 0 then ""
    else if StartsWith(s, pat) then repl + Replace(s[|pat|..], pat, repl)
    else [s[0]] + Replace(s[1..], pat, repl)
  }

  /** Replacing a pattern by itself changes nothing. */
  lemma {:induction false} ReplaceSelf(s: string, pat: string)
    requires |pat| > 0
    ensures Replace(s, pat, pat) == s
    decreases |s|
  {
    if |s| > 0 {
      if StartsWith(s, pat) {
        ReplaceSelf(s[|pat|..], pat);
        assert s == pat + s[|pat|..];
      } else {
        ReplaceSelf(s[1..], pat);
        assert s == [s[0]] + s[1..];
      }
    }
  }

  /** A character in neither the pattern nor the replacement keeps its count. */
  lemma {:induction false} ReplaceKeepsCount(s: string, pat: string, repl: string, x: char)
    requires |pat| > 0 && x !in pat && x !in repl
    ensures multiset(Replace(s, pat, repl))[x] == multiset(s)[x]
    decreases |s|
  {
    if |s| > 0 {
      if StartsWith(s, pat) {
        var rest := s[|pat|..];
        ReplaceKeepsCount(rest, pat, repl, x);
        assert s == pat + rest;
        assert multiset(s)[x] == multiset(rest)[x];
        assert Replace(s, pat, repl) == repl + Replace(rest, pat, repl);
      } else {
        var rest := s[1..];
        ReplaceKeepsCount(rest, pat, repl, x);
        assert s == [s[0]] + rest;
        assert Replace(s, pat, repl) == [s[0]] + Replace(rest, pat, repl);
      }
    }
  }

  /** Replacing a pattern that does not occur changes nothing. */
  lemma {:induction false} ReplaceAbsent(s: string, pat: string, repl: string)
    requires |pat| > 0
    requires !Occurs(pat, s)
    ensures Replace(s, pat, repl) == s
    decreases |s|
  {
    if |s| > 0 {
      assert StartsWith(s, pat) ==> OccursAt(pat, s, 0);
      OccursInTail(pat, s);
      ReplaceAbsent(s[1..], pat, repl);
      assert s == [s[0]] + s[1..];
    }
  }

  /** An occurrence in the tail of `s` is an occurrence in `s`. */
  lemma OccursInTail(pat: string, s: string)
    requires |s| > 0
    ensures Occurs(pat, s[1..]) ==> Occurs(pat, s)
  {
    if Occurs(pat, s[1..]) {
      var i :| OccursAt(pat, s[1..], i);
      assert s[i + 1..i + 1 + |pat|] == s[1..][i..i + |pat|];
      assert OccursAt(pat, s, i + 1);
    }
  }

  /** A leading occurrence is replaced, and the scan resumes after it. */
  lemma ReplaceLeading(pat: string, rest: string, repl: string)
    requires |pat| > 0
    ensures Replace(pat + rest, pat, repl) == repl + Replace(rest, pat, repl)
  {
    assert StartsWith(pat + rest, pat);
    assert (pat + rest)[|pat|..] == rest;
  }

  /** `s` with every `c` deleted: the reference against which
      `s.replace(c, "")` is checked. */
  function Without(s: string, c: char): (r: string)
    ensures c !in r
    ensures |r| <= |s|
    ensures c !in s ==> r == s
    ensures forall x :: x != c ==> multiset(r)[x] == multiset(s)[x]
    decreases |s|
  {
    if |s| == 0 then ""
    else
      var rest := Without(s[1..], c);
      assert s == [s[0]] + s[1..];
      if s[0] == c then rest else [s[0]] + rest
  }

  lemma {:induction false} WithoutAppend(a: string, b: string, c: char)
    ensures Without(a + b, c) == Without(a, c) + Without(b, c)
    decreases |a|
  {
    if |a| == 0 {
      assert a + b == b;
    } else {
      var ab := a + b;
      WithoutAppend(a[1..], b, c);
      assert ab[0] == a[0];
      assert ab[1..] == a[1..] + b;
      var tail := Without(a[1..], c) + Without(b, c);
      if a[0] == c {
        assert Without(ab, c) == tail;
        assert Without(a, c) == Without(a[1..], c);
      } else {
        assert Without(ab, c) == [a[0]] + tail;
        assert Without(a, c) == [a[0]] + Without(a[1..], c);
      }
    }
  }

  /** `s.replace(c, "")` for a one-character pattern deletes exactly the `c`s. */
  lemma {:induction false} ReplaceCharByNothing(s: string, c: char)
    ensures Replace(s, [c], "") == Without(s, c)
    decreases |s|
  {
    if |s| > 0 {
      ReplaceCharByNothing(s[1..], c);
      assert StartsWith(s, [c]) <==> s[0] == c;
    }
  }

  /** `str.isspace` for one character: the characters CPython's `strip()` removes. */
  predicate IsSpace(ch: char) {
    ch == ' ' || ('\U{9}' <= ch <= '\U{D}') || ('\U{1C}' <= ch <= '\U{1F}')
    || ch == '\U{85}' || ch == '\U{A0}' || ch == '\U{1680}'
    || ('\U{2000}' <= ch <= '\U{200A}') || ch == '\U{2028}' || ch == '\U{2029}'
    || ch == '\U{202F}' || ch == '\U{205F}' || ch == '\U{3000}'
  }

  /** `s.lstrip()`: the suffix of `s` left once its leading whitespace is gone. */
  function LStrip(s: string): (r: string)
    ensures |r| <= |s| && r == s[|s| - |r|..]
    ensures forall k :: 0 <= k < |s| - |r| ==> IsSpace(s[k])
    ensures |r| > 0 ==> !IsSpace(r[0])
    decreases |s|
  {
    if |s| > 0 && IsSpace(s[0]) then LStrip(s[1..]) else s
  }

  /** `s.rstrip()`: the prefix of `s` left once its trailing whitespace is gone. */
  function RStrip(s: string): (r: string)
    ensures |r| <= |s| && r == s[..|r|]
    ensures forall k :: |r| <= k < |s| ==> IsSpace(s[k])
    ensures |r| > 0 ==> !IsSpace(r[|r| - 1])
    decreases |s|
  {
    if |s| > 0 && IsSpace(s[|s| - 1]) then RStrip(s[..|s| - 1]) else s
  }

  /** `r` stands in `s` starting at index `i`. */
  predicate SliceAt(s: string, i: int, r: string) {
    0 <= i <= |s| - |r| && s[i..i + |r|] == r
  }

  /** `s.strip()`: a slice of `s` with no whitespace at either end, all that
      was cut being whitespace; a string with none at either end is kept. */
  function Strip(s: string): (r: string)
    ensures exists i :: (SliceAt(s, i, r)
                         && (forall k :: 0 <= k < i ==> IsSpace(s[k]))
                         && (forall k :: i + |r| <= k < |s| ==> IsSpace(s[k])))
    ensures |r| > 0 ==> !IsSpace(r[0]) && !IsSpace(r[|r| - 1])
    ensures (|s| == 0 || (!IsSpace(s[0]) && !IsSpace(s[|s| - 1]))) ==> r == s
  {
    var l := LStrip(s);
    var r := RStrip(l);
    assert r == s[|s| - |l|..][..|r|] == s[|s| - |l|..|s| - |l| + |r|];
    assert SliceAt(s, |s| - |l|, r);
    r
  }

  /** Stripping twice is stripping once. */
  lemma StripIdempotent(s: string)
    ensures Strip(Strip(s)) == Strip(s)
  {
  }
}
