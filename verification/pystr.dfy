/** The Python `str` operations the extractor and its upload handlers rely on:
    `strip()`, `sep.join(parts)`, `split(sep)`, `endswith(suffix)`,
    `count(pat)` and `replace(pat, repl)`. Strings are sequences of code points. */
module PyStr {

  /** Python's `str.isspace()` table, the set of characters `str.strip()`
      removes when called without an argument. */
  predicate IsSpace(c: char)
  {
    || ('\t' <= c <= '\r')
    || ('\U{1C}' <= c <= '\U{1F}')
    || c == ' '
    || c == '\U{85}'
    || c == '\U{A0}'
    || c == '\U{1680}'
    || ('\U{2000}' <= c <= '\U{200A}')
    || c == '\U{2028}'
    || c == '\U{2029}'
    || c == '\U{202F}'
    || c == '\U{205F}'
    || c == '\U{3000}'
  }

  predicate AllSpace(s: string)
  {
    forall i :: 0 <= i < |s| ==> IsSpace(s[i])
  }

  /** Neither the first nor the last character is whitespace. */
  predicate Unpadded(s: string)
  {
    s == [] || (!IsSpace(s[0]) && !IsSpace(s[|s| - 1]))
  }

  /** `r` sits at offset `i` of `s` with only whitespace around it. */
  predicate PaddedAt(s: string, i: int, r: string)
  {
    && 0 <= i && i + |r| <= |s|
    && s[i..i + |r|] == r
    && AllSpace(s[..i])
    && AllSpace(s[i + |r|..])
  }

  /** The end of the whitespace run that starts at `i`. */
  function SpanLeft(s: string, i: nat): (j: nat)
    requires i <= |s|
    ensures i <= j <= |s|
    ensures forall k :: i <= k < j ==> IsSpace(s[k])
    ensures j == |s| || !IsSpace(s[j])
    decreases |s| - i
  {
    if i < |s| && IsSpace(s[i]) then SpanLeft(s, i + 1) else i
  }

  /** The start of the whitespace run that ends at `j`, looking no further
      left than `lo`. */
  function SpanRight(s: string, lo: nat, j: nat): (k: nat)
    requires lo <= j <= |s|
    ensures lo <= k <= j
    ensures forall t :: k <= t < j ==> IsSpace(s[t])
    ensures k == lo || !IsSpace(s[k - 1])
    decreases j
  {
    if j > lo && IsSpace(s[j - 1]) then SpanRight(s, lo, j - 1) else j
  }

  /** `str.strip()`: the part of `s` between its leading and trailing whitespace. */
  function Strip(s: string): (r: string)
    ensures Unpadded(r)
    ensures exists i :: PaddedAt(s, i, r)
    ensures r == [] <==> AllSpace(s)
  {
    var a := SpanLeft(s, 0);
    var b := SpanRight(s, a, |s|);
    StripPadded(s, a, b);
    assert a < b || a == |s|;
    s[a..b]
  }

  lemma StripPadded(s: string, a: nat, b: nat)
    requires a <= b <= |s|
    requires forall k :: 0 <= k < a ==> IsSpace(s[k])
    requires forall k :: b <= k < |s| ==> IsSpace(s[k])
    ensures PaddedAt(s, a, s[a..b])
  {
    assert a + |s[a..b]| == b;
    forall k | 0 <= k < a
      ensures IsSpace(s[..a][k])
    {
      assert s[..a][k] == s[k];
    }
    forall k | 0 <= k < |s| - b
      ensures IsSpace(s[b..][k])
    {
      assert s[b..][k] == s[b + k];
    }
  }

  /** A scan from `i` stops exactly at the first non-space position. */
  lemma {:induction false} SpanLeftAt(s: string, i: nat, j: nat)
    requires i <= j <= |s|
    requires forall k :: i <= k < j ==> IsSpace(s[k])
    requires j == |s| || !IsSpace(s[j])
    ensures SpanLeft(s, i) == j
    decreases j - i
  {
    if i < j {
      SpanLeftAt(s, i + 1, j);
    }
  }

  lemma {:induction false} SpanRightAt(s: string, lo: nat, k: nat, j: nat)
    requires lo <= k <= j <= |s|
    requires forall t :: k <= t < j ==> IsSpace(s[t])
    requires k == lo || !IsSpace(s[k - 1])
    ensures SpanRight(s, lo, j) == k
    decreases j - k
  {
    if k < j {
      SpanRightAt(s, lo, k, j - 1);
    }
  }

  lemma StripUnique(a: string, m: string, b: string)
    requires AllSpace(a) && AllSpace(b) && Unpadded(m)
    ensures Strip(a + m + b) == m
  {
    if m == [] {
      assert a + m + b == a + b;
      AllSpaceConcat(a, b);
    } else {
      var s := a + m + b;
      assert s[..|a|] == a;
      assert s[|a|..|a| + |m|] == m;
      assert s[|a| + |m|..] == b;
      StripAt(s, |a|, m);
    }
  }

  /** An unpadded, non-empty `m` with only whitespace around it is what
      `strip()` returns. */
  lemma StripAt(s: string, i: nat, m: string)
    requires PaddedAt(s, i, m) && Unpadded(m) && m != []
    ensures Strip(s) == m
  {
    forall k | 0 <= k < i
      ensures IsSpace(s[k])
    {
      assert s[k] == s[..i][k];
    }
    forall k | i + |m| <= k < |s|
      ensures IsSpace(s[k])
    {
      assert s[k] == s[i + |m|..][k - i - |m|];
    }
    assert s[i] == s[i..i + |m|][0];
    assert s[i + |m| - 1] == s[i..i + |m|][|m| - 1];
    SpanLeftAt(s, 0, i);
    SpanRightAt(s, i, i + |m|, |s|);
  }

  /** Stripping twice is stripping once. */
  lemma StripIdempotent(s: string)
    ensures Strip(Strip(s)) == Strip(s)
  {
    var m := Strip(s);
    assert [] + m + [] == m;
    StripUnique([], m, []);
  }

  lemma AllSpaceConcat(a: string, b: string)
    ensures AllSpace(a + b) <==> AllSpace(a) && AllSpace(b)
  {
    if AllSpace(a) && AllSpace(b) {
      forall i | 0 <= i < |a + b|
        ensures IsSpace((a + b)[i])
      {
        if i >= |a| {
          assert (a + b)[i] == b[i - |a|];
        }
      }
    }
    if AllSpace(a + b) {
      forall i | 0 <= i < |a|
        ensures IsSpace(a[i])
      {
        assert (a + b)[i] == a[i];
      }
      forall i | 0 <= i < |b|
        ensures IsSpace(b[i])
      {
        assert (a + b)[|a| + i] == b[i];
      }
    }
  }

  /** `sep.join(parts)`. */
  function Join(parts: seq<string>, sep: string): string
    decreases |parts|
  {
    if |parts| == 0 then ""
    else if |parts| == 1 then parts[0]
    else parts[0] + sep + Join(parts[1..], sep)
  }

  /** `s.split(sep)` for a one-character separator: the maximal runs between
      separators, so never an empty list and never a piece holding `sep`. */
  function Split(s: string, sep: char): (r: seq<string>)
    ensures |r| >= 1
    ensures forall i :: 0 <= i < |r| ==> sep !in r[i]
    decreases |s|
  {
    if s == [] then [""]
    else
      var rest := Split(s[1..], sep);
      if s[0] == sep then [""] + rest else [[s[0]] + rest[0]] + rest[1..]
  }

  /** Joining the pieces of a split restores the string. */
  lemma {:induction false} JoinSplit(s: string, sep: char)
    ensures Join(Split(s, sep), [sep]) == s
    decreases |s|
  {
    if s != [] {
      var rest := Split(s[1..], sep);
      JoinSplit(s[1..], sep);
      if s[0] == sep {
        assert Split(s, sep)[1..] == rest;
      } else {
        var r := Split(s, sep);
        if |rest| == 1 {
          assert r == [[s[0]] + rest[0]];
        } else {
          assert r[1..] == rest[1..];
          assert Join(rest, [sep]) == rest[0] + [sep] + Join(rest[1..], [sep]);
        }
      }
    }
  }

  /** Splitting text that carries a separator only at the start of `tail`. */
  lemma {:induction false} SplitPiece(a: string, sep: char, tail: string)
    requires sep !in a
    requires tail == [] || tail[0] == sep
    ensures tail == [] ==> Split(a, sep) == [a]
    ensures tail != [] ==> Split(a + tail, sep) == [a] + Split(tail[1..], sep)
    decreases |a|
  {
    if a == [] {
      assert a + tail == tail;
    } else {
      assert (a + tail)[0] == a[0];
      assert (a + tail)[1..] == a[1..] + tail;
      SplitPiece(a[1..], sep, tail);
      assert [a[0]] + a[1..] == a;
    }
  }

  /** Splitting a join restores the parts, provided no part holds the separator
      (Python's `"".split(sep)` is `[""]`, so at least one part is needed). */
  lemma {:induction false} SplitJoin(parts: seq<string>, sep: char)
    requires |parts| >= 1
    requires forall i :: 0 <= i < |parts| ==> sep !in parts[i]
    ensures Split(Join(parts, [sep]), sep) == parts
    decreases |parts|
  {
    if |parts| == 1 {
      SplitPiece(parts[0], sep, []);
    } else {
      var tail := [sep] + Join(parts[1..], [sep]);
      assert Join(parts, [sep]) == parts[0] + tail;
      SplitPiece(parts[0], sep, tail);
      assert tail[1..] == Join(parts[1..], [sep]);
      SplitJoin(parts[1..], sep);
      assert parts == [parts[0]] + parts[1..];
    }
  }

  /** A join with a whitespace separator is blank exactly when every part is. */
  lemma {:induction false} JoinAllSpace(parts: seq<string>, sep: string)
    requires AllSpace(sep)
    ensures AllSpace(Join(parts, sep)) <==> forall i :: 0 <= i < |parts| ==> AllSpace(parts[i])
    decreases |parts|
  {
    if |parts| > 1 {
      JoinAllSpace(parts[1..], sep);
      AllSpaceConcat(parts[0], sep);
      AllSpaceConcat(parts[0] + sep, Join(parts[1..], sep));
      if forall i :: 0 <= i < |parts[1..]| ==> AllSpace(parts[1..][i]) {
        forall i | 1 <= i < |parts|
          ensures AllSpace(parts[i])
        {
          assert parts[i] == parts[1..][i - 1];
        }
      }
    }
  }

  /** An empty-separator join is empty exactly when every part is. */
  lemma {:induction false} JoinEmpty(parts: seq<string>)
    ensures Join(parts, "") == "" <==> forall i :: 0 <= i < |parts| ==> parts[i] == ""
    decreases |parts|
  {
    if |parts| > 1 {
      JoinEmpty(parts[1..]);
      assert forall i :: 1 <= i < |parts| ==> parts[i] == parts[1..][i - 1];
    }
  }

  /** Gluing unpadded, non-empty pieces gives an unpadded string. */
  lemma {:induction false} JoinUnpadded(parts: seq<string>)
    requires forall i :: 0 <= i < |parts| ==> parts[i] != "" && Unpadded(parts[i])
    ensures Unpadded(Join(parts, ""))
    decreases |parts|
  {
    if |parts| > 1 {
      JoinUnpadded(parts[1..]);
      var rest := Join(parts[1..], "");
      assert Join(parts, "") == parts[0] + rest;
      JoinEmpty(parts[1..]);
      assert parts[1..][0] != "";
      assert rest != "";
    }
  }

  /** `p` occurs in `s` starting at index `i`. */
  predicate InfixAt(p: string, s: string, i: int)
  {
    0 <= i <= |s| - |p| && s[i..i + |p|] == p
  }

  /** Python's `p in s` for strings. */
  ghost predicate IsInfix(p: string, s: string)
  {
    exists i :: InfixAt(p, s, i)
  }

  lemma InfixAt0(p: string)
    ensures IsInfix(p, p)
  {
    assert InfixAt(p, p, 0);
  }

  lemma InfixExtend(p: string, a: string, m: string, b: string)
    requires IsInfix(p, m)
    ensures IsInfix(p, a + m + b)
  {
    var i :| InfixAt(p, m, i);
    assert (a + m + b)[|a| + i..|a| + i + |p|] == m[i..i + |p|];
    assert InfixAt(p, a + m + b, |a| + i);
  }

  lemma InfixTrans(p: string, m: string, s: string)
    requires IsInfix(p, m) && IsInfix(m, s)
    ensures IsInfix(p, s)
  {
    var i :| InfixAt(p, m, i);
    var j :| InfixAt(m, s, j);
    forall x | 0 <= x < |p|
      ensures s[j + i + x] == p[x]
    {
      assert p[x] == m[i..i + |p|][x] == m[i + x];
      assert m[i + x] == s[j..j + |m|][i + x] == s[j + i + x];
    }
    assert s[j + i..j + i + |p|] == p;
    assert InfixAt(p, s, j + i);
  }

  /** Every part of a join occurs in the joined string. */
  lemma {:induction false} JoinHasPart(parts: seq<string>, sep: string, k: int)
    requires 0 <= k < |parts|
    ensures IsInfix(parts[k], Join(parts, sep))
    decreases |parts|
  {
    if |parts| == 1 {
      assert InfixAt(parts[k], parts[k], 0);
    } else if k == 0 {
      assert InfixAt(parts[0], Join(parts, sep), 0);
    } else {
      JoinHasPart(parts[1..], sep, k - 1);
      InfixExtend(parts[k], parts[0] + sep, Join(parts[1..], sep), "");
      assert parts[0] + sep + Join(parts[1..], sep) + "" == Join(parts, sep);
    }
  }

  /** `s.endswith(suffix)`. */
  predicate EndsWith(s: string, suffix: string)
  {
    |suffix| <= |s| && s[|s| - |suffix|..] == suffix
  }

  /** `s.count(pat)`: non-overlapping occurrences found scanning left to right. */
  function Count(s: string, pat: string): nat
    requires |pat| > 0
    decreases |s|
  {
    if |s| < |pat| then 0
    else if s[..|pat|] == pat then 1 + Count(s[|pat|..], pat)
    else Count(s[1..], pat)
  }

  /** `s.replace(pat, repl)`: every occurrence `count` finds is replaced, so the
      length changes by `|repl| - |pat|` per occurrence, and a string without
      occurrences is returned unchanged. */
  function Replace(s: string, pat: string, repl: string): (r: string)
    requires |pat| > 0
    ensures |r| == |s| + Count(s, pat) * (|repl| - |pat|)
    ensures Count(s, pat) == 0 ==> r == s
    decreases |s|
  {
    if |s| < |pat| then s
    else if s[..|pat|] == pat then
      var rest := Replace(s[|pat|..], pat, repl);
      assert (1 + Count(s[|pat|..], pat)) * (|repl| - |pat|)
          == Count(s[|pat|..], pat) * (|repl| - |pat|) + (|repl| - |pat|);
      repl + rest
    else [s[0]] + Replace(s[1..], pat, repl)
  }

  /** `replace` rewrites the first occurrence and carries on after it:
      everything before stays, the occurrence becomes `repl`, and the rest is
      replaced in turn. */
  lemma ReplaceAtFirst(s: string, pat: string, repl: string, i: int)
    requires |pat| > 0 && InfixAt(pat, s, i)
    requires forall j :: 0 <= j < i ==> !InfixAt(pat, s, j)
    ensures Replace(s, pat, repl) == s[..i] + repl + Replace(s[i + |pat|..], pat, repl)
  {
    FirstReplaced(s, pat, repl, i);
  }

  /** `Replace(s, pat, repl)` splits at an occurrence at `i`. */
  ghost predicate SplitsAt(s: string, pat: string, repl: string, i: int)
    requires |pat| > 0 && 0 <= i && i + |pat| <= |s|
  {
    Replace(s, pat, repl) == s[..i] + repl + Replace(s[i + |pat|..], pat, repl)
  }

  lemma {:induction false} FirstReplaced(s: string, pat: string, repl: string, i: int)
    requires |pat| > 0 && InfixAt(pat, s, i)
    requires forall j :: 0 <= j < i ==> !InfixAt(pat, s, j)
    ensures SplitsAt(s, pat, repl, i)
    decreases i
  {
    if i == 0 {
      ReplaceAtStart(s, pat, repl, i);
    } else {
      var t := s[1..];
      FirstShift(s, pat, i);
      FirstReplaced(t, pat, repl, i - 1);
      ReplaceAfterSkip(s, t, pat, repl, i);
    }
  }

  /** One step of `FirstReplaced`: the first character is kept, and the
      split of the rest of the string carries over. */
  lemma ReplaceAfterSkip(s: string, t: string, pat: string, repl: string, i: int)
    requires |pat| > 0 && 0 < i && i + |pat| <= |s| && !InfixAt(pat, s, 0) && t == s[1..]
    requires SplitsAt(t, pat, repl, i - 1)
    ensures SplitsAt(s, pat, repl, i)
  {
    ReplaceSkip(s, pat, repl);
    assert t[i - 1 + |pat|..] == s[i + |pat|..];
    SliceShift(s, i, Replace(s[i + |pat|..], pat, repl), repl, Replace(t, pat, repl), Replace(s, pat, repl));
  }

  /** An occurrence at the very start becomes `repl`. */
  lemma ReplaceAtStart(s: string, pat: string, repl: string, i: int)
    requires |pat| > 0 && i == 0 && InfixAt(pat, s, i)
    ensures SplitsAt(s, pat, repl, i)
  {
    assert s[..|pat|] == s[0..|pat|] == pat;
    assert s[i + |pat|..] == s[|pat|..];
    assert s[..i] + repl == repl;
  }

  /** Where no occurrence starts, the first character is kept as is. */
  lemma ReplaceSkip(s: string, pat: string, repl: string)
    requires |pat| > 0 && |s| >= |pat| && !InfixAt(pat, s, 0)
    ensures Replace(s, pat, repl) == [s[0]] + Replace(s[1..], pat, repl)
  {
    assert s[..|pat|] != pat;
  }

  /** Putting the first character back in front of the rest's answer. */
  lemma SliceShift(s: string, i: int, rest: string, m: string, tail: string, whole: string)
    requires 0 < i <= |s|
    requires tail == s[1..][..i - 1] + m + rest
    requires whole == [s[0]] + tail
    ensures whole == s[..i] + m + rest
  {
    assert s[1..][..i - 1] == s[1..i];
    assert [s[0]] + s[1..i] == s[..i];
  }

  /** Dropping the first character moves every occurrence one place left. */
  lemma FirstShift(s: string, pat: string, i: int)
    requires |pat| > 0 && 0 < i && InfixAt(pat, s, i)
    requires forall j :: 0 <= j < i ==> !InfixAt(pat, s, j)
    ensures InfixAt(pat, s[1..], i - 1)
    ensures forall j :: 0 <= j < i - 1 ==> !InfixAt(pat, s[1..], j)
  {
    var t := s[1..];
    assert t[i - 1..i - 1 + |pat|] == s[i..i + |pat|];
    forall j | 0 <= j < i - 1
      ensures !InfixAt(pat, t, j)
    {
      assert !InfixAt(pat, s, j + 1);
      assert t[j..j + |pat|] == s[j + 1..j + 1 + |pat|];
    }
  }

  /** A string without an occurrence comes back unchanged. */
  lemma ReplaceNone(s: string, pat: string, repl: string)
    requires |pat| > 0 && !IsInfix(pat, s)
    ensures Replace(s, pat, repl) == s
  {
    CountPositive(s, pat);
  }

  /** The left-to-right scan finds at least one occurrence exactly when the
      pattern occurs somewhere. */
  lemma {:induction false} CountPositive(s: string, pat: string)
    requires |pat| > 0
    ensures Count(s, pat) > 0 <==> IsInfix(pat, s)
    decreases |s|
  {
    if |s| < |pat| {
      assert forall i :: !InfixAt(pat, s, i);
    } else if s[..|pat|] == pat {
      assert InfixAt(pat, s, 0);
    } else {
      CountPositive(s[1..], pat);
      InfixTail(pat, s);
      if IsInfix(pat, s) {
        var i :| InfixAt(pat, s, i);
        if i == 0 {
          assert false;
        }
        assert s[1..][i - 1..i - 1 + |pat|] == s[i..i + |pat|];
        assert InfixAt(pat, s[1..], i - 1);
      }
    }
  }

  /** No proper non-empty prefix of `pat` is also a suffix of it, so two
      occurrences can never overlap. */
  ghost predicate BorderFree(pat: string)
  {
    forall k :: 0 < k < |pat| ==> pat[k..] != pat[..|pat| - k]
  }

  /** A border-free pattern cannot start inside a string shorter than itself
      and end inside a copy of itself placed right after. */
  lemma NoStraddle(base: string, pat: string)
    requires BorderFree(pat)
    requires 0 < |base| < |pat|
    ensures (base + pat)[..|pat|] != pat
  {
    var s := base + pat;
    var k := |base|;
    assert s[..|pat|][k..] == s[k..|pat|] == pat[..|pat| - k];
    assert pat[k..] != pat[..|pat| - k];
  }

  /** When `base` holds no occurrence, the scan over `base + pat` finds none
      at the very start. */
  lemma NoEarlyMatch(base: string, pat: string)
    requires |pat| > 0 && BorderFree(pat)
    requires !IsInfix(pat, base) && base != []
    ensures (base + pat)[..|pat|] != pat
  {
    if |base| >= |pat| {
      assert (base + pat)[..|pat|] == base[..|pat|];
      assert !InfixAt(pat, base, 0);
    } else {
      NoStraddle(base, pat);
    }
  }

  /** An occurrence in the tail of `s` is an occurrence in `s`. */
  lemma InfixTail(p: string, s: string)
    requires |s| > 0
    ensures IsInfix(p, s[1..]) ==> IsInfix(p, s)
  {
    forall i | InfixAt(p, s[1..], i)
      ensures InfixAt(p, s, i + 1)
    {
      assert s[i + 1..i + 1 + |p|] == s[1..][i..i + |p|];
    }
  }

  /** Replacing in `base + pat`, where `base` does not contain the border-free
      pattern, replaces only the trailing occurrence. */
  lemma {:induction false} ReplaceTrailing(base: string, pat: string, repl: string)
    requires |pat| > 0 && BorderFree(pat)
    requires !IsInfix(pat, base)
    ensures Replace(base + pat, pat, repl) == base + repl
    decreases |base|
  {
    var s := base + pat;
    if base == [] {
      assert s == pat;
      assert s[|pat|..] == [];
    } else {
      NoEarlyMatch(base, pat);
      assert s[1..] == base[1..] + pat;
      InfixTail(pat, base);
      ReplaceTrailing(base[1..], pat, repl);
      assert Replace(s, pat, repl) == [s[0]] + Replace(s[1..], pat, repl);
      assert [base[0]] + base[1..] == base;
    }
  }
}
