/**
 * The Python built-in string operations the interview script relies on:
 * `str.split(sep)`, `sep.join(parts)`, `str.count(sub)`, `str.replace(old, repl)`,
 * `str.strip()` and `str.lower()` on ASCII text, each with the meaning that
 * CPython gives it, stated as total functions on `seq<char>`.
 */
module PyStrings {

  /** `s.startswith(p)` */
  predicate StartsWith(s: string, p: string) {
    |p| <= |s| && s[..|p|] == p
  }

  /** `s.endswith(p)` */
  predicate EndsWith(s: string, p: string) {
    |p| <= |s| && s[|s| - |p|..] == p
  }

  /** A concatenation of three starts with its first operand. */
  lemma StartsWithConcat3(a: string, b: string, c: string)
    ensures StartsWith(a + b + c, a)
  {
    assert (a + b + c)[..|a|] == a;
  }

  /** A concatenation starts with its left operand. */
  lemma StartsWithConcat(a: string, b: string)
    ensures StartsWith(a + b, a)
  {
    assert (a + b)[..|a|] == a;
  }

  /** A string with a known head and tail is the head, the middle slice and the tail. */
  lemma Reassemble(s: string, head: string, tail: string)
    requires |head| + |tail| <= |s| && StartsWith(s, head) && EndsWith(s, tail)
    ensures head + s[|head|..|s| - |tail|] + tail == s
  {
    assert s == s[..|head|] + s[|head|..|s| - |tail|] + s[|s| - |tail|..];
  }

  /** Solver aid: concatenation is associative. */
  lemma ConcatAssoc(a: string, b: string, c: string)
    ensures a + b + c == a + (b + c)
  {
  }

  /** Solver aid: dropping the left operand of a concatenation leaves the right one. */
  lemma DropConcat(a: string, b: string)
    ensures (a + b)[|a|..] == b
  {
  }

  /** Solver aid: the middle operand of a concatenation, sliced back out. */
  lemma SliceConcat(a: string, b: string, c: string)
    ensures (a + b + c)[|a|..|a| + |b|] == b
  {
  }

  /** Of two prefixes of one string, one is a prefix of the other. */
  lemma StartsWithBoth(s: string, a: string, b: string)
    ensures StartsWith(s, a) && StartsWith(s, b) ==> StartsWith(a, b) || StartsWith(b, a)
  {
    if StartsWith(s, a) && StartsWith(s, b) {
      if |b| <= |a| {
        assert a[..|b|] == s[..|b|];
      } else {
        assert b[..|a|] == s[..|a|];
      }
    }
  }

  /** `sub` occurs in `s` starting at index `k`. */
  ghost predicate OccursAt(s: string, sub: string, k: int) {
    0 <= k && k + |sub| <= |s| && s[k..k + |sub|] == sub
  }

  /** `sub in s` */
  ghost predicate Contains(s: string, sub: string) {
    exists k :: OccursAt(s, sub, k)
  }

  /**
   * No proper prefix of `sep` is also a suffix of it, so two occurrences of
   * `sep` can never overlap (true of ". ", false of "aa").
   */
  ghost predicate Unbordered(sep: string) {
    forall k :: 0 < k < |sep| ==> sep[..k] != sep[|sep| - k..]
  }

  // ---------------------------------------------------------------------------
  // split, join, count, replace
  // ---------------------------------------------------------------------------

  /**
   * `s.split(sep)`: scan left to right for `sep`, cut at each occurrence found,
   * and resume the scan right after it (matches never overlap). Python raises
   * ValueError for an empty separator, hence the precondition.
   */
  function Split(s: string, sep: string): (parts: seq<string>)
    requires |sep| > 0
    ensures |parts| >= 1
    ensures StartsWith(s, parts[0])
    decreases |s|
  {
    if |s| < |sep| then [s]
    else if s[..|sep|] == sep then [""] + Split(s[|sep|..], sep)
    else
      var rest := Split(s[1..], sep);
      [[s[0]] + rest[0]] + rest[1..]
  }

  /** `sep.join(parts)`; joining no parts gives the empty string. */
  function Join(parts: seq<string>, sep: string): string
    decreases |parts|
  {
    if |parts| == 0 then ""
    else if |parts| == 1 then parts[0]
    else parts[0] + sep + Join(parts[1..], sep)
  }

  /** `s.count(sub)`: the number of non-overlapping occurrences, found left to right. */
  function Count(s: string, sub: string): nat
    requires |sub| > 0
    decreases |s|
  {
    if |s| < |sub| then 0
    else if s[..|sub|] == sub then 1 + Count(s[|sub|..], sub)
    else Count(s[1..], sub)
  }

  /** `s.replace(old, repl)`: every non-overlapping occurrence, left to right, is replaced. */
  function Replace(s: string, target: string, repl: string): string
    requires |target| > 0
    decreases |s|
  {
    if |s| < |target| then s
    else if s[..|target|] == target then repl + Replace(s[|target|..], target, repl)
    else [s[0]] + Replace(s[1..], target, repl)
  }

  // ---------------------------------------------------------------------------
  // Occurrence facts used below
  // ---------------------------------------------------------------------------

  /** An occurrence in `s[1..]` is an occurrence in `s`, one place later. */
  lemma OccursInTail(s: string, sub: string, k: int)
    requires |s| > 0 && OccursAt(s[1..], sub, k)
    ensures OccursAt(s, sub, k + 1)
  {
    assert s[k + 1..k + 1 + |sub|] == s[1..][k..k + |sub|];
  }

  /** Nothing non-empty occurs in a string shorter than itself. */
  lemma NotContainsShort(s: string, sub: string)
    requires |s| < |sub|
    ensures !Contains(s, sub)
  {
  }

  /** An occurrence in `s` not at index 0 is an occurrence in `s[1..]`. */
  lemma OccursLater(s: string, sub: string, k: int)
    requires OccursAt(s, sub, k) && k > 0
    ensures OccursAt(s[1..], sub, k - 1)
  {
    assert s[1..][k - 1..k - 1 + |sub|] == s[k..k + |sub|];
  }

  /** `sub in s` for a non-empty `s`: either `s` starts with `sub` or `sub in s[1..]`. */
  lemma ContainsUnfold(s: string, sub: string)
    requires |s| > 0
    ensures Contains(s, sub) <==> StartsWith(s, sub) || Contains(s[1..], sub)
  {
    if Contains(s, sub) {
      var k :| OccursAt(s, sub, k);
      if k > 0 {
        OccursLater(s, sub, k);
      }
    }
    if Contains(s[1..], sub) {
      var k :| OccursAt(s[1..], sub, k);
      OccursInTail(s, sub, k);
    }
    if StartsWith(s, sub) {
      assert OccursAt(s, sub, 0);
    }
  }

  /** An occurrence inside the slice `s[i..j]` is an occurrence in `s`. */
  lemma ContainsInfix(s: string, i: int, j: int, sub: string)
    requires 0 <= i <= j <= |s| && Contains(s[i..j], sub)
    ensures Contains(s, sub)
  {
    var t := s[i..j];
    var k :| OccursAt(t, sub, k);
    assert t[k..] == s[i + k..j];
    assert t[k..][..|sub|] == t[k..k + |sub|];
    assert s[i + k..j][..|sub|] == s[i + k..i + k + |sub|];
    assert OccursAt(s, sub, i + k);
  }

  // ---------------------------------------------------------------------------
  // Properties of Split
  // ---------------------------------------------------------------------------

  /** Splitting on `sep` and joining the fragments with `sep` gives back `s`. */
  lemma {:induction false} SplitJoin(s: string, sep: string)
    requires |sep| > 0
    ensures Join(Split(s, sep), sep) == s
    decreases |s|
  {
    if |s| < |sep| {
    } else if s[..|sep|] == sep {
      var rest := Split(s[|sep|..], sep);
      assert Split(s, sep) == [""] + rest;
      SplitJoin(s[|sep|..], sep);
      JoinCons("", rest, sep);
      assert s == sep + s[|sep|..];
    } else {
      var rest := Split(s[1..], sep);
      assert Split(s, sep) == [[s[0]] + rest[0]] + rest[1..];
      SplitJoin(s[1..], sep);
      JoinExtendHead([s[0]], rest, sep);
      assert s == [s[0]] + s[1..];
    }
  }

  /** Joining a part in front of a non-empty list puts the separator between them. */
  lemma JoinCons(x: string, parts: seq<string>, sep: string)
    requires |parts| >= 1
    ensures Join([x] + parts, sep) == x + sep + Join(parts, sep)
  {
    assert ([x] + parts)[1..] == parts;
  }

  /** A string starts with whatever a prefix of it starts with. */
  lemma PrefixStartsWith(s: string, head: string, p: string)
    requires StartsWith(s, head)
    ensures StartsWith(head, p) ==> StartsWith(s, p)
  {
    if |p| <= |head| {
      assert s[..|p|] == head[..|p|];
    }
  }

  /** Prefixing the first part with `x` prefixes the joined string with `x`. */
  lemma JoinExtendHead(x: string, parts: seq<string>, sep: string)
    requires |parts| >= 1
    ensures Join([x + parts[0]] + parts[1..], sep) == x + Join(parts, sep)
  {
    var extended := [x + parts[0]] + parts[1..];
    assert extended[1..] == parts[1..];
  }

  /**
   * Joining the fragments with `repl` instead of `sep` is `s.replace(sep, repl)`:
   * every separator the scan found is exchanged for `repl`, and nothing else changes.
   */
  lemma {:induction false} SplitJoinReplace(s: string, sep: string, repl: string)
    requires |sep| > 0
    ensures Join(Split(s, sep), repl) == Replace(s, sep, repl)
    decreases |s|
  {
    if |s| < |sep| {
    } else if s[..|sep|] == sep {
      var rest := Split(s[|sep|..], sep);
      assert Split(s, sep) == [""] + rest;
      SplitJoinReplace(s[|sep|..], sep, repl);
      JoinCons("", rest, repl);
      assert Replace(s, sep, repl) == repl + Replace(s[|sep|..], sep, repl);
    } else {
      var rest := Split(s[1..], sep);
      assert Split(s, sep) == [[s[0]] + rest[0]] + rest[1..];
      SplitJoinReplace(s[1..], sep, repl);
      JoinExtendHead([s[0]], rest, repl);
      assert Replace(s, sep, repl) == [s[0]] + Replace(s[1..], sep, repl);
    }
  }

  /** No fragment of a split contains the separator. */
  lemma {:induction false} SplitFragmentsFree(s: string, sep: string)
    requires |sep| > 0
    ensures forall i :: 0 <= i < |Split(s, sep)| ==> !Contains(Split(s, sep)[i], sep)
    decreases |s|
  {
    var parts := Split(s, sep);
    if |s| < |sep| {
      NotContainsShort(s, sep);
    } else if s[..|sep|] == sep {
      SplitFragmentsFree(s[|sep|..], sep);
      NotContainsShort("", sep);
      assert parts[1..] == Split(s[|sep|..], sep);
    } else {
      var rest := Split(s[1..], sep);
      SplitFragmentsFree(s[1..], sep);
      var head := [s[0]] + rest[0];
      assert parts[0] == head && parts[1..] == rest[1..];
      assert head[1..] == rest[0];
      ContainsUnfold(head, sep);
      // head is a prefix of s, and s does not start with sep
      assert StartsWith(s, head) by {
        assert s[1..][..|rest[0]|] == rest[0];
      }
      PrefixStartsWith(s, head, sep);
      forall i | 0 <= i < |parts| ensures !Contains(parts[i], sep) {
        if i > 0 {
          assert parts[i] == rest[i];
        }
      }
    }
  }

  /**
   * The number of fragments is one more than the number of non-overlapping
   * occurrences of the separator: `len(s.split(sep)) == s.count(sep) + 1`.
   */
  lemma {:induction false} SplitCount(s: string, sep: string)
    requires |sep| > 0
    ensures |Split(s, sep)| == Count(s, sep) + 1
    decreases |s|
  {
    if |s| < |sep| {
    } else if s[..|sep|] == sep {
      SplitCount(s[|sep|..], sep);
    } else {
      SplitCount(s[1..], sep);
    }
  }

  /** Without the separator, the split is the whole string alone. */
  lemma {:induction false} SplitWithoutSeparator(s: string, sep: string)
    requires |sep| > 0 && !Contains(s, sep)
    ensures Split(s, sep) == [s]
    decreases |s|
  {
    if |s| < |sep| {
    } else {
      assert !OccursAt(s, sep, 0);
      ContainsUnfold(s, sep);
      SplitWithoutSeparator(s[1..], sep);
      assert [s[0]] + s[1..] == s;
    }
  }

  /**
   * `s.split(sep)` has more than one fragment exactly when `sep in s`;
   * otherwise it is `[s]`.
   */
  lemma SplitSingleExactly(s: string, sep: string)
    requires |sep| > 0
    ensures |Split(s, sep)| > 1 <==> Contains(s, sep)
    ensures !Contains(s, sep) ==> Split(s, sep) == [s]
  {
    if !Contains(s, sep) {
      SplitWithoutSeparator(s, sep);
    } else {
      // a single fragment would be s itself, which contains sep
      SplitJoin(s, sep);
      SplitFragmentsFree(s, sep);
    }
  }

  /**
   * A string that starts with a separator-free fragment followed by an
   * unbordered separator splits into that fragment and the split of the rest.
   */
  lemma {:induction false} SplitAfterFragment(p: string, sep: string, t: string)
    requires |sep| > 0 && Unbordered(sep) && !Contains(p, sep)
    ensures Split(p + sep + t, sep) == [p] + Split(t, sep)
    decreases |p|
  {
    var s := p + sep + t;
    if |p| == 0 {
      assert s[..|sep|] == sep && s[|sep|..] == t;
    } else {
      NoSeparatorAtStart(p, sep, t);
      ContainsUnfold(p, sep);
      SplitAfterFragment(p[1..], sep, t);
      assert s[1..] == p[1..] + sep + t;
      var rest := Split(s[1..], sep);
      assert rest == [p[1..]] + Split(t, sep);
      assert Split(s, sep) == [[s[0]] + rest[0]] + rest[1..];
      assert [s[0]] + p[1..] == p;
    }
  }

  /** A non-empty separator-free fragment before an unbordered separator keeps `s` from starting with it. */
  lemma NoSeparatorAtStart(p: string, sep: string, t: string)
    requires |sep| > 0 && Unbordered(sep) && !Contains(p, sep) && |p| > 0
    ensures (p + sep + t)[..|sep|] != sep
  {
    var s := p + sep + t;
    if |p| >= |sep| {
      assert s[..|sep|] == p[..|sep|];
      assert !OccursAt(p, sep, 0);
    } else {
      // s would begin with a proper prefix of sep that is also a suffix of it
      var k := |sep| - |p|;
      assert s[..|sep|] == p + sep[..k];
      assert (p + sep[..k])[|p|..] == sep[..k];
      assert sep[..k] != sep[|p|..];
    }
  }

  /**
   * For an unbordered separator, the split is the only list of separator-free
   * fragments that joins back to the string: together with SplitJoin and
   * SplitFragmentsFree this characterises `split` completely.
   */
  lemma {:induction false} SplitUnique(parts: seq<string>, sep: string)
    requires |sep| > 0 && Unbordered(sep)
    requires |parts| >= 1
    requires forall i :: 0 <= i < |parts| ==> !Contains(parts[i], sep)
    ensures Split(Join(parts, sep), sep) == parts
    decreases |parts|
  {
    if |parts| == 1 {
      SplitWithoutSeparator(parts[0], sep);
    } else {
      SplitUnique(parts[1..], sep);
      SplitAfterFragment(parts[0], sep, Join(parts[1..], sep));
      assert [parts[0]] + parts[1..] == parts;
    }
  }

  // ---------------------------------------------------------------------------
  // strip
  // ---------------------------------------------------------------------------

  /** `c.isspace()` in Python 3: the characters `str.strip()` removes by default. */
  predicate IsSpace(c: char) {
    ('\t' <= c <= '\r') || ('\U{1C}' <= c <= ' ') || c == '\U{85}' || c == '\U{A0}'
    || c == '\U{1680}' || ('\U{2000}' <= c <= '\U{200A}') || c == '\U{2028}'
    || c == '\U{2029}' || c == '\U{202F}' || c == '\U{205F}' || c == '\U{3000}'
  }

  /** `s` has no whitespace at either end. */
  predicate IsStripped(s: string) {
    s == [] || (!IsSpace(s[0]) && !IsSpace(s[|s| - 1]))
  }

  /** Every character of `s[lo..hi]` is whitespace. */
  predicate SpaceRun(s: string, lo: int, hi: int)
    requires 0 <= lo <= hi <= |s|
  {
    forall k :: lo <= k < hi ==> IsSpace(s[k])
  }

  /** `r` is `s[i..i + |r|]` and everything of `s` around it is whitespace. */
  ghost predicate StrippedFrom(s: string, r: string, i: int) {
    0 <= i && i + |r| <= |s| && r == s[i..i + |r|]
    && SpaceRun(s, 0, i) && SpaceRun(s, i + |r|, |s|)
  }

  /** `s.lstrip()` */
  function LStrip(s: string): (r: string)
    ensures |r| <= |s| && r == s[|s| - |r|..]
    ensures SpaceRun(s, 0, |s| - |r|)
    ensures r == [] || !IsSpace(r[0])
    decreases |s|
  {
    if |s| > 0 && IsSpace(s[0]) then LStrip(s[1..]) else s
  }

  /** `s.rstrip()` */
  function RStrip(s: string): (r: string)
    ensures |r| <= |s| && r == s[..|r|]
    ensures SpaceRun(s, |r|, |s|)
    ensures r == [] || !IsSpace(r[|r| - 1])
    decreases |s|
  {
    if |s| > 0 && IsSpace(s[|s| - 1]) then RStrip(s[..|s| - 1]) else s
  }

  /** `s.strip()`: the slice left after removing whitespace from both ends. */
  function Strip(s: string): (r: string)
    ensures exists i :: StrippedFrom(s, r, i)
    ensures IsStripped(r)
  {
    StripSlice(s);
    RStrip(LStrip(s))
  }

  /** Where the stripped string sits in `s`: right after the leading whitespace. */
  lemma StripSlice(s: string)
    ensures StrippedFrom(s, RStrip(LStrip(s)), |s| - |LStrip(s)|)
  {
    PeeledSlice(s, LStrip(s), RStrip(LStrip(s)));
  }

  /**
   * Peeling whitespace off the front of `s` (giving `l`) and then off the back
   * of `l` (giving `r`) leaves `r` as a slice of `s` with whitespace around it.
   */
  lemma PeeledSlice(s: string, l: string, r: string)
    requires |l| <= |s| && l == s[|s| - |l|..] && SpaceRun(s, 0, |s| - |l|)
    requires |r| <= |l| && r == l[..|r|] && SpaceRun(l, |r|, |l|)
    ensures StrippedFrom(s, r, |s| - |l|)
  {
    var i := |s| - |l|;
    assert r == s[i..i + |r|];
    forall k | i + |r| <= k < |s| ensures IsSpace(s[k]) {
      assert s[k] == l[k - i];
    }
  }

  /** LStrip drops exactly the whitespace before index `i`, when `s[i]` is not whitespace. */
  lemma {:induction false} LStripDrops(s: string, i: int)
    requires 0 <= i <= |s|
    requires forall k :: 0 <= k < i ==> IsSpace(s[k])
    requires i < |s| ==> !IsSpace(s[i])
    ensures LStrip(s) == s[i..]
    decreases i
  {
    if i > 0 {
      LStripDrops(s[1..], i - 1);
      assert s[1..][i - 1..] == s[i..];
    }
  }

  /** RStrip drops exactly the whitespace from index `j` on, when `s[j - 1]` is not whitespace. */
  lemma {:induction false} RStripDrops(s: string, j: int)
    requires 0 <= j <= |s|
    requires forall k :: j <= k < |s| ==> IsSpace(s[k])
    requires j > 0 ==> !IsSpace(s[j - 1])
    ensures RStrip(s) == s[..j]
    decreases |s| - j
  {
    if j < |s| {
      RStripDrops(s[..|s| - 1], j);
      assert s[..|s| - 1][..j] == s[..j];
    }
  }

  /** A string that is whitespace before and from `i` on strips to nothing. */
  lemma AllSpace(s: string, i: int)
    requires 0 <= i <= |s|
    requires forall k :: 0 <= k < i ==> IsSpace(s[k])
    requires forall k :: i <= k < |s| ==> IsSpace(s[k])
    ensures Strip(s) == []
  {
    LStripDrops(s, |s|);
  }

  /** RStrip of `s[i..]` stops at `j` when `s[j - 1]` is the last non-whitespace character. */
  lemma RStripSuffix(s: string, i: int, j: int)
    requires 0 <= i < j <= |s|
    requires forall k :: j <= k < |s| ==> IsSpace(s[k])
    requires IsStripped(s[i..j])
    ensures RStrip(s[i..]) == s[i..j]
  {
    var l := s[i..];
    assert s[i..j][j - i - 1] == s[j - 1] == l[j - i - 1];
    forall k | j - i <= k < |l| ensures IsSpace(l[k]) {
      assert l[k] == s[i + k];
    }
    RStripDrops(l, j - i);
    assert l[..j - i] == s[i..j];
  }

  /**
   * The stripped string is determined by its position: any whitespace-free-ended
   * slice `s[i..j]` with only whitespace around it is `s.strip()`.
   */
  lemma StripUnique(s: string, i: int, j: int)
    requires 0 <= i <= j <= |s|
    requires forall k :: 0 <= k < i ==> IsSpace(s[k])
    requires forall k :: j <= k < |s| ==> IsSpace(s[k])
    requires IsStripped(s[i..j])
    ensures Strip(s) == s[i..j]
  {
    if i == j {
      AllSpace(s, i);
    } else {
      assert s[i..j][0] == s[i];
      LStripDrops(s, i);
      RStripSuffix(s, i, j);
    }
  }

  /** Stripping removes characters only at the ends, so it cannot create an occurrence. */
  lemma StripKeepsAbsent(s: string, sub: string)
    requires !Contains(s, sub)
    ensures !Contains(Strip(s), sub)
  {
    var r := Strip(s);
    var k :| StrippedFrom(s, r, k);
    SliceContains(s, r, k, sub);
  }

  /** An occurrence in the slice `r` of `s` starting at `k` is an occurrence in `s`. */
  lemma SliceContains(s: string, r: string, k: int, sub: string)
    requires 0 <= k && k + |r| <= |s| && r == s[k..k + |r|]
    ensures Contains(r, sub) ==> Contains(s, sub)
  {
    if Contains(r, sub) {
      ContainsInfix(s, k, k + |r|, sub);
    }
  }

  /** Stripping twice is stripping once. */
  lemma StripIdempotent(s: string)
    ensures Strip(Strip(s)) == Strip(s)
  {
    var r := Strip(s);
    StripUnique(r, 0, |r|);
    assert r[0..|r|] == r;
  }

  // ---------------------------------------------------------------------------
  // lower (ASCII)
  // ---------------------------------------------------------------------------

  predicate IsAsciiUpper(c: char) {
    'A' <= c <= 'Z'
  }

  /** `c.lower()` for an ASCII character: A-Z become a-z, everything else is kept. */
  function LowerChar(c: char): (d: char)
    ensures !IsAsciiUpper(d)
    ensures IsAsciiUpper(c) ==> d as int == c as int + 32
    ensures !IsAsciiUpper(c) ==> d == c
  {
    if IsAsciiUpper(c) then (c as int + 32) as char else c
  }

  /** `s.lower()` on ASCII text: character by character, lengths equal. */
  function AsciiLower(s: string): (r: string)
    ensures |r| == |s|
    ensures forall i :: 0 <= i < |s| ==> r[i] == LowerChar(s[i])
    ensures forall i :: 0 <= i < |r| ==> !IsAsciiUpper(r[i])
  {
    seq(|s|, i requires 0 <= i < |s| => LowerChar(s[i]))
  }
}
