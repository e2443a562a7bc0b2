/**
 * Python `str` operations the three tools rely on: `replace`, `strip`,
 * `lower` (on ASCII letters), `join`, `split`, `rfind`, `in`, slicing with
 * a possibly negative bound, and a character count used by the proofs.
 */
module Text {

  /** `sub in s`: some slice of `s` equals `sub` (the empty string is in every string). */
  predicate Contains(s: string, sub: string)
    decreases |s|
  {
    sub <= s || (|s| > 0 && Contains(s[1..], sub))
  }

  lemma {:induction false} ContainsAt(s: string, sub: string, i: nat)
    requires i + |sub| <= |s| && s[i..i + |sub|] == sub
    ensures Contains(s, sub)
    decreases i
  {
    if i > 0 {
      assert s[1..][i - 1..i - 1 + |sub|] == s[i..i + |sub|];
      ContainsAt(s[1..], sub, i - 1);
    } else {
      assert sub <= s;
    }
  }

  /** A `sub` found in `s` lies inside `s`. */
  lemma {:induction false} ContainsWitness(s: string, sub: string) returns (i: nat)
    requires Contains(s, sub)
    ensures i + |sub| <= |s| && s[i..i + |sub|] == sub
    decreases |s|
  {
    if sub <= s {
      i := 0;
    } else {
      var j := ContainsWitness(s[1..], sub);
      i := j + 1;
      assert s[i..i + |sub|] == s[1..][j..j + |sub|];
    }
  }

  /**
   * `s.replace(pat, rep)`: scans left to right and replaces every
   * non-overlapping occurrence of `pat`; scanning resumes after each
   * replaced occurrence, so the text `rep` is never rescanned.
   */
  function ReplaceAll(s: string, pat: string, rep: string): (r: string)
    requires |pat| > 0
    ensures |pat| == 1 && pat[0] !in rep ==> pat[0] !in r
    decreases |s|
  {
    if |s| < |pat| then s
    else if pat <= s then rep + ReplaceAll(s[|pat|..], pat, rep)
    else [s[0]] + ReplaceAll(s[1..], pat, rep)
  }

  /** A text whose character `m` differs from the pattern's does not start with it, so its first character is kept. */
  lemma ReplaceSkip(s: string, pat: string, rep: string, m: nat)
    requires m < |pat| && m < |s| && s[m] != pat[m]
    ensures ReplaceAll(s, pat, rep) == [s[0]] + ReplaceAll(s[1..], pat, rep)
  {
    if |s| < |pat| {
      assert s == [s[0]] + s[1..];
    }
  }

  /** A text that starts with the pattern has it replaced, and scanning resumes after it. */
  lemma ReplaceStart(s: string, pat: string, rep: string)
    requires 0 < |pat| && pat <= s
    ensures ReplaceAll(s, pat, rep) == rep + ReplaceAll(s[|pat|..], pat, rep)
  {
  }

  /** A text that starts with the pattern, with a rest too short to hold another, keeps only that rest. */
  lemma ReplaceLeading(pat: string, rep: string, rest: string)
    requires 0 < |pat| && |rest| < |pat|
    ensures ReplaceAll(pat + rest, pat, rep) == rep + rest
  {
    var t := pat + rest;
    assert pat <= t && t[|pat|..] == rest;
  }

  /**
   * An occurrence right after a character that does not start one is
   * replaced, and a rest too short to hold another is kept.
   */
  lemma ReplaceAfterOne(s: string, pat: string, rep: string, rest: string, m: nat)
    requires |s| > 0 && s[1..] == pat + rest
    requires m < |pat| && s[m] != pat[m]
    requires |rest| < |pat|
    ensures ReplaceAll(s, pat, rep) == [s[0]] + rep + rest
  {
    ReplaceSkip(s, pat, rep, m);
    ReplaceLeading(pat, rep, rest);
  }

  /** Every character of the result comes from the text or from the replacement. */
  lemma {:induction false} ReplaceChars(s: string, pat: string, rep: string)
    requires |pat| > 0
    ensures forall ch :: ch in ReplaceAll(s, pat, rep) ==> ch in s || ch in rep
    decreases |s|
  {
    if |s| < |pat| {
    } else if pat <= s {
      ReplaceChars(s[|pat|..], pat, rep);
    } else {
      ReplaceChars(s[1..], pat, rep);
    }
  }

  /** A text without an occurrence of the pattern is left as it is. */
  lemma {:induction false} ReplaceAbsent(s: string, pat: string, rep: string)
    requires |pat| > 0 && !Contains(s, pat)
    ensures ReplaceAll(s, pat, rep) == s
    decreases |s|
  {
    if |s| >= |pat| {
      assert !(pat <= s);
      ReplaceAbsent(s[1..], pat, rep);
      assert s == [s[0]] + s[1..];
    }
  }

  /** A text without the pattern's first character holds no occurrence of it and is left as it is. */
  lemma {:induction false} ReplaceWithoutFirst(s: string, pat: string, rep: string)
    requires |pat| > 0 && pat[0] !in s
    ensures ReplaceAll(s, pat, rep) == s
    decreases |s|
  {
    if |s| >= |pat| {
      assert s[0] in s;
      assert !(pat <= s);
      ReplaceWithoutFirst(s[1..], pat, rep);
      assert s == [s[0]] + s[1..];
    }
  }

  /** Number of occurrences of the character `c` in `s`. */
  function CountChar(s: string, c: char): nat
    decreases |s|
  {
    if |s| == 0 then 0 else (if s[0] == c then 1 else 0) + CountChar(s[1..], c)
  }

  lemma {:induction false} CountConcat(a: string, b: string, c: char)
    ensures CountChar(a + b, c) == CountChar(a, c) + CountChar(b, c)
    decreases |a|
  {
    if |a| > 0 {
      assert (a + b)[1..] == a[1..] + b;
      CountConcat(a[1..], b, c);
    } else {
      assert a + b == b;
    }
  }

  /** Text between two pieces without `c` holds all the `c`s of the whole. */
  lemma CountInside(pre: string, mid: string, post: string, c: char)
    requires c !in pre && c !in post
    ensures CountChar(pre + mid + post, c) == CountChar(mid, c)
  {
    CountConcat(pre + mid, post, c);
    CountConcat(pre, mid, c);
    CountAbsent(pre, c);
    CountAbsent(post, c);
  }

  lemma {:induction false} CountAbsent(s: string, c: char)
    requires c !in s
    ensures CountChar(s, c) == 0
    decreases |s|
  {
    if |s| > 0 {
      CountAbsent(s[1..], c);
    }
  }

  /** Replacing text that does not involve `c` keeps the number of `c`s. */
  lemma {:induction false} ReplaceKeepsCount(s: string, pat: string, rep: string, c: char)
    requires |pat| > 0 && c !in pat && c !in rep
    ensures CountChar(ReplaceAll(s, pat, rep), c) == CountChar(s, c)
    decreases |s|
  {
    if |s| < |pat| {
    } else if pat <= s {
      ReplaceKeepsCount(s[|pat|..], pat, rep, c);
      CountConcat(rep, ReplaceAll(s[|pat|..], pat, rep), c);
      CountAbsent(rep, c);
      assert s == pat + s[|pat|..];
      CountConcat(pat, s[|pat|..], c);
      CountAbsent(pat, c);
    } else {
      ReplaceKeepsCount(s[1..], pat, rep, c);
      CountConcat([s[0]], ReplaceAll(s[1..], pat, rep), c);
      assert s == [s[0]] + s[1..];
      CountConcat([s[0]], s[1..], c);
    }
  }

  /** The characters `str.strip()` removes: those for which `str.isspace()` holds. */
  const Whitespace: set<char> :=
    {' ', '\t', '\n', '\r', '\U{B}', '\U{C}', '\U{1C}', '\U{1D}', '\U{1E}', '\U{1F}',
     '\U{85}', '\U{A0}', '\U{1680}', '\U{2000}', '\U{2001}', '\U{2002}', '\U{2003}', '\U{2004}',
     '\U{2005}', '\U{2006}', '\U{2007}', '\U{2008}', '\U{2009}', '\U{200A}', '\U{2028}', '\U{2029}',
     '\U{202F}', '\U{205F}', '\U{3000}'}

  /** How many characters at the front of `s` are in `chars`. */
  function LeadingCount(s: string, chars: set<char>): (n: nat)
    ensures n <= |s|
    ensures forall k :: 0 <= k < n ==> s[k] in chars
    ensures n < |s| ==> s[n] !in chars
    decreases |s|
  {
    if |s| > 0 && s[0] in chars then 1 + LeadingCount(s[1..], chars) else 0
  }

  /** The end of `s[lo..]` once the characters in `chars` are cut off its back. */
  function TrailingEnd(s: string, lo: nat, hi: nat, chars: set<char>): (m: nat)
    requires lo <= hi <= |s|
    requires forall k :: hi <= k < |s| ==> s[k] in chars
    ensures lo <= m <= hi
    ensures forall k :: m <= k < |s| ==> s[k] in chars
    ensures m > lo ==> s[m - 1] !in chars
    decreases hi
  {
    if hi > lo && s[hi - 1] in chars then TrailingEnd(s, lo, hi - 1, chars) else hi
  }

  /**
   * `s.strip(chars)`: the middle slice of `s` left once every character of
   * `chars` is cut off both ends; it neither starts nor ends with one of them.
   */
  function Strip(s: string, chars: set<char>): (r: string)
    ensures LeadingCount(s, chars) + |r| <= |s|
    ensures r == s[LeadingCount(s, chars)..LeadingCount(s, chars) + |r|]
    ensures forall k :: 0 <= k < LeadingCount(s, chars) ==> s[k] in chars
    ensures forall k :: LeadingCount(s, chars) + |r| <= k < |s| ==> s[k] in chars
    ensures |r| > 0 ==> r[0] !in chars && r[|r| - 1] !in chars
  {
    var lo := LeadingCount(s, chars);
    s[lo..TrailingEnd(s, lo, |s|, chars)]
  }

  /** Cutting `chars` off `x + y` leaves `x` when `x`'s ends are not in `chars` and all of `y` is. */
  lemma StripEnds(x: string, y: string, chars: set<char>)
    requires |x| > 0 && x[0] !in chars && x[|x| - 1] !in chars
    requires forall k :: 0 <= k < |y| ==> y[k] in chars
    ensures Strip(x + y, chars) == x
  {
    var s := x + y;
    var r := Strip(s, chars);
    assert s[0] !in chars;
    assert LeadingCount(s, chars) == 0;
    assert s[|x| - 1] !in chars;
    assert |r| >= |x|;
    assert r == s[..|x|];
  }

  /** A text that neither starts nor ends with a character of `chars` is its own strip. */
  lemma StripClean(s: string, chars: set<char>)
    requires |s| > 0 ==> s[0] !in chars && s[|s| - 1] !in chars
    ensures Strip(s, chars) == s
  {
    if |s| > 0 {
      StripEnds(s, "", chars);
      assert s + "" == s;
    }
  }

  predicate IsUpper(c: char) { 'A' <= c <= 'Z' }

  predicate IsDigit(c: char) { '0' <= c <= '9' }

  /** `s.lower()` on ASCII letters; other characters are kept. */
  function Lower(s: string): (r: string)
    ensures |r| == |s|
    ensures forall k :: 0 <= k < |r| ==> !IsUpper(r[k])
    ensures forall k :: 0 <= k < |r| ==> r[k] == s[k] || (IsUpper(s[k]) && r[k] as int == s[k] as int + 32)
  {
    seq(|s|, k requires 0 <= k < |s| => if IsUpper(s[k]) then (s[k] as int + 32) as char else s[k])
  }

  /** `sep.join(xs)`. */
  function Join(xs: seq<string>, sep: string): string
    decreases |xs|
  {
    if |xs| == 0 then ""
    else if |xs| == 1 then xs[0]
    else xs[0] + sep + Join(xs[1..], sep)
  }

  lemma {:induction false} JoinAppend(xs: seq<string>, x: string, sep: string)
    requires |xs| > 0
    ensures Join(xs + [x], sep) == Join(xs, sep) + sep + x
    decreases |xs|
  {
    if |xs| > 1 {
      assert (xs + [x])[1..] == xs[1..] + [x];
      JoinAppend(xs[1..], x, sep);
    } else {
      assert (xs + [x])[1..] == [x];
    }
  }

  /** Every piece followed by `sep`: what appending `x + sep` for each piece in turn builds. */
  function Terminated(xs: seq<string>, sep: string): string
    decreases |xs|
  {
    if |xs| == 0 then "" else Terminated(xs[..|xs| - 1], sep) + xs[|xs| - 1] + sep
  }

  lemma TerminatedAppend(xs: seq<string>, x: string, sep: string)
    ensures Terminated(xs + [x], sep) == Terminated(xs, sep) + x + sep
  {
    assert (xs + [x])[..|xs|] == xs;
  }

  /** Without its last separator, the terminated pieces are the joined pieces. */
  lemma {:induction false} TerminatedJoin(xs: seq<string>, sep: string)
    requires |xs| > 0
    ensures Terminated(xs, sep) == Join(xs, sep) + sep
    decreases |xs|
  {
    var n := |xs|;
    if n > 1 {
      TerminatedJoin(xs[..n - 1], sep);
      assert xs == xs[..n - 1] + [xs[n - 1]];
      JoinAppend(xs[..n - 1], xs[n - 1], sep);
    }
  }

  /** `s * n`: `n` copies of `s`. */
  function Repeat(s: string, n: nat): (r: string)
    ensures |r| == n * |s|
  {
    if n == 0 then "" else Repeat(s, n - 1) + s
  }

  /** A join holds the `c`s of its pieces and of the separators between them. */
  lemma {:induction false} JoinCountSeparators(xs: seq<string>, sep: string, c: char)
    requires |xs| > 0
    ensures CountChar(Join(xs, sep), c) == SumCount(xs, c) + (|xs| - 1) * CountChar(sep, c)
    decreases |xs|
  {
    if |xs| == 1 {
      assert SumCount(xs, c) == CountChar(xs[0], c) + SumCount([], c);
    } else {
      JoinCountSeparators(xs[1..], sep, c);
      CountConcat(xs[0] + sep, Join(xs[1..], sep), c);
      CountConcat(xs[0], sep, c);
    }
  }

  /** The number of `c`s in all of `xs` together. */
  function SumCount(xs: seq<string>, c: char): nat
    decreases |xs|
  {
    if |xs| == 0 then 0 else CountChar(xs[0], c) + SumCount(xs[1..], c)
  }

  /** `s.split(c)`: the pieces between the occurrences of `c`; never empty. */
  function Split(s: string, c: char): (r: seq<string>)
    ensures |r| > 0
    decreases |s|
  {
    if |s| == 0 then [""]
    else
      var rest := Split(s[1..], c);
      if s[0] == c then [""] + rest else [[s[0]] + rest[0]] + rest[1..]
  }

  lemma {:induction false} SplitPiece(x: string, tail: string, c: char)
    requires c !in x
    ensures Split(x + tail, c) == [x + Split(tail, c)[0]] + Split(tail, c)[1..]
    decreases |x|
  {
    if |x| > 0 {
      assert (x + tail)[1..] == x[1..] + tail;
      SplitPiece(x[1..], tail, c);
      var sp := Split(tail, c);
      var rest := Split(x[1..] + tail, c);
      assert rest[0] == x[1..] + sp[0] && rest[1..] == sp[1..];
      assert [x[0]] + rest[0] == x + sp[0];
    } else {
      assert x + tail == tail;
      var sp := Split(tail, c);
      assert x + sp[0] == sp[0];
      assert sp == [sp[0]] + sp[1..];
    }
  }

  /** Splitting a join of pieces that do not contain the separator gives the pieces back. */
  lemma {:induction false} SplitJoin(xs: seq<string>, c: char)
    requires |xs| > 0
    requires forall k :: 0 <= k < |xs| ==> c !in xs[k]
    ensures Split(Join(xs, [c]), c) == xs
    decreases |xs|
  {
    if |xs| == 1 {
      SplitPiece(xs[0], "", c);
      assert xs[0] + "" == xs[0];
      assert Split("", c) == [""];
      assert Join(xs, [c]) == xs[0];
      assert xs == [xs[0]];
    } else {
      SplitJoin(xs[1..], c);
      var tail := [c] + Join(xs[1..], [c]);
      assert Join(xs, [c]) == xs[0] + tail;
      SplitPiece(xs[0], tail, c);
      assert tail[1..] == Join(xs[1..], [c]);
      assert Split(tail, c) == [""] + Split(tail[1..], c);
      assert Split(tail, c) == [""] + xs[1..];
      assert xs[0] + "" == xs[0];
      assert xs == [xs[0]] + xs[1..];
    }
  }

  /** `s.rfind(c)`: the index of the last `c`, or -1 when there is none. */
  function RFind(s: string, c: char): (r: int)
    ensures -1 <= r < |s|
    ensures r == -1 <==> c !in s
    ensures r >= 0 ==> s[r] == c && c !in s[r + 1..]
    decreases |s|
  {
    if |s| == 0 then -1
    else if s[|s| - 1] == c then |s| - 1
    else
      assert s[..|s| - 1][RFind(s[..|s| - 1], c) + 1..] + [s[|s| - 1]] == s[RFind(s[..|s| - 1], c) + 1..];
      RFind(s[..|s| - 1], c)
  }

  /** No occurrence of `c` after the last one. */
  lemma RFindLast(s: string, c: char, k: int)
    requires RFind(s, c) < k < |s|
    ensures s[k] != c
  {
    assert s[k] in s[RFind(s, c) + 1..];
  }

  /**
   * Where Python puts a slice bound `p` on a text of length `n`:
   * a negative bound counts from the end, and the result is clamped to `0..n`.
   */
  function SliceBound(n: nat, p: int): (b: nat)
    ensures b <= n
    ensures 0 <= p <= n ==> b == p
    ensures -(n as int) <= p < 0 ==> b == n + p
  {
    if p < 0 then (if n + p < 0 then 0 else n + p) else if p > n then n else p
  }
}
