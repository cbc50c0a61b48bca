/** The Python string operations the scripts use, over ASCII: `str.split()`,
    `str.strip()`, `str.strip(chars)`, `str.startswith`, `in`, `str.ljust`,
    `str.isdigit`, `str.rpartition` and `int()`. */
module Text {
  import opened Seqs
  import opened Outcomes

  /** `str.isspace()` on ASCII: tab, line feed, vertical tab, form feed,
      carriage return, the separators 0x1C-0x1F and the space. */
  predicate IsSpace(c: char) {
    var n := c as int;
    9 <= n <= 13 || 28 <= n <= 32
  }

  predicate IsDigit(c: char) {
    '0' <= c <= '9'
  }

  /** `str.isdigit()`: non-empty and every character a digit. */
  predicate IsDigits(s: string) {
    |s| > 0 && forall i | 0 <= i < |s| :: IsDigit(s[i])
  }

  predicate AllSpace(s: string) {
    forall i | 0 <= i < |s| :: IsSpace(s[i])
  }

  /** A token of `str.split()`: non-empty, no whitespace. */
  predicate IsWord(w: string) {
    |w| > 0 && forall i | 0 <= i < |w| :: !IsSpace(w[i])
  }

  predicate StartsWith(s: string, prefix: string) {
    |prefix| <= |s| && s[..|prefix|] == prefix
  }

  /** `pattern in s` */
  predicate Contains(s: string, pattern: string)
    decreases |s|
  {
    StartsWith(s, pattern) || (s != [] && Contains(s[1..], pattern))
  }

  /** `p in a + p + b` */
  lemma {:induction false} ContainsAt(a: string, p: string, b: string)
    ensures Contains(a + p + b, p)
    decreases |a|
  {
    if a == [] {
      assert (a + p + b)[..|p|] == p;
    } else {
      assert (a + p + b)[1..] == a[1..] + p + b;
      ContainsAt(a[1..], p, b);
    }
  }

  /** A string that contains a non-empty pattern contains its first character. */
  lemma {:induction false} ContainsFirst(s: string, p: string)
    requires Contains(s, p) && |p| > 0
    ensures p[0] in s
    decreases |s|
  {
    if !StartsWith(s, p) {
      ContainsFirst(s[1..], p);
    } else {
      assert s[0] == p[0];
    }
  }

  // ---------------------------------------------------------------- split()

  /** Length of the run of non-whitespace characters that starts `s`. */
  function WordLength(s: string): (n: nat)
    ensures n <= |s|
    ensures forall i | 0 <= i < n :: !IsSpace(s[i])
    ensures n == |s| || IsSpace(s[n])
  {
    if s == [] || IsSpace(s[0]) then 0 else 1 + WordLength(s[1..])
  }

  /** `s.split()`: the maximal runs of non-whitespace characters, in order. */
  function Split(s: string): (r: seq<string>)
    ensures forall i | 0 <= i < |r| :: IsWord(r[i])
    decreases |s|
  {
    if s == [] then []
    else if IsSpace(s[0]) then Split(s[1..])
    else
      var n := WordLength(s);
      [s[..n]] + Split(s[n..])
  }

  lemma {:induction false} SplitAllSpace(s: string)
    requires AllSpace(s)
    ensures Split(s) == []
    decreases |s|
  {
    if s != [] {
      SplitAllSpace(s[1..]);
    }
  }

  lemma SplitWord(w: string)
    requires IsWord(w)
    ensures Split(w) == [w]
  {
    WordLengthOfWord(w);
    assert w[..|w|] == w;
    assert w[|w|..] == [];
  }

  lemma {:induction false} WordLengthOfWord(w: string)
    requires forall i | 0 <= i < |w| :: !IsSpace(w[i])
    ensures WordLength(w) == |w|
    decreases |w|
  {
    if w != [] {
      WordLengthOfWord(w[1..]);
    }
  }

  lemma {:induction false} WordLengthConcat(s: string, t: string)
    requires WordLength(s) < |s| || t == [] || IsSpace(t[0])
    ensures WordLength(s + t) == WordLength(s)
    decreases |s|
  {
    if s != [] && !IsSpace(s[0]) {
      assert (s + t)[1..] == s[1..] + t;
      WordLengthConcat(s[1..], t);
    } else if s == [] {
      assert s + t == t;
    }
  }

  lemma SplitOnSpace(s: string)
    requires s != [] && IsSpace(s[0])
    ensures Split(s) == Split(s[1..])
  {
  }

  lemma SplitOnWord(s: string)
    requires s != [] && !IsSpace(s[0])
    ensures Split(s) == [s[..WordLength(s)]] + Split(s[WordLength(s)..])
  {
  }

  /** Splitting at a whitespace boundary: the tokens of `s + t` are those of
      `s` followed by those of `t`. */
  lemma {:induction false} SplitConcat(s: string, t: string)
    requires s == [] || t == [] || IsSpace(Last(s)) || IsSpace(t[0])
    ensures Split(s + t) == Split(s) + Split(t)
    decreases |s|, 1
  {
    if s == [] {
      assert s + t == t;
    } else if IsSpace(s[0]) {
      assert (s + t)[0] == s[0];
      assert (s + t)[1..] == s[1..] + t;
      assert s[1..] == [] || Last(s[1..]) == Last(s);
      SplitOnSpace(s);
      SplitOnSpace(s + t);
      SplitConcat(s[1..], t);
    } else {
      SplitConcatWord(s, t);
    }
  }

  /** `SplitConcat` when `s` starts with a word. */
  lemma {:induction false} SplitConcatWord(s: string, t: string)
    requires s != [] && !IsSpace(s[0])
    requires t == [] || IsSpace(Last(s)) || IsSpace(t[0])
    ensures Split(s + t) == Split(s) + Split(t)
    decreases |s|, 0
  {
    var n := WordLength(s);
    assert n < |s| || t == [] || IsSpace(t[0]) by {
      if n == |s| {
        assert !IsSpace(Last(s));
      }
    }
    WordLengthConcat(s, t);
    assert (s + t)[0] == s[0];
    assert (s + t)[..n] == s[..n];
    assert (s + t)[n..] == s[n..] + t;
    assert s[n..] == [] || Last(s[n..]) == Last(s);
    SplitOnWord(s);
    SplitOnWord(s + t);
    SplitConcat(s[n..], t);
    ConcatAssoc([s[..n]], Split(s[n..]), Split(t));
  }

  lemma SplitWordThen(w: string, rest: string)
    requires IsWord(w) && (rest == [] || IsSpace(rest[0]))
    ensures Split(w + rest) == [w] + Split(rest)
  {
    SplitConcat(w, rest);
    SplitWord(w);
  }

  lemma SplitSpaceThen(sep: string, rest: string)
    requires AllSpace(sep)
    ensures Split(sep + rest) == Split(rest)
  {
    SplitAllSpace(sep);
    if sep != [] {
      SplitConcat(sep, rest);
    } else {
      assert sep + rest == rest;
    }
  }

  /** The first two tokens of a line that starts with two words. */
  lemma SplitTwoWords(indent: string, w1: string, sep: string, w2: string, rest: string)
    requires AllSpace(indent) && AllSpace(sep) && sep != []
    requires IsWord(w1) && IsWord(w2)
    requires rest == [] || IsSpace(rest[0])
    ensures Split(indent + w1 + sep + w2 + rest) == [w1, w2] + Split(rest)
  {
    var t2 := w2 + rest;
    var t1 := sep + t2;
    var t0 := w1 + t1;
    SplitWordThen(w2, rest);
    SplitSpaceThen(sep, t2);
    SplitWordThen(w1, t1);
    SplitSpaceThen(indent, t0);
    ConcatAssoc(sep, w2, rest);
    ConcatAssoc(w1, sep + w2, rest);
    ConcatAssoc(w1, sep, w2);
    ConcatAssoc(indent, w1 + sep + w2, rest);
    ConcatAssoc(indent, w1 + sep, w2);
    ConcatAssoc(indent, w1, sep);
  }

  // ---------------------------------------------------------------- strip()

  /** The character sets the scripts strip or match: whitespace for
      `strip()`, `"()"` for `strip("()")`, and the class `[\d\.]`. */
  datatype CharClass = Whitespace | Parens | VersionChars

  predicate InClass(k: CharClass, c: char) {
    match k
    case Whitespace => IsSpace(c)
    case Parens => c == '(' || c == ')'
    case VersionChars => IsDigit(c) || c == '.'
  }

  /** Number of leading characters of `s` in the class `drop`. */
  function LeadingCount(s: string, drop: CharClass): (n: nat)
    ensures n <= |s|
    ensures forall i | 0 <= i < n :: InClass(drop, s[i])
    ensures n == |s| || !InClass(drop, s[n])
  {
    if s == [] || !InClass(drop, s[0]) then 0 else 1 + LeadingCount(s[1..], drop)
  }

  /** Number of trailing characters of `s` in the class `drop`. */
  function TrailingCount(s: string, drop: CharClass): (n: nat)
    ensures n <= |s|
    ensures forall i | |s| - n <= i < |s| :: InClass(drop, s[i])
    ensures n == |s| || !InClass(drop, s[|s| - 1 - n])
    decreases |s|
  {
    if s == [] || !InClass(drop, Last(s)) then 0 else 1 + TrailingCount(DropLast(s), drop)
  }

  /** `s.strip(chars)` where `drop` is the class of the characters in `chars`:
      `s` without the accepted characters at both ends. */
  function StripBy(s: string, drop: CharClass): (r: string)
    ensures |r| <= |s|
    ensures r == [] || (!InClass(drop, r[0]) && !InClass(drop, Last(r)))
  {
    var rest := s[LeadingCount(s, drop)..];
    var r := rest[..|rest| - TrailingCount(rest, drop)];
    assert r == [] || !InClass(drop, r[0]) by {
      if r != [] {
        assert r[0] == rest[0];
      }
    }
    r
  }

  lemma PrefixAccepted(s: string, n: nat, drop: CharClass)
    requires n <= |s| && forall i | 0 <= i < n :: InClass(drop, s[i])
    ensures forall k | 0 <= k < |s[..n]| :: InClass(drop, s[..n][k])
  {
  }

  lemma SuffixAccepted(s: string, n: nat, drop: CharClass)
    requires n <= |s| && forall i | n <= i < |s| :: InClass(drop, s[i])
    ensures forall k | 0 <= k < |s[n..]| :: InClass(drop, s[n..][k])
  {
    forall k | 0 <= k < |s[n..]| ensures InClass(drop, s[n..][k]) {
      assert s[n..][k] == s[n + k];
    }
  }

  /** What `StripBy` removes: a run of accepted characters at each end. */
  lemma StripByParts(s: string, drop: CharClass) returns (lead: string, trail: string)
    ensures s == lead + StripBy(s, drop) + trail
    ensures forall k | 0 <= k < |lead| :: InClass(drop, lead[k])
    ensures forall k | 0 <= k < |trail| :: InClass(drop, trail[k])
  {
    var i := LeadingCount(s, drop);
    var rest := s[i..];
    var j := TrailingCount(rest, drop);
    var mid := rest[..|rest| - j];
    lead, trail := s[..i], rest[|rest| - j..];
    PrefixAccepted(s, i, drop);
    SuffixAccepted(rest, |rest| - j, drop);
    StripByIs(s, drop);
    assert StripBy(s, drop) == mid;
    SplitAt(rest, |rest| - j);
    assert rest == mid + trail;
    SplitAt(s, i);
    assert s == lead + rest;
    ConcatAssoc(lead, mid, trail);
  }

  lemma StripByIs(s: string, drop: CharClass)
    ensures StripBy(s, drop) == s[LeadingCount(s, drop)..][..|s| - LeadingCount(s, drop) - TrailingCount(s[LeadingCount(s, drop)..], drop)]
  {
  }

  /** Nothing to strip: `StripBy` returns a string that starts and ends with
      kept characters unchanged. */
  lemma StripByUnchanged(s: string, drop: CharClass)
    requires s == [] || (!InClass(drop, s[0]) && !InClass(drop, Last(s)))
    ensures StripBy(s, drop) == s
  {
    if s != [] {
      assert LeadingCount(s, drop) == 0;
      assert TrailingCount(s, drop) == 0;
      assert s[0..] == s && s[..|s| - 0] == s;
    }
  }

  lemma {:induction false} LeadingCountFramed(lead: string, s: string, drop: CharClass)
    requires forall k | 0 <= k < |lead| :: InClass(drop, lead[k])
    requires s != [] && !InClass(drop, s[0])
    ensures LeadingCount(lead + s, drop) == |lead|
    decreases |lead|
  {
    if lead == [] {
      assert lead + s == s;
    } else {
      assert (lead + s)[1..] == lead[1..] + s;
      LeadingCountFramed(lead[1..], s, drop);
    }
  }

  lemma {:induction false} TrailingCountFramed(s: string, trail: string, drop: CharClass)
    requires forall k | 0 <= k < |trail| :: InClass(drop, trail[k])
    requires s != [] && !InClass(drop, Last(s))
    ensures TrailingCount(s + trail, drop) == |trail|
    decreases |trail|
  {
    if trail == [] {
      assert s + trail == s;
    } else {
      assert DropLast(s + trail) == s + DropLast(trail);
      TrailingCountFramed(s, DropLast(trail), drop);
    }
  }

  /** `StripBy` removes exactly a frame of accepted characters around a
      string that starts and ends with kept ones. */
  lemma StripByFramed(lead: string, s: string, trail: string, drop: CharClass)
    requires forall k | 0 <= k < |lead| :: InClass(drop, lead[k])
    requires forall k | 0 <= k < |trail| :: InClass(drop, trail[k])
    requires s != [] && !InClass(drop, s[0]) && !InClass(drop, Last(s))
    ensures StripBy(lead + s + trail, drop) == s
  {
    assert lead + s + trail == lead + (s + trail);
    LeadingCountFramed(lead, s + trail, drop);
    assert (lead + s + trail)[|lead|..] == s + trail;
    TrailingCountFramed(s, trail, drop);
    assert (s + trail)[..|s|] == s;
  }

  /** `s.strip()` */
  function Strip(s: string): (r: string)
    ensures r == [] || (!IsSpace(r[0]) && !IsSpace(Last(r)))
  {
    StripBy(s, Whitespace)
  }

  /** Stripping whitespace does not change the tokens: `s.strip().split()`
      equals `s.split()`, and a line strips to nothing exactly when it has
      no token. */
  lemma StripKeepsTokens(s: string)
    ensures Split(Strip(s)) == Split(s)
    ensures Strip(s) == [] <==> Split(s) == []
  {
    var r := Strip(s);
    var lead, trail := StripByParts(s, Whitespace);
    assert s == lead + (r + trail);
    SplitAllSpace(lead);
    SplitAllSpace(trail);
    SplitConcat(r, trail);
    SplitConcat(lead, r + trail);
    if r != [] {
      assert WordLength(r) > 0;
    }
  }

  // ---------------------------------------------------------------- ljust()

  function Repeat(c: char, n: nat): (r: string)
    ensures |r| == n
    ensures forall i | 0 <= i < n :: r[i] == c
  {
    seq(n, _ => c)
  }

  /** `s.ljust(width)`: padded with spaces on the right, never truncated. */
  function LJust(s: string, width: nat): (r: string)
    ensures |r| == if |s| < width then width else |s|
    ensures r[..|s|] == s
    ensures forall i | |s| <= i < |r| :: r[i] == ' '
  {
    if |s| < width then s + Repeat(' ', width - |s|) else s
  }

  // ---------------------------------------------------------------- find

  /** The part of `s` before the first occurrence of `pattern` (all of `s`
      when there is none): `s.split(pattern)[0]`. */
  function BeforeFirst(s: string, pattern: string): (r: string)
    requires |pattern| > 0
    ensures StartsWith(s, r)
    ensures !Contains(r, pattern)
    ensures r == s || StartsWith(s[|r|..], pattern)
    decreases |s|
  {
    if StartsWith(s, pattern) then []
    else if s == [] then []
    else
      var rest := BeforeFirst(s[1..], pattern);
      var r := [s[0]] + rest;
      assert r[1..] == rest;
      assert s[..|r|] == r;
      assert !StartsWith(r, pattern);
      assert s[|[s[0]] + rest|..] == s[1..][|rest|..];
      [s[0]] + rest
  }

  /** `s.rpartition(c)` as (head, tail): the text before and after the last
      `c`, or ("", s) when `s` has no `c`. */
  function RPartition(s: string, c: char): (r: (string, string))
    ensures c !in r.1
    ensures if c in s then s == r.0 + [c] + r.1 else r.0 == [] && r.1 == s
    decreases |s|
  {
    if s == [] then ([], [])
    else if Last(s) == c then (DropLast(s), [])
    else
      var (h, t) := RPartition(DropLast(s), c);
      assert s == DropLast(s) + [Last(s)];
      (h, t + [Last(s)])
  }

  /** The last `c` splits `h + [c] + t` when `t` has none. */
  lemma {:induction false} RPartitionAt(h: string, c: char, t: string)
    requires c !in t
    ensures RPartition(h + [c] + t, c) == (h, t)
    decreases |t|
  {
    var s := h + [c] + t;
    if t == [] {
      assert DropLast(s) == h;
    } else {
      assert DropLast(s) == h + [c] + DropLast(t);
      RPartitionAt(h, c, DropLast(t));
      assert DropLast(t) + [Last(t)] == t;
    }
  }

  // ---------------------------------------------------------------- int()

  function DigitValue(c: char): nat
    requires IsDigit(c)
  {
    (c as int) - ('0' as int)
  }

  /** The decimal value of a string of digits. */
  function DigitsValue(s: string): nat
    requires forall i | 0 <= i < |s| :: IsDigit(s[i])
    decreases |s|
  {
    if s == [] then 0 else 10 * DigitsValue(DropLast(s)) + DigitValue(Last(s))
  }

  /** Digits with single underscores between them, as `int()` accepts. */
  predicate IsDigitGroups(s: string) {
    && |s| > 0 && IsDigit(s[0]) && IsDigit(Last(s))
    && (forall i | 0 <= i < |s| :: IsDigit(s[i]) || s[i] == '_')
    && (forall i | 0 <= i < |s| - 1 :: !(s[i] == '_' && s[i + 1] == '_'))
  }

  function WithoutUnderscores(s: string): (r: string)
    requires forall i | 0 <= i < |s| :: IsDigit(s[i]) || s[i] == '_'
    ensures forall i | 0 <= i < |r| :: IsDigit(r[i])
    ensures (forall i | 0 <= i < |s| :: IsDigit(s[i])) ==> r == s
    decreases |s|
  {
    if s == [] then []
    else WithoutUnderscores(DropLast(s)) + (if Last(s) == '_' then [] else [Last(s)])
  }

  /** `int(s)` in base 10: optional surrounding whitespace, an optional sign,
      digits in groups separated by single underscores; None where Python
      raises ValueError. */
  function ParseInt(s: string): (r: Option<int>)
  {
    var t := Strip(s);
    if |t| > 0 && (t[0] == '+' || t[0] == '-') then
      var body := t[1..];
      if IsDigitGroups(body) then
        var v: int := DigitsValue(WithoutUnderscores(body));
        Some(if t[0] == '-' then -v else v)
      else None
    else if IsDigitGroups(t) then Some(DigitsValue(WithoutUnderscores(t)))
    else None
  }

  /** `int()` of a `str.isdigit()` string is its decimal value. */
  lemma ParseIntDigits(s: string)
    requires IsDigits(s)
    ensures ParseInt(s) == Some(DigitsValue(s))
  {
    StripByUnchanged(s, Whitespace);
  }
}
