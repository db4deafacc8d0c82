/** The string built-ins the page scripts and the renderer rely on: JavaScript's
    `indexOf`, `substring`, `replace` with a string pattern and number-to-text
    conversion, and Python's `re.sub` with a one-character pattern. */
module Strings {
  import opened Wrappers

  /** `pat` occurs in `s` starting at index `k`. */
  predicate OccursAt(s: string, pat: string, k: nat) {
    k + |pat| <= |s| && s[k..k + |pat|] == pat
  }

  /** `s` ends with `suffix`. */
  predicate EndsWith(s: string, suffix: string) {
    |suffix| <= |s| && s[|s| - |suffix|..] == suffix
  }

  ghost predicate Contains(s: string, pat: string) {
    exists k: nat :: OccursAt(s, pat, k)
  }

  /** `r` is the first index at or after `lo` where `pat` occurs in `s`, or -1 if there is none. */
  ghost predicate IsFirstOccurrence(s: string, pat: string, lo: nat, r: int) {
    if r == -1 then forall k: nat :: lo <= k ==> !OccursAt(s, pat, k)
    else lo <= r && OccursAt(s, pat, r) && forall k: nat :: lo <= k < r ==> !OccursAt(s, pat, k)
  }

  /** JavaScript's `s.indexOf(pat, from)`: a start index past the end is clamped to `|s|`. */
  function IndexOf(s: string, pat: string, from: nat): (r: int)
    ensures IsFirstOccurrence(s, pat, if from <= |s| then from else |s|, r)
    decreases if from <= |s| then 0 else 1, |s| - from
  {
    if from > |s| then IndexOf(s, pat, |s|)
    else if OccursAt(s, pat, from) then from
    else if from == |s| then -1
    else IndexOf(s, pat, from + 1)
  }

  /** Whatever satisfies the first-occurrence description is what `IndexOf` returns. */
  lemma IndexOfIs(s: string, pat: string, from: nat, r: int)
    requires from <= |s|
    requires IsFirstOccurrence(s, pat, from, r)
    ensures IndexOf(s, pat, from) == r
  {
    var i := IndexOf(s, pat, from);
    assert i != -1 ==> from <= i && OccursAt(s, pat, i);
    assert r != -1 ==> from <= r && OccursAt(s, pat, r);
  }

  /** A one-character pattern occurs exactly where that character stands. */
  lemma OccursAtChar(s: string, c: char, k: nat)
    ensures OccursAt(s, [c], k) <==> k < |s| && s[k] == c
  {
    if k < |s| {
      assert s[k..k + 1] == [s[k]];
    }
  }

  /** The first place a character stands in a string that holds it. */
  lemma FirstIndexOfChar(s: string, c: char) returns (k: nat)
    requires c in s
    ensures k < |s| && s[k] == c && c !in s[..k]
  {
    var w :| 0 <= w < |s| && s[w] == c;
    OccursAtChar(s, c, w);
    var i := IndexOf(s, [c], 0);
    OccursAtChar(s, c, i);
    k := i;
    forall j | 0 <= j < k ensures s[j] != c {
      OccursAtChar(s, c, j);
    }
  }

  lemma EndsWithConcat(x: string, y: string)
    ensures EndsWith(x + y, y)
  {
    assert (x + y)[|x|..] == y;
  }

  /** A suffix of `y` is a suffix of anything that ends in `y`. */
  lemma EndsWithExtend(x: string, y: string, t: string)
    requires EndsWith(y, t)
    ensures EndsWith(x + y, t)
  {
    assert (x + y)[|x + y| - |t|..] == y[|y| - |t|..];
  }

  /** After text that ends in a space, a suffix made of a space and a space-free `t`
      can only come from the part after that text ending in `t`. */
  lemma SpaceBeforeSuffix(p: string, s: string, t: string)
    requires |p| > 0 && p[|p| - 1] == ' ' && ' ' !in t
    ensures EndsWith(p + s, [' '] + t) ==> EndsWith(s, t)
  {
    var r := p + s;
    if |r| >= |t| + 1 {
      var tail := r[|r| - |t| - 1..];
      if |s| >= |t| {
        assert tail[1..] == s[|s| - |t|..];
      } else {
        var i := |t| - |s|;
        assert tail[i] == r[|p| - 1] == ' ';
        assert ([' '] + t)[i] == t[i - 1];
      }
    }
  }

  /** A string is what comes before position `k`, the character there, and what follows. */
  lemma SplitAt(s: string, k: nat)
    requires k < |s|
    ensures s == s[..k] + [s[k]] + s[k + 1..]
  {
  }

  /** Occurrences of a character add up over a concatenation. */
  lemma CountAppend(a: string, b: string, c: char)
    ensures multiset(a + b)[c] == multiset(a)[c] + multiset(b)[c]
  {
  }

  /** Occurrences of a character add up over a concatenation of three parts. */
  lemma CountConcat(a: string, b: string, d: string, c: char)
    ensures multiset(a + b + d)[c] == multiset(a)[c] + multiset(b)[c] + multiset(d)[c]
  {
    assert multiset(a + b + d) == multiset(a) + multiset(b) + multiset(d);
  }

  function Clamp(i: int, n: nat): (r: nat)
    ensures r <= n
    ensures 0 <= i <= n ==> r == i
  {
    if i < 0 then 0 else if i > n then n else i
  }

  /** JavaScript's `s.substring(start, end)`: both ends are clamped to `[0, |s|]`
      and swapped when `start` exceeds `end`. */
  function Substring(s: string, start: int, end: int): (r: string)
    ensures 0 <= start <= end <= |s| ==> r == s[start..end]
    ensures 0 <= end <= start <= |s| ==> r == s[end..start]
  {
    var a := Clamp(start, |s|);
    var b := Clamp(end, |s|);
    if a <= b then s[a..b] else s[b..a]
  }

  /** JavaScript's one-argument `s.substring(start)`: everything from `start` on. */
  function SubstringFrom(s: string, start: int): (r: string)
    ensures 0 <= start <= |s| ==> r == s[start..]
  {
    Substring(s, start, |s|)
  }

  /** JavaScript's `s.replace(c, rep)` with a one-character string pattern: only the
      first occurrence of `c` is replaced. */
  function ReplaceFirst(s: string, c: char, rep: string): (r: string)
    ensures c !in s ==> r == s
    ensures forall k :: 0 <= k < |s| && s[k] == c && c !in s[..k] ==> r == s[..k] + rep + s[k + 1..]
  {
    var k := IndexOf(s, [c], 0);
    if k == -1 then
      assert forall j :: 0 <= j < |s| ==> s[j] != c by {
        forall j | 0 <= j < |s| ensures s[j] != c {
          OccursAtChar(s, c, j);
        }
      }
      s
    else
      OccursAtChar(s, c, k);
      assert forall j :: 0 <= j < k ==> s[j] != c by {
        forall j | 0 <= j < k ensures s[j] != c {
          OccursAtChar(s, c, j);
        }
      }
      s[..k] + rep + s[k + 1..]
  }

  /** Python's `re.sub(c, rep, s)` for a one-character pattern: every occurrence of
      `c` is replaced, scanning left to right. */
  function ReplaceAll(s: string, c: char, rep: string): (r: string)
    ensures c !in s ==> r == s
  {
    if s == [] then []
    else (if s[0] == c then rep else [s[0]]) + ReplaceAll(s[1..], c, rep)
  }

  /** Replacing all occurrences works piecewise on a concatenation. */
  lemma {:induction false} ReplaceAllAppend(a: string, b: string, c: char, rep: string)
    ensures ReplaceAll(a + b, c, rep) == ReplaceAll(a, c, rep) + ReplaceAll(b, c, rep)
  {
    if a == [] {
      assert a + b == b;
    } else {
      assert (a + b)[0] == a[0];
      assert (a + b)[1..] == a[1..] + b;
      ReplaceAllAppend(a[1..], b, c, rep);
    }
  }

  /** `n` copies of `m`, added up: multiplication spelled out so that the counting
      lemmas below stay within linear arithmetic. */
  function Times(n: nat, m: nat): (p: nat)
    ensures n == 0 || m == 0 ==> p == 0
  {
    if n == 0 then 0 else m + Times(n - 1, m)
  }

  lemma {:induction false} TimesIsProduct(n: nat, m: nat)
    ensures Times(n, m) == n * m
  {
    if n > 0 {
      TimesIsProduct(n - 1, m);
      assert n * m == m + (n - 1) * m;
    }
  }

  /** Every one of the occurrences of `c` in `s` becomes the occurrences of `c` in `rep`. */
  lemma {:induction false} ReplaceAllCount(s: string, c: char, rep: string)
    ensures multiset(ReplaceAll(s, c, rep))[c] == Times(multiset(s)[c], multiset(rep)[c])
  {
    if s != [] {
      ReplaceAllCount(s[1..], c, rep);
      ReplaceAllCountStep(s, c, rep);
    }
  }

  /** One step of the count: the first character's contribution plus the rest's. */
  lemma ReplaceAllCountStep(s: string, c: char, rep: string)
    requires s != []
    ensures multiset(s)[c] == (if s[0] == c then 1 else 0) + multiset(s[1..])[c]
    ensures multiset(ReplaceAll(s, c, rep))[c]
         == (if s[0] == c then multiset(rep)[c] else 0) + multiset(ReplaceAll(s[1..], c, rep))[c]
  {
    var head := if s[0] == c then rep else [s[0]];
    CountAppend(head, ReplaceAll(s[1..], c, rep), c);
    assert s == [s[0]] + s[1..];
    CountAppend([s[0]], s[1..], c);
  }

  /** Replacing the first occurrence trades one `c` for the occurrences of `c` in `rep`. */
  lemma ReplaceFirstCount(s: string, c: char, rep: string)
    requires c in s
    ensures multiset(ReplaceFirst(s, c, rep))[c] == multiset(s)[c] - 1 + multiset(rep)[c]
  {
    var k := FirstIndexOfChar(s, c);
    var pre, post := s[..k], s[k + 1..];
    assert ReplaceFirst(s, c, rep) == pre + rep + post;
    CountConcat(pre, rep, post, c);
    SplitAt(s, k);
    CountConcat(pre, [c], post, c);
  }

  // ---------------------------------------------------------------------------
  // Decimal text of integers

  predicate IsDigit(ch: char) {
    '0' <= ch <= '9'
  }

  predicate AllDigits(s: string) {
    forall i :: 0 <= i < |s| ==> IsDigit(s[i])
  }

  function DigitChar(d: nat): (ch: char)
    requires d < 10
    ensures IsDigit(ch)
  {
    ('0' as int + d) as char
  }

  function DigitValue(ch: char): (d: nat)
    requires IsDigit(ch)
    ensures d < 10 && DigitChar(d) == ch
  {
    (ch as int - '0' as int) as nat
  }

  /** The decimal numeral of `n`, as JavaScript's `String(n)` writes a non-negative integer. */
  function NatToString(n: nat): (r: string)
    ensures |r| > 0 && AllDigits(r)
    ensures r[0] == '0' ==> n == 0
  {
    if n < 10 then [DigitChar(n)] else NatToString(n / 10) + [DigitChar(n % 10)]
  }

  /** The value of a string of decimal digits. */
  function ParseDigits(s: string): (n: nat)
    requires AllDigits(s)
  {
    if s == [] then 0 else ParseDigits(s[..|s| - 1]) * 10 + DigitValue(s[|s| - 1])
  }

  lemma {:induction false} ParseNatToString(n: nat)
    ensures ParseDigits(NatToString(n)) == n
  {
    var r := NatToString(n);
    if n < 10 {
      assert r[..|r| - 1] == [];
      assert DigitValue(DigitChar(n)) == n;
    } else {
      ParseNatToString(n / 10);
      assert r[..|r| - 1] == NatToString(n / 10);
      assert DigitValue(DigitChar(n % 10)) == n % 10;
    }
  }

  /** JavaScript's `String(i)` for an integer: a minus sign before the magnitude when negative. */
  function IntToString(i: int): (r: string)
    ensures |r| > 0
    ensures r[0] == '-' <==> i < 0
    ensures i >= 0 ==> AllDigits(r)
  {
    if i < 0 then "-" + NatToString(-i) else NatToString(i)
  }

  /** Reads an optionally signed decimal numeral ("+4", "-1", "12"); None for anything else. */
  function ParseSigned(s: string): (r: Option<int>)
    ensures r.Some? ==> |s| > 0
  {
    if |s| > 1 && (s[0] == '+' || s[0] == '-') && AllDigits(s[1..]) then
      var magnitude: int := ParseDigits(s[1..]);
      Some(if s[0] == '-' then -magnitude else magnitude)
    else if |s| > 0 && AllDigits(s) then Some(ParseDigits(s))
    else None
  }

  lemma IntToStringRoundTrip(i: int)
    ensures ParseSigned(IntToString(i)) == Some(i)
  {
    var s := IntToString(i);
    if i < 0 {
      ParseNatToString(-i);
      assert s[1..] == NatToString(-i);
      assert ParseDigits(s[1..]) == -i;
    } else {
      ParseNatToString(i);
      assert s == NatToString(i) && IsDigit(s[0]);
    }
  }

  /** A `+` sign before the numeral of a non-negative integer reads back as that integer. */
  lemma PlusIntToStringRoundTrip(n: nat)
    ensures ParseSigned("+" + IntToString(n)) == Some(n)
  {
    ParseNatToString(n);
    assert ("+" + IntToString(n))[1..] == NatToString(n);
  }

  lemma IntToStringInjective(i: int, j: int)
    ensures IntToString(i) == IntToString(j) ==> i == j
  {
    IntToStringRoundTrip(i);
    IntToStringRoundTrip(j);
  }
}
