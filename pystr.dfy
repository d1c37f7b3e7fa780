/**
 * The Python `str` operations that the horoscope pipeline applies to the
 * model's output: `strip()`, `replace(from, to)` for one-character arguments,
 * `split(sep)` for a one-character separator, `sep.join(parts)` and the list
 * slice `parts[:n]`. `Count`, the number of occurrences of a character, is
 * not called by the pipeline; the contracts about it are stated with it.
 */
module PyStr {

  /** Whitespace as CPython's `str.isspace()` classifies it; `strip()` with no
      argument removes exactly these characters from both ends. */
  predicate IsSpace(c: char) {
    || ('\t' <= c <= '\r')
    || ('\U{1C}' <= c <= ' ')
    || c == '\U{85}' || c == '\U{A0}' || c == '\U{1680}'
    || ('\U{2000}' <= c <= '\U{200A}')
    || c == '\U{2028}' || c == '\U{2029}' || c == '\U{202F}'
    || c == '\U{205F}' || c == '\U{3000}'
  }

  /** `s.lstrip()`: the suffix of `s` left after dropping leading whitespace. */
  function TrimStart(s: string): (r: string)
    ensures |r| <= |s| && r == s[|s| - |r|..]
    ensures r != [] ==> !IsSpace(r[0])
  {
    if s != [] && IsSpace(s[0]) then TrimStart(s[1..]) else s
  }

  /** `s.rstrip()`: the prefix of `s` left after dropping trailing whitespace. */
  function TrimEnd(s: string): (r: string)
    ensures |r| <= |s| && r == s[..|r|]
    ensures r != [] ==> !IsSpace(r[|r| - 1])
  {
    if s != [] && IsSpace(s[|s| - 1]) then TrimEnd(s[..|s| - 1]) else s
  }

  /** `s.strip()`. */
  function Strip(s: string): (r: string)
    ensures r != [] ==> !IsSpace(r[0]) && !IsSpace(r[|r| - 1])
  {
    TrimEnd(TrimStart(s))
  }

  /** Every character of `s` is whitespace. */
  predicate AllSpace(s: string) {
    forall k :: 0 <= k < |s| ==> IsSpace(s[k])
  }

  /** `lstrip()` removes only whitespace. */
  lemma {:induction false} TrimStartBlank(s: string)
    ensures AllSpace(s[..|s| - |TrimStart(s)|])
  {
    if s != [] && IsSpace(s[0]) {
      TrimStartBlank(s[1..]);
      var n := |s| - |TrimStart(s)|;
      assert s[..n] == [s[0]] + s[1..][..n - 1];
    }
  }

  /** `rstrip()` removes only whitespace. */
  lemma {:induction false} TrimEndBlank(s: string)
    ensures AllSpace(s[|TrimEnd(s)|..])
  {
    if s != [] && IsSpace(s[|s| - 1]) {
      var t := s[..|s| - 1];
      TrimEndBlank(t);
      assert s[|TrimEnd(s)|..] == t[|TrimEnd(t)|..] + [s[|s| - 1]];
    }
  }

  /** `rstrip()` keeps a leading character that is not whitespace. */
  lemma {:induction false} TrimEndKeepsFirst(s: string)
    requires s != [] && !IsSpace(s[0])
    ensures TrimEnd(s) != []
  {
    if IsSpace(s[|s| - 1]) {
      var t := s[..|s| - 1];
      assert t[0] == s[0];
      TrimEndKeepsFirst(t);
    }
  }

  /** `strip()` gives the empty string exactly when the text is all whitespace. */
  lemma {:induction false} StripBlank(s: string)
    ensures Strip(s) == [] <==> AllSpace(s)
  {
    var t := TrimStart(s);
    TrimStartBlank(s);
    if t != [] {
      TrimEndKeepsFirst(t);
      assert !IsSpace(s[|s| - |t|]);
    } else {
      assert s[..|s| - |t|] == s;
    }
  }

  /** `strip()` is a slice `s[i..j]` of `s`, where `i` is the length of the
      leading whitespace. */
  lemma {:induction false} StripSlice(s: string)
    ensures var i := |s| - |TrimStart(s)|;
      i + |Strip(s)| <= |s| && Strip(s) == s[i..i + |Strip(s)|]
  {
    var t := TrimStart(s);
    var r := TrimEnd(t);
    var i := |s| - |t|;
    assert |s| - |TrimStart(s)| == i && Strip(s) == r;
    assert i + |r| <= |s| && r == s[i..i + |r|] by {
      SuffixThenPrefix(s, t, r);
    }
  }

  /** Only whitespace lies after the slice of `StripSlice`; `TrimStartBlank`
      says the same of what lies before it. */
  lemma {:induction false} StripSlicedOff(s: string)
    ensures var j := |s| - |TrimStart(s)| + |Strip(s)|;
      j <= |s| && AllSpace(s[j..])
  {
    var t := TrimStart(s);
    var r := TrimEnd(t);
    var j := |s| - |t| + |r|;
    assert |s| - |TrimStart(s)| + |Strip(s)| == j;
    assert AllSpace(s[j..]) by {
      TrimEndBlank(t);
      SuffixThenPrefix(s, t, r);
    }
  }

  /** A prefix `r` of a suffix `t` of `s` is a slice of `s`, and what follows
      `r` in `t` is what follows it in `s`. */
  lemma {:induction false} SuffixThenPrefix(s: string, t: string, r: string)
    requires |t| <= |s| && t == s[|s| - |t|..]
    requires |r| <= |t| && r == t[..|r|]
    ensures r == s[|s| - |t|..|s| - |t| + |r|]
    ensures t[|r|..] == s[|s| - |t| + |r|..]
  {
  }

  /** A string whose ends are not whitespace is left alone by `strip()`. */
  lemma {:induction false} StripTrimmed(s: string)
    requires s != [] ==> !IsSpace(s[0]) && !IsSpace(s[|s| - 1])
    ensures Strip(s) == s
  {
    var t := TrimStart(s);
    if s != [] {
      assert t == s;
    }
  }

  /** `strip()` is idempotent. */
  lemma {:induction false} StripIdempotent(s: string)
    ensures Strip(Strip(s)) == Strip(s)
  {
    StripTrimmed(Strip(s));
  }

  /** `s.replace(from, to)` for one-character `from` and `to`. */
  function ReplaceChar(s: string, from: char, to: char): (r: string)
    ensures |r| == |s|
  {
    if s == [] then []
    else [if s[0] == from then to else s[0]] + ReplaceChar(s[1..], from, to)
  }

  /** Each `from` is replaced by `to`, and every other character is kept. */
  lemma {:induction false} ReplaceCharAt(s: string, from: char, to: char, k: nat)
    requires k < |s|
    ensures ReplaceChar(s, from, to)[k] == if s[k] == from then to else s[k]
  {
    if k > 0 {
      ReplaceCharAt(s[1..], from, to, k - 1);
    }
  }

  /** After the replacement no `from` is left. */
  lemma {:induction false} ReplaceCharRemoves(s: string, from: char, to: char)
    requires from != to
    ensures from !in ReplaceChar(s, from, to)
  {
    if s != [] {
      ReplaceCharRemoves(s[1..], from, to);
    }
  }

  /** A string without `from` is left alone by the replacement. */
  lemma {:induction false} ReplaceCharAbsent(s: string, from: char, to: char)
    requires from !in s
    ensures ReplaceChar(s, from, to) == s
  {
    if s != [] {
      ReplaceCharAbsent(s[1..], from, to);
      assert s == [s[0]] + s[1..];
    }
  }

  /** The replacement works on each piece of a concatenation separately. */
  lemma {:induction false} ReplaceCharAppend(a: string, b: string, from: char, to: char)
    ensures ReplaceChar(a + b, from, to) == ReplaceChar(a, from, to) + ReplaceChar(b, from, to)
  {
    if a == [] {
      assert a + b == b;
    } else {
      ReplaceCharAppend(a[1..], b, from, to);
      assert (a + b)[1..] == a[1..] + b;
    }
  }

  /** The number of occurrences of `c` in `s`, as Python's `s.count(c)` gives it. */
  function Count(s: string, c: char): (n: nat) {
    if s == [] then 0 else (if s[0] == c then 1 else 0) + Count(s[1..], c)
  }

  lemma {:induction false} CountAppend(a: string, b: string, c: char)
    ensures Count(a + b, c) == Count(a, c) + Count(b, c)
  {
    if a == [] {
      assert a + b == b;
    } else {
      CountAppend(a[1..], b, c);
      assert (a + b)[1..] == a[1..] + b;
    }
  }

  /** `Count` is the multiplicity of `c` in the multiset of the characters of
      `s`; in particular it is zero exactly when `c` does not occur. */
  lemma {:induction false} CountIsMultiplicity(s: string, c: char)
    ensures Count(s, c) == multiset(s)[c]
    ensures Count(s, c) == 0 <==> c !in s
  {
    if s != [] {
      CountIsMultiplicity(s[1..], c);
      assert s == [s[0]] + s[1..];
    }
  }

  /** `s.split(sep)` for a one-character separator: always at least one part,
      exactly one more part than there are separators, and no part contains
      the separator. */
  function Split(s: string, sep: char): (parts: seq<string>)
    ensures |parts| == Count(s, sep) + 1
    ensures forall k :: 0 <= k < |parts| ==> sep !in parts[k]
  {
    if s == [] then [[]]
    else
      var t := Split(s[1..], sep);
      if s[0] == sep then [[]] + t
      else [[s[0]] + t[0]] + t[1..]
  }

  /** `sep.join(parts)`. */
  function Join(sep: string, parts: seq<string>): (r: string) {
    if |parts| == 0 then []
    else if |parts| == 1 then parts[0]
    else parts[0] + sep + Join(sep, parts[1..])
  }

  /** The list slice `xs[:n]`: the first `n` elements, or all of them. */
  function Take<T>(xs: seq<T>, n: nat): (r: seq<T>)
    ensures |r| == (if n <= |xs| then n else |xs|)
    ensures r <= xs
  {
    if n <= |xs| then xs[..n] else xs
  }

  lemma {:induction false} TakeCons<T>(x: T, xs: seq<T>, n: nat)
    ensures Take([x] + xs, n + 1) == [x] + Take(xs, n)
  {
  }

  lemma {:induction false} JoinCons(sep: string, x: string, parts: seq<string>)
    requires |parts| >= 1
    ensures Join(sep, [x] + parts) == x + sep + Join(sep, parts)
  {
    assert ([x] + parts)[1..] == parts;
  }

  /** A character put in front of the first part goes in front of the join. */
  lemma {:induction false} JoinPrepend(sep: string, x: char, y: string, parts: seq<string>)
    ensures Join(sep, [[x] + y] + parts) == [x] + Join(sep, [y] + parts)
  {
    assert ([[x] + y] + parts)[1..] == parts == ([y] + parts)[1..];
  }

  /** Joining the split parts with the separator gives back the string. */
  lemma {:induction false} JoinSplit(s: string, sep: char)
    ensures Join([sep], Split(s, sep)) == s
  {
    if s != [] {
      var t := Split(s[1..], sep);
      JoinSplit(s[1..], sep);
      if s[0] == sep {
        JoinCons([sep], [], t);
      } else {
        JoinPrepend([sep], s[0], t[0], t[1..]);
        assert t == [t[0]] + t[1..];
      }
      assert s == [s[0]] + s[1..];
    }
  }

  /** A string without the separator is one part. */
  lemma {:induction false} SplitNone(s: string, sep: char)
    requires sep !in s
    ensures Split(s, sep) == [s]
  {
    if s != [] {
      SplitNone(s[1..], sep);
      assert s == [s[0]] + s[1..];
    }
  }

  /** Splitting at the first separator. */
  lemma {:induction false} SplitAfter(a: string, b: string, sep: char)
    requires sep !in a
    ensures Split(a + [sep] + b, sep) == [a] + Split(b, sep)
  {
    if a == [] {
      assert a + [sep] + b == [sep] + b;
      assert ([sep] + b)[1..] == b;
    } else {
      SplitAfter(a[1..], b, sep);
      assert (a + [sep] + b)[1..] == a[1..] + [sep] + b;
      assert a == [a[0]] + a[1..];
    }
  }

  /** Splitting a join of separator-free parts gives back the parts. */
  lemma {:induction false} SplitJoin(parts: seq<string>, sep: char)
    requires |parts| >= 1
    requires forall k :: 0 <= k < |parts| ==> sep !in parts[k]
    ensures Split(Join([sep], parts), sep) == parts
  {
    if |parts| == 1 {
      SplitNone(parts[0], sep);
    } else {
      var tail := Join([sep], parts[1..]);
      SplitJoin(parts[1..], sep);
      assert Join([sep], parts) == parts[0] + [sep] + tail;
      SplitAfter(parts[0], tail, sep);
      assert parts == [parts[0]] + parts[1..];
    }
  }

  /** The longest prefix of `s` holding at most `n` copies of `c`: `s` cut just
      before its (n+1)-th `c`, or all of `s` when it has no more than `n`. */
  function PrefixWithAtMost(s: string, c: char, n: nat): (p: string)
    ensures p <= s
    ensures Count(p, c) == if Count(s, c) <= n then Count(s, c) else n
    ensures p == s || s[|p|] == c
  {
    if s == [] then []
    else if s[0] == c then
      if n == 0 then []
      else
        var p := [c] + PrefixWithAtMost(s[1..], c, n - 1);
        assert p[1..] == PrefixWithAtMost(s[1..], c, n - 1);
        p
    else
      var p := [s[0]] + PrefixWithAtMost(s[1..], c, n);
      assert p[1..] == PrefixWithAtMost(s[1..], c, n);
      p
  }

  /** `s` with a space written after every `c`. */
  function SpaceAfterEach(s: string, c: char): (r: string)
    requires c != ' '
    ensures c !in s ==> r == s
  {
    if s == [] then []
    else (if s[0] == c then [c, ' '] else [s[0]]) + SpaceAfterEach(s[1..], c)
  }

  /** Writing the spaces adds one character per `c`, keeps the number of `c`,
      adds one space per `c`, and brings in no other character. */
  lemma {:induction false} SpaceAfterEachCounts(s: string, c: char)
    requires c != ' '
    ensures |SpaceAfterEach(s, c)| == |s| + Count(s, c)
    ensures Count(SpaceAfterEach(s, c), c) == Count(s, c)
    ensures Count(SpaceAfterEach(s, c), ' ') == Count(s, ' ') + Count(s, c)
    ensures forall x :: x in SpaceAfterEach(s, c) ==> x in s || x == ' '
  {
    if s != [] {
      var head := if s[0] == c then [c, ' '] else [s[0]];
      var tail := SpaceAfterEach(s[1..], c);
      SpaceAfterEachCounts(s[1..], c);
      CountAppend(head, tail, c);
      CountAppend(head, tail, ' ');
      assert s == [s[0]] + s[1..];
      assert SpaceAfterEach(s, c) == head + tail;
    }
  }

  /** Keeping the first n+1 parts of `s.split(c)` and joining them with
      `c + " "` is `s` cut before its (n+1)-th `c`, with a space written after
      each `c` that is left. */
  lemma {:induction false} JoinTakeSplit(s: string, c: char, n: nat)
    requires c != ' '
    ensures Join([c, ' '], Take(Split(s, c), n + 1))
         == SpaceAfterEach(PrefixWithAtMost(s, c, n), c)
    decreases |s|, 1
  {
    if s == [] {
      assert Take(Split(s, c), n + 1) == [[]];
    } else if s[0] != c {
      JoinTakeSplitOther(s, c, n);
    } else if n == 0 {
      assert Take(Split(s, c), 1) == [[]];
    } else {
      JoinTakeSplitSeparator(s, c, n);
    }
  }

  lemma {:induction false} SpaceAfterEachCons(x: char, s: string, c: char)
    requires c != ' '
    ensures SpaceAfterEach([x] + s, c) == (if x == c then [c, ' '] else [x]) + SpaceAfterEach(s, c)
  {
    assert ([x] + s)[1..] == s;
  }

  /** The step of JoinTakeSplit where `s` starts with the separator. */
  lemma {:induction false} JoinTakeSplitSeparator(s: string, c: char, n: nat)
    requires c != ' ' && s != [] && s[0] == c && n > 0
    ensures Join([c, ' '], Take(Split(s, c), n + 1))
         == SpaceAfterEach(PrefixWithAtMost(s, c, n), c)
    decreases |s|, 0
  {
    var m := n - 1;
    var t := Split(s[1..], c);
    var p := PrefixWithAtMost(s[1..], c, m);
    assert Split(s, c) == [[]] + t;
    TakeCons([], t, n);
    JoinCons([c, ' '], [], Take(t, n));
    assert [] + [c, ' '] + Join([c, ' '], Take(t, n)) == [c, ' '] + Join([c, ' '], Take(t, n));
    JoinTakeSplit(s[1..], c, m);
    assert Take(t, m + 1) == Take(t, n);
    assert PrefixWithAtMost(s, c, n) == [c] + p;
    SpaceAfterEachCons(c, p, c);
  }

  /** The step of JoinTakeSplit where `s` starts with another character. */
  lemma {:induction false} JoinTakeSplitOther(s: string, c: char, n: nat)
    requires c != ' ' && s != [] && s[0] != c
    ensures Join([c, ' '], Take(Split(s, c), n + 1))
         == SpaceAfterEach(PrefixWithAtMost(s, c, n), c)
    decreases |s|, 0
  {
    var t := Split(s[1..], c);
    var p := PrefixWithAtMost(s[1..], c, n);
    assert Split(s, c) == [[s[0]] + t[0]] + t[1..];
    TakeCons([s[0]] + t[0], t[1..], n);
    JoinPrepend([c, ' '], s[0], t[0], Take(t[1..], n));
    assert t == [t[0]] + t[1..];
    TakeCons(t[0], t[1..], n);
    JoinTakeSplit(s[1..], c, n);
    assert PrefixWithAtMost(s, c, n) == [s[0]] + p;
    SpaceAfterEachCons(s[0], p, c);
  }
}
