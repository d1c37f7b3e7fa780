/**
 * The post-processing of the generated text in `generate_horoscope`
 * (app.py): a non-string result becomes a placeholder, a string is stripped,
 * its newlines become spaces, it is stripped again, and only its first three
 * period-separated parts are kept, joined with ". ".
 */
module PostProcess {
  import opened PyStr

  /** What lines 61-64 come back with: the generated string, some other
      Python value, or an exception with its `str(e)` message. The exception
      may come from the text-generation call or from printing its answer. */
  datatype InferenceResult = Text(text: string) | NonText | Failure(message: string)

  /** Line 70. Written as a concatenation, so that the verifier does not
      evaluate the whole post-processing on it eagerly as it would on a
      single literal. */
  const Placeholder: string := "No horoscope" + " generated"

  /** Lines 67-70: the returned string stripped, or the placeholder. */
  function Received(result: InferenceResult): (h: string)
    requires !result.Failure?
    ensures result.NonText? ==> h == Placeholder
    ensures h != [] ==> !IsSpace(h[0]) && !IsSpace(h[|h| - 1])
  {
    if result.Text? then Strip(result.text)
    else
      assert !IsSpace(Placeholder[0]) && !IsSpace(Placeholder[|Placeholder| - 1]);
      Placeholder
  }

  /** Line 73: newlines become spaces, then the text is stripped again; no
      newline and no surrounding whitespace is left. */
  function Clean(h: string): (c: string)
    ensures '\n' !in c
    ensures c != [] ==> !IsSpace(c[0]) && !IsSpace(c[|c| - 1])
  {
    var r := ReplaceChar(h, '\n', ' ');
    assert '\n' !in Strip(r) by {
      ReplaceCharRemoves(h, '\n', ' ');
      StripSlice(r);
    }
    Strip(r)
  }

  /** Applied to text that is already stripped, as line 73 always is, the
      second strip changes nothing. */
  lemma {:induction false} CleanStripped(h: string)
    requires h != [] ==> !IsSpace(h[0]) && !IsSpace(h[|h| - 1])
    ensures Clean(h) == ReplaceChar(h, '\n', ' ')
  {
    var r := ReplaceChar(h, '\n', ' ');
    assert r != [] ==> !IsSpace(r[0]) && !IsSpace(r[|r| - 1]) by {
      if h != [] {
        ReplaceCharAt(h, '\n', ' ', 0);
        ReplaceCharAt(h, '\n', ' ', |h| - 1);
      }
    }
    assert Clean(h) == r by {
      StripTrimmed(r);
    }
  }

  /** Lines 76-77: split on '.', keep the first three parts, join with ". ".
      The result has min(count of '.', 2) periods. */
  function Shorten(h: string): (r: string)
    ensures Count(r, '.') == if Count(h, '.') <= 2 then Count(h, '.') else 2
  {
    JoinTakeSplit(h, '.', 2);
    SpaceAfterEachCounts(PrefixWithAtMost(h, '.', 2), '.');
    Join(". ", Take(Split(h, '.'), 3))
  }

  /** The shortened text is the text up to, but not including, its third
      '.', with a space written after each of the (at most two) periods left. */
  lemma {:induction false} ShortenIsPrefixWithSpaces(h: string)
    ensures Shorten(h) == SpaceAfterEach(PrefixWithAtMost(h, '.', 2), '.')
  {
    JoinTakeSplit(h, '.', 2);
  }

  /** Deleting the inserted spaces leaves a prefix of the text, which is
      either all of it or stops right before a period. */
  lemma {:induction false} ShortenCutsAtPeriod(h: string)
    ensures var p := PrefixWithAtMost(h, '.', 2);
      && Shorten(h) == SpaceAfterEach(p, '.')
      && p <= h
      && (p == h || h[|p|] == '.')
  {
    ShortenIsPrefixWithSpaces(h);
  }

  /** The result has at most three period-separated parts. */
  lemma {:induction false} ShortenAtMostThreeParts(h: string)
    ensures |Split(Shorten(h), '.')| <= 3
  {
  }

  /** Shortening brings in no character except the space. */
  lemma {:induction false} ShortenChars(h: string, x: char)
    requires x != ' ' && x !in h
    ensures x !in Shorten(h)
  {
    var p := PrefixWithAtMost(h, '.', 2);
    ShortenIsPrefixWithSpaces(h);
    SpaceAfterEachCounts(p, '.');
  }

  /** Text without a period passes through unchanged. */
  lemma {:induction false} ShortenNoPeriod(h: string)
    requires '.' !in h
    ensures Shorten(h) == h
  {
    ShortenIsPrefixWithSpaces(h);
    CountIsMultiplicity(h, '.');
  }

  /** Text made of period-free sentences joined by '.' shortens to its first
      three sentences joined by ". ". */
  lemma {:induction false} ShortenSentences(sentences: seq<string>)
    requires |sentences| >= 1
    requires forall k :: 0 <= k < |sentences| ==> '.' !in sentences[k]
    ensures Shorten(Join(".", sentences)) == Join(". ", Take(sentences, 3))
  {
    SplitJoin(sentences, '.');
  }

  /** Shortening is not idempotent: a second pass doubles the spaces after
      the periods ("a.b.c.d" gives "a. b. c", which gives "a.  b.  c"). */
  lemma {:induction false} ShortenNotIdempotent(a: string, b: string, c: string, d: string)
    requires '.' !in a && '.' !in b && '.' !in c && '.' !in d
    ensures Shorten(a + "." + b + "." + c + "." + d) == a + ". " + b + ". " + c
    ensures Shorten(a + ". " + b + ". " + c) == a + ".  " + b + ".  " + c
    ensures Shorten(Shorten(a + "." + b + "." + c + "." + d)) != Shorten(a + "." + b + "." + c + "." + d)
  {
    ShortenFour(a, b, c, d);
    ShortenSpaced(a, b, c);
    assert |a + ".  " + b + ".  " + c| == |a + ". " + b + ". " + c| + 2;
  }

  /** Four sentences shorten to the first three. */
  lemma {:induction false} ShortenFour(a: string, b: string, c: string, d: string)
    requires '.' !in a && '.' !in b && '.' !in c && '.' !in d
    ensures Shorten(a + "." + b + "." + c + "." + d) == a + ". " + b + ". " + c
  {
    var sentences := [a, b, c, d];
    assert a + "." + b + "." + c + "." + d == Join(".", sentences) by {
      JoinCons(".", c, [d]);
      JoinCons(".", b, [c, d]);
      JoinCons(".", a, [b, c, d]);
    }
    ShortenSentences(sentences);
    assert Take(sentences, 3) == [a, b, c];
    JoinCons(". ", b, [c]);
    JoinCons(". ", a, [b, c]);
  }

  /** Shortened text shortens again with a second space after each period. */
  lemma {:induction false} ShortenSpaced(a: string, b: string, c: string)
    requires '.' !in a && '.' !in b && '.' !in c
    ensures Shorten(a + ". " + b + ". " + c) == a + ".  " + b + ".  " + c
  {
    var b', c' := " " + b, " " + c;
    assert '.' !in b' && '.' !in c';
    var sentences := [a, b', c'];
    assert a + ". " + b + ". " + c == Join(".", sentences) by {
      JoinCons(".", b', [c']);
      JoinCons(".", a, [b', c']);
    }
    ShortenSentences(sentences);
    assert Take(sentences, 3) == sentences;
    JoinCons(". ", b', [c']);
    JoinCons(". ", a, [b', c']);
    assert a + ". " + b' + ". " + c' == a + ".  " + b + ".  " + c;
  }

  /** The post-processing of lines 67-77: never a newline, and exactly the
      placeholder for a non-string result. */
  function PostProcessed(result: InferenceResult): (r: string)
    requires !result.Failure?
    ensures '\n' !in r
    ensures result.NonText? ==> r == Placeholder
  {
    var h := Received(result);
    var c := Clean(h);
    assert '\n' !in Shorten(c) by {
      ShortenChars(c, '\n');
    }
    assert result.NonText? ==> Shorten(c) == Placeholder by {
      if result.NonText? {
        PlaceholderPlain();
        CleanStripped(h);
        ReplaceCharAbsent(h, '\n', ' ');
        ShortenNoPeriod(h);
      }
    }
    Shorten(c)
  }

  /** The placeholder has no surrounding whitespace, no newline and no period. */
  lemma {:induction false} PlaceholderPlain()
    ensures !IsSpace(Placeholder[0]) && !IsSpace(Placeholder[|Placeholder| - 1])
    ensures '\n' !in Placeholder && '.' !in Placeholder
  {
  }

  /** In terms of the cleaned text (line 73): the horoscope has min(count, 2)
      of its periods, is the cleaned text cut before its third period with a
      space written after each period left, and is the cleaned text itself
      when that has no period. */
  lemma {:induction false} HoroscopeShape(result: InferenceResult)
    requires !result.Failure?
    ensures var cleaned := ReplaceChar(Received(result), '\n', ' ');
      && Count(PostProcessed(result), '.') == (if Count(cleaned, '.') <= 2 then Count(cleaned, '.') else 2)
      && PostProcessed(result) == SpaceAfterEach(PrefixWithAtMost(cleaned, '.', 2), '.')
      && ('.' !in cleaned ==> PostProcessed(result) == cleaned)
  {
    var h := Received(result);
    var cleaned := ReplaceChar(h, '\n', ' ');
    assert PostProcessed(result) == Shorten(cleaned) by {
      CleanStripped(h);
    }
    ShortenIsPrefixWithSpaces(cleaned);
    if '.' !in cleaned {
      ShortenNoPeriod(cleaned);
    }
  }

  /** A model answer of three period-ended sentences on three lines keeps
      its three sentences, with two spaces after each of the first two periods,
      and loses the final period. */
  lemma {:induction false} ThreeLineAnswer(x: string, y: string, z: string)
    requires x != [] && !IsSpace(x[0])
    requires '.' !in x && '.' !in y && '.' !in z
    requires '\n' !in x && '\n' !in y && '\n' !in z
    ensures PostProcessed(Text(x + ".\n" + y + ".\n" + z + "."))
         == x + ".  " + y + ".  " + z
  {
    var t := x + ".\n" + y + ".\n" + z + ".";
    assert t[|t| - 1] == '.';
    StripTrimmed(t);
    assert Received(Text(t)) == t;
    CleanStripped(t);
    LinesCleaned(x, y, z);
    CleanedShortened(x, y, z);
  }

  /** The cleaned answer keeps its three sentences. */
  lemma {:induction false} CleanedShortened(x: string, y: string, z: string)
    requires '.' !in x && '.' !in y && '.' !in z
    ensures Shorten(x + "." + (" " + y) + "." + (" " + z) + ".") == x + ".  " + y + ".  " + z
  {
    var y', z' := " " + y, " " + z;
    assert '.' !in y' && '.' !in z';
    var sentences := [x, y', z', ""];
    assert forall k :: 0 <= k < |sentences| ==> '.' !in sentences[k];
    SentencesJoined(x, y', z');
    ShortenSentences(sentences);
    assert Take(sentences, 3) == [x, y', z'];
    // the space after each kept period and the one that replaced the newline
    assert x + ". " + y' + ". " + z' == x + ".  " + y + ".  " + z;
  }

  /** Replacing the newlines of three lines that end in periods. */
  lemma {:induction false} LinesCleaned(x: string, y: string, z: string)
    requires '\n' !in x && '\n' !in y && '\n' !in z
    ensures ReplaceChar(x + ".\n" + y + ".\n" + z + ".", '\n', ' ')
         == x + "." + (" " + y) + "." + (" " + z) + "."
  {
    var a, b, c := x + ".\n", y + ".\n", z + ".";
    assert x + ".\n" + y + ".\n" + z + "." == a + b + c;
    assert x + ". " + (y + ". ") + (z + ".") == x + "." + (" " + y) + "." + (" " + z) + ".";
    ReplaceCharAppend(a + b, c, '\n', ' ');
    ReplaceCharAppend(a, b, '\n', ' ');
    LineCleaned(x);
    LineCleaned(y);
    ReplaceCharAbsent(c, '\n', ' ');
  }

  /** One line ending in a period and a newline. */
  lemma {:induction false} LineCleaned(x: string)
    requires '\n' !in x
    ensures ReplaceChar(x + ".\n", '\n', ' ') == x + ". "
  {
    ReplaceCharAppend(x, ".\n", '\n', ' ');
    ReplaceCharAbsent(x, '\n', ' ');
    assert ReplaceChar(".\n", '\n', ' ') == ". ";
  }

  /** The cleaned three-line answer as '.'-joined sentences, and its first
      three sentences joined by ". ". */
  lemma {:induction false} SentencesJoined(x: string, y: string, z: string)
    ensures Join(".", [x, y, z, ""]) == x + "." + y + "." + z + "."
    ensures Join(". ", [x, y, z]) == x + ". " + y + ". " + z
  {
    JoinCons(".", z, [""]);
    JoinCons(".", y, [z, ""]);
    JoinCons(".", x, [y, z, ""]);
    JoinCons(". ", y, [z]);
    JoinCons(". ", x, [y, z]);
  }

  /** The horoscope can end in whitespace: a sentence made of a single space
      is kept as the third part ("a.b. .c" gives "a. b.  "). */
  lemma {:induction false} TrailingSpaceKept(a: string, b: string, d: string)
    requires a != [] && !IsSpace(a[0]) && d != [] && !IsSpace(d[|d| - 1])
    requires '.' !in a && '.' !in b && '.' !in d
    requires '\n' !in a && '\n' !in b && '\n' !in d
    ensures PostProcessed(Text(a + "." + b + ". ." + d)) == a + ". " + b + ".  "
  {
    var t := a + "." + b + ". ." + d;
    // the third sentence is the single space between two periods
    assert t == a + "." + b + "." + " " + "." + d;
    assert '\n' !in t;
    ShortenFour(a, b, " ", d);
    assert a + ". " + b + ". " + " " == a + ". " + b + ".  ";
    assert t[|t| - 1] == d[|d| - 1];
    HoroscopePlainText(t);
  }

  /** Model text on one line without surrounding whitespace is only
      shortened. */
  lemma {:induction false} HoroscopePlainText(t: string)
    requires t != [] ==> !IsSpace(t[0]) && !IsSpace(t[|t| - 1])
    requires '\n' !in t
    ensures PostProcessed(Text(t)) == Shorten(t)
  {
    StripTrimmed(t);
    CleanStripped(t);
    ReplaceCharAbsent(t, '\n', ' ');
  }

  /** Empty or all-whitespace model text gives an empty horoscope. */
  lemma {:induction false} BlankAnswer(t: string)
    requires AllSpace(t)
    ensures PostProcessed(Text(t)) == ""
  {
    var h := Received(Text(t));
    StripBlank(t);
    assert h == [];
    CleanStripped(h);
    assert Clean(h) == [];
    ShortenNoPeriod([]);
  }
}
