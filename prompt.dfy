/**
 * The prompt sent to the text-generation service by `generate_horoscope`
 * (app.py): a fixed system message, then the caller's birthdate and zodiac
 * sign, verbatim, at fixed places between fixed text.
 */
module Prompting {
  import opened PyStr

  const SystemMessage: string :=
    "You are an expert astrologer, providing personalized horoscopes based on the user's birthdate and zodiac sign. "
    + "Be insightful, clear, and include advice on personal growth, relationships, and career."

  /** The fixed pieces of the prompt around the two inputs. */
  const PromptHead: string := SystemMessage + "\n\nUser: I was born on "
  const SignIntro: string := ". My zodiac sign is "
  const PromptTail: string :=
    ". What is my horoscope for today?\n\nAstrologer: Provide a concise horoscope for today in 3 lines."

  /** A prompt laid out as `head`, the birthdate, `intro`, the zodiac sign
      and `tail`: each input sits verbatim between the fixed pieces. */
  function Fill(head: string, intro: string, tail: string, birthdate: string, zodiac_sign: string): (p: string)
    ensures |p| == |head| + |birthdate| + |intro| + |zodiac_sign| + |tail|
    ensures p[..|head|] == head
    ensures p[|head|..|head| + |birthdate|] == birthdate
    ensures p[|head| + |birthdate|..|head| + |birthdate| + |intro|] == intro
    ensures p[|head| + |birthdate| + |intro|..|p| - |tail|] == zodiac_sign
    ensures p[|p| - |tail|..] == tail
  {
    head + birthdate + intro + zodiac_sign + tail
  }

  /** When `intro` starts with a period and the birthdate has none, the
      birthdate is what comes before the first period after `head`, and then
      the zodiac sign is determined too: different requests give different
      prompts. */
  lemma {:induction false} FillDetermines(head: string, intro: string, tail: string,
                       b1: string, z1: string, b2: string, z2: string)
    requires intro != [] && intro[0] == '.'
    requires '.' !in b1 && '.' !in b2
    requires Fill(head, intro, tail, b1, z1) == Fill(head, intro, tail, b2, z2)
    ensures b1 == b2 && z1 == z2
  {
    var p := Fill(head, intro, tail, b1, z1);
    var h := |head|;
    var rest1 := intro[1..] + z1 + tail;
    var rest2 := intro[1..] + z2 + tail;
    FillAfterHead(head, intro, tail, b1, z1);
    FillAfterHead(head, intro, tail, b2, z2);
    SplitAfter(b1, rest1, '.');
    SplitAfter(b2, rest2, '.');
    assert b1 == Split(p[h..], '.')[0] == b2;
    var zs := h + |b1| + |intro|;
    assert z1 == p[zs..|p| - |tail|] == z2;
  }

  /** After `head` come the birthdate, then the period that opens `intro`. */
  lemma {:induction false} FillAfterHead(head: string, intro: string, tail: string, birthdate: string, zodiac_sign: string)
    requires intro != [] && intro[0] == '.'
    ensures Fill(head, intro, tail, birthdate, zodiac_sign)[|head|..]
         == birthdate + ['.'] + (intro[1..] + zodiac_sign + tail)
  {
    assert intro == ['.'] + intro[1..];
  }

  /** The prompt of lines 48-58: the system message, then both inputs. */
  function Prompt(birthdate: string, zodiac_sign: string): (p: string)
    ensures |SystemMessage| <= |p| && p[..|SystemMessage|] == SystemMessage
  {
    assert SystemMessage <= PromptHead;
    Fill(PromptHead, SignIntro, PromptTail, birthdate, zodiac_sign)
  }

  /** The birthdate and zodiac sign can be read back from the prompt of a
      birthdate without a period (every YYYY-MM-DD date). */
  lemma {:induction false} PromptDeterminesRequest(b1: string, z1: string, b2: string, z2: string)
    requires '.' !in b1 && '.' !in b2
    requires Prompt(b1, z1) == Prompt(b2, z2)
    ensures b1 == b2 && z1 == z2
  {
    assert SignIntro[0] == '.';
    FillDetermines(PromptHead, SignIntro, PromptTail, b1, z1, b2, z2);
  }
}
