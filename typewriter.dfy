/** The typing effect of the hero subtitle: the subtitle's text is taken, the
    subtitle emptied, and a timer chain types the text back one character per
    tick. */
module Typewriter {

  function Min(a: nat, b: nat): nat {
    if a <= b then a else b
  }

  /** The subtitle after k ticks of typing text. */
  function TypedAfter(text: string, k: nat): (r: string)
    ensures |r| == Min(k, |text|)
    ensures r <= text
  {
    text[..Min(k, |text|)]
  }

  /** Typing never goes back: the text after k ticks is a prefix of the text
      after any later tick. */
  lemma TypedAfterGrows(text: string, j: nat, k: nat)
    requires j <= k
    ensures TypedAfter(text, j) <= TypedAfter(text, k)
  {
  }

  /** The subtitle is complete from tick |text| on. */
  lemma TypedAfterComplete(text: string, k: nat)
    requires k >= |text|
    ensures TypedAfter(text, k) == text
  {
  }

  /** The state of typeWriterEffect: the original text, the `.hero-subtitle`
      element's text, the index `i`, and whether a call of `type` is scheduled. */
  class Typewriter {
    const text: string
    var subtitle: string
    var i: nat
    var scheduled: bool
    ghost var ticks: nat

    /** After `ticks` calls of `type` the subtitle holds the first i characters of
        the text, i == min(ticks, |text|), and another call is scheduled exactly
        while i had not reached |text| on the latest call. */
    ghost predicate Valid()
      reads this
    {
      && i <= |text|
      && i == Min(ticks, |text|)
      && subtitle == TypedAfter(text, ticks)
      && scheduled == (ticks <= |text|)
    }

    /** typeWriterEffect on a subtitle holding `original`: empty it and schedule
        the first `type`. */
    constructor (original: string)
      ensures text == original && subtitle == "" && i == 0 && scheduled
      ensures Valid() && ticks == 0
    {
      text := original;
      subtitle := "";
      i := 0;
      scheduled := true;
      ticks := 0;
    }

    /** One call of `type`: append the next character and schedule another call,
        or, once the whole text is typed, stop scheduling. The source never calls
        it again after that; such a call is left total on purpose and changes
        nothing but the ghost tick count. */
    method Type()
      requires Valid()
      modifies this
      ensures Valid() && ticks == old(ticks) + 1
      ensures old(i) < |text| ==> subtitle == old(subtitle) + [text[old(i)]] && i == old(i) + 1 && scheduled
      ensures old(i) == |text| ==> subtitle == old(subtitle) == text && i == old(i) && !scheduled
    {
      ticks := ticks + 1;
      if i < |text| {
        subtitle := subtitle + [text[i]];
        i := i + 1;
        scheduled := true;
        assert text[..i] == text[..i - 1] + [text[i - 1]];
      } else {
        scheduled := false;
      }
    }
  }
}
