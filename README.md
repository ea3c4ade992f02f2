# Scroll-driven page enhancements, modelled in Dafny

This project models the scroll-driven core of `script.js`, the enhancement script
of a single static tennis page.

- **Section locator and nav highlighter**: when the page scrolls, `highlightActiveSection`
  picks the last section whose band holds the scroll offset. A section's band
  begins 100 pixels plus the navbar height above its top. The function then marks
  the nav link pointing at that section `active`.
- **Navbar state**: `handleNavbarScroll` adds `scrolled` past offset 100 and
  removes it otherwise.
- **Reveal animator**: every rule, slam and icon card gets `reveal` when the page
  loads. `revealOnScroll` adds `reveal` and `active` to each card whose top is more
  than 150 pixels above the bottom of the viewport.
- **Counter trigger and counter animator**:
  - `checkCountersVisibility` starts the counters once, on the first call that
    sees the icons section in the viewport. The flag `countersAnimated` remembers
    that the counters have started.
  - `animateCounters` reads each badge's number with `parseInt`, skipping badges
    that hold no number.
  - Each number is then ramped up from 0 by an interval that adds a fiftieth of
    the target on each tick. Until the count reaches the target, a tick writes
    `floor(count) + " Grand Slams"`. The tick that reaches it writes the target
    itself and clears the interval.
  - With exact arithmetic, a positive target is reached on tick 50 and a target
    of 0 or below on tick 1. The source's double-precision count can differ (see
    "## Left out").
- **Debouncer**: `debounce(func, wait, immediate)` burst-suppresses the second
  scroll listener through a single pending-timer slot.
- **Typing effect**: `type` appends one character of the hero subtitle per timer
  tick until the whole text is back.

Modules, one per component:

| module | file | models |
|---|---|---|
| `Dom` | `dom.dfy` | the page records the handlers read and write |
| `JsNumber` | `js_number.dfy` | `parseInt` without a radix (section 19.2.5 of ECMA-262) and the decimal text of an integral Number |
| `Navigation` | `navigation.dfy` | section locator, nav highlighter, navbar class |
| `Reveal` | `reveal.dfy` | the reveal classes |
| `Counters` | `counters.dfy` | the one-shot trigger and the per-badge ramp |
| `Debounce` | `debounce.dfy` | the debounce wrapper |
| `Typewriter` | `typewriter.dfy` | the typing loop |

How the page becomes Dafny:

- A class list is a `set<string>`.
- A `NodeList` the handlers update element by element is an `array` of element
  records, updated in place.
- Geometry is passed to each handler as integers: `window.scrollY`, `offsetTop`,
  `offsetHeight`, `innerHeight` and bounding rectangles (see "## Left out" for
  fractional values).
- A timer callback (an interval tick, a debounced timer firing, a typing step)
  becomes a method. The caller invokes it once per firing.
- `getAttribute` returns `Option<string>`, where `None` is `null`. A template
  literal writes `null` as `"null"`.

## Notes on the code's behaviour

- **An example scroll offset.** Take a page with sections `home` (0 to 800) and
  `about` (800 to 1600) under an 80-pixel navbar.
  - Offset 750 already highlights `about`. The band of `about` starts at
    800 - 80 - 100 = 620, and a later section in band overrides an earlier one.
  - `Navigation.TwoSectionPage` proves the answers for this page: 600 gives
    `home`, 750 and 820 give `about`, and -181 gives no section.
- **The counter display does not rise on every tick.** For target 24 the first
  two ticks both show 0, because 24/50 and 48/50 both round down to 0.
  - `Counters.ShownCountRepeats` proves this.
  - `Counters.ShownCountMonotone` proves that the count never decreases.
- **Targets of 0 or below.** A target of 0 or a negative target reaches
  `count >= target` on the first tick, so that ramp ends after one tick
  (`Counters.FinishTick`).

## Model

| member | source | states |
|---|---|---|
| `JsNumber.TrimStart` | script.js:169 | parseInt's first step: removing leading white space never lengthens the text and leaves it not starting with white space |
| `JsNumber.ReadDigits` | script.js:169 | reading the digits of a radix gives a number exactly when a digit was read before or the text starts with one |
| `JsNumber.ParseMagnitude` | script.js:169 | the text after the sign holds a number exactly when it starts with a decimal digit and is not a `0x` prefix without a hexadecimal digit after it |
| `JsNumber.AfterSign` | script.js:169 | parseInt's sign step: the text after one leading `+` or `-`, if there is one |
| `JsNumber.ParseInt` | script.js:169 | parseInt without a radix: white space, one sign, then the magnitude; a number is read only when a decimal digit follows the sign, and it is negative only after a minus sign |
| `JsNumber.IntToString` | script.js:180 | the decimal text that `target + ' Grand Slams'` writes for the number: a minus sign exactly when the number is negative, then only decimal digits |
| `JsNumber.TrimStartRemovesSpace` | script.js:169 | parseInt's skipping of leading white space removes a prefix made only of StrWhiteSpaceChar characters, and after it the text does not start with white space |
| `JsNumber.ParseIntSkipsSpace` | script.js:169 | any white space in front of a badge's text leaves the number parseInt reads unchanged |
| `JsNumber.DigitValue` | script.js:169 | a digit's value is below its radix; in radix 10 exactly `0`-`9` are digits |
| `JsNumber.NatToString` | script.js:180-183 | the decimal text of a count is non-empty, made only of digits, and has no leading zero except for 0 itself |
| `JsNumber.NatToStringValue` | script.js:180-183 | the digits written for a natural number have that number as their value |
| `JsNumber.MagnitudeRoundTrip` | script.js:169 | the text of a natural number, followed by text that cannot continue it, is read back as that number and never as a hexadecimal prefix |
| `JsNumber.ParseIntUnsigned` | script.js:169 | text beginning with a digit is read with a positive sign |
| `JsNumber.ParseIntNegative` | script.js:169 | a minus sign before the digits negates the number read |
| `JsNumber.ParseIntRoundTrip` | script.js:169 | parseInt reads any integer back from its decimal text followed by any text that does not continue the number, e.g. `" Grand Slams"`. A continuing character is a digit, or `x`/`X` after the text `0` of zero |
| `JsNumber.ParseIntNaN` | script.js:169-170 | parseInt gives NaN, so the badge is skipped, exactly when no decimal digit follows the white space and one sign, or a `0x` prefix is followed by no hexadecimal digit |
| `Dom.AttributeText` | script.js:66 | how the template literal writes an attribute value: the string itself, or `"null"` when `getAttribute` gave null |
| `Navigation.LastInBand` | script.js:53-62 | the chosen section's band holds the offset and no later section's band does; when there is no result, no band holds the offset |
| `Navigation.BandTop` | script.js:56 | the offset at which a section starts to count: its top minus the navbar height minus 100 |
| `Navigation.InBand` | script.js:57-59 | the band test: the offset lies from the band's top up to, but excluding, the top plus the section's height |
| `Navigation.CurrentSection` | script.js:53-62 | the value `currentSection` ends with: `''` when no band holds the offset, and otherwise the id of a section whose band holds it |
| `Navigation.Anchor` | script.js:66 | the template literal `#${currentSection}`: `#` followed by the id, or by `null` for a section without an id |
| `Navigation.LocateSection` | script.js:53-62 | the forEach pass, in which each section in band overwrites `currentSection`, ends with the id of the last section in band, or `''` when no band holds the offset |
| `Navigation.CurrentSectionIsLastInBand` | script.js:53-62 | when no id is empty, the result is `''` exactly when no band holds the offset; otherwise it is the id of a section in band after which no section is in band |
| `Navigation.NoSectionAboveFirst` | script.js:53-62 | above the band of the topmost section no section is current |
| `Navigation.TwoSectionPage` | script.js:55-61 | on the two-section page, offsets 600, 750, 820 and -181 give `home`, `about`, `about` and `''` |
| `Navigation.SectionWithoutId` | script.js:60-66 | a current section without an id makes the link target `#null` |
| `Navigation.Mark` | script.js:65-68 | one link after the pass keeps its href, is `active` exactly when its href equals the anchor, and keeps every other class |
| `Navigation.Highlighted` | script.js:64-69 | after the link pass a link is `active` exactly when its href equals `#` plus the current id; hrefs and all other classes are unchanged |
| `Navigation.HighlightSingleLink` | script.js:64-69 | with distinct hrefs, exactly the link whose href is the target is active |
| `Navigation.InBandSectionIsHighlighted` | script.js:49-70 | an offset in the band of the last section in band lights up exactly the link to that section |
| `Navigation.HighlightActiveSection` | script.js:49-70 | the links array after the handler is the link pass applied to the old links, with the anchor of the located section as target |
| `Navigation.NavbarClasses` | script.js:79-83 | `scrolled` is present exactly when the offset exceeds 100; the other classes are unchanged |
| `Navigation.NavbarIdempotent` | script.js:79-83 | handling the same offset twice gives the same navbar as handling it once |
| `Navigation.Navbar.constructor` | script.js:77 | the navbar starts with the given class list |
| `Navigation.Navbar.HandleNavbarScroll` | script.js:76-84 | the navbar's new class list is `NavbarClasses` of the old one |
| `Reveal.InView` | script.js:94-97 | a card is in view when its top is above the viewport height minus 150 |
| `Reveal.RevealCard` | script.js:94-99 | a card in view gains `reveal` and `active`; a card not in view is unchanged; no class is removed and the top is kept |
| `Reveal.RevealOnScroll` | script.js:90-101 | every card in the array is replaced in place by `RevealCard` of its old value |
| `Reveal.AddRevealClass` | script.js:104-109 | on load every card gains `reveal` and nothing else changes |
| `Reveal.RevealStep` | script.js:90-101 | one scroll event applies `RevealCard` to every card at the top it has in that frame |
| `Reveal.RevealRun` | script.js:90-101 | the cards after revealOnScroll runs once per scroll event over a sequence of frames, each frame giving the cards' tops and the viewport height |
| `Reveal.RevealRunKeepsClasses` | script.js:93-100 | over any sequence of scroll events no card loses a class (reveal is monotonic) |
| `Reveal.RevealedStaysRevealed` | script.js:97-98 | a card that was in view in any frame has `reveal` and `active` after all later frames |
| `Reveal.UnseenStaysHidden` | script.js:97-98 | a card never in view keeps exactly its classes |
| `Counters.IsVisible` | script.js:196 | the icons section is visible when its rectangle's top is above the viewport's bottom and its bottom is at or below the viewport's top |
| `Counters.ShownCount` | script.js:183 | `Math.floor(count)` after k ticks, with 50 * count == k * target: the largest integer r with 50 * r <= k * target |
| `Counters.RampText` | script.js:179-183 | the text a tick writes is a number followed by `" Grand Slams"` |
| `Counters.FinishTick` | script.js:177-181 | with exact arithmetic, the interval stops on the first tick at which count >= target, which is tick 50 for a positive target and tick 1 otherwise |
| `Counters.FinalText` | script.js:179-181 | on its last tick the badge shows exactly the target and the suffix |
| `Counters.ShownCountBelowTarget` | script.js:178-184 | before the last tick the badge shows `floor(count)`, a value from 0 up to but excluding the target |
| `Counters.ShownCountMonotone` | script.js:178-183 | the shown count never decreases from one tick to a later one |
| `Counters.ShownCountRepeats` | script.js:173-183 | for target 24 the first two ticks show the same text, so the display does not strictly increase |
| `Counters.RampTextParses` | script.js:180-183 | every text the ramp writes starts with a number parseInt reads back: the shown count, or the target on the last tick |
| `Counters.Badge.constructor` | script.js:166 | a badge holds the given text |
| `Counters.Counter.constructor` | script.js:172-177 | a new interval has count 0, is running and has not ticked |
| `Counters.Counter.Tick` | script.js:177-185 | each tick advances the count by target/50 (kept exactly as `scaledCount = 50 * count`) and writes the ramp text; after the finishing tick the interval is cleared, the badge shows the target, and later ticks change nothing |
| `Counters.AnimateCounters` | script.js:165-187 | one entry per badge, in order: none exactly when parseInt of the badge's text is NaN, otherwise a fresh running interval on that badge ramping to the parsed number |
| `Counters.Visible` | script.js:192-196 | the icons section exists and its rectangle meets the viewport |
| `Counters.Starts` | script.js:198 | a call starts the counters when the section exists and is visible and `countersAnimated` is clear |
| `Counters.StartRun` | script.js:190-202 | for each call in a sequence of checkCountersVisibility calls, whether it started the counters, with the flag carried from call to call |
| `Counters.AnimatedAfter` | script.js:190-202 | the value of `countersAnimated` after a sequence of calls |
| `Counters.StartsOnFirstVisible` | script.js:190-202 | a call starts the counters exactly when the flag was clear, the section is visible, and it was not visible on any earlier call |
| `Counters.StartsAtMostOnce` | script.js:198-201 | over any sequence of calls the counters start at most once |
| `Counters.AnimatedAfterSomeVisible` | script.js:190-202 | after a sequence of calls the flag is set exactly when it was set before or the section was visible on some call |
| `Counters.CounterTrigger.constructor` | script.js:190 | `countersAnimated` starts false |
| `Counters.CounterTrigger.CheckCountersVisibility` | script.js:191-202 | the counters start exactly when the section exists, its rectangle meets the viewport and the flag was clear; the flag is then set, and the intervals started are those of `AnimateCounters`; without the section nothing happens |
| `Debounce.Debouncer.constructor` | script.js:345-346 | a new wrapper has no timer pending |
| `Debounce.Debouncer.Call` | script.js:347-358 | a call runs the handler now exactly when `immediate` holds and no timer was pending, and always leaves its own timer pending |
| `Debounce.Debouncer.Fire` | script.js:350-353 | the pending timer's firing empties the slot and runs the handler with that call's arguments exactly when not `immediate` |
| `Debounce.CallInvokes` | script.js:354-357 | a call invokes the handler now, with its own arguments, exactly when `immediate` holds and no timer is pending |
| `Debounce.FireInvokes` | script.js:351-352 | a firing invokes the handler, with the arguments of the call that set the timer, exactly when `immediate` is false and a timer is pending |
| `Debounce.After` | script.js:351-356 | the timer slot after an event: a call leaves its own timer pending, and a firing clears the slot |
| `Debounce.Invocations` | script.js:345-358 | the handler's invocations over a sequence of calls and firings, in order, with the slot carried from event to event |
| `Debounce.LeadingBurst` | script.js:354-357 | with `immediate`, a burst of calls runs the handler once, with the first call's arguments, when nothing was pending, and not at all otherwise |
| `Debounce.TrailingBurst` | script.js:350-356 | without `immediate`, a burst of calls followed by the firing runs the handler once, with the last call's arguments |
| `Debounce.LeadingBound` | script.js:345-359 | with `immediate`, the handler runs at most once more than timers fire |
| `Debounce.TrailingBound` | script.js:350-353 | without `immediate`, the handler runs no more often than timers fire |
| `Typewriter.TypedAfter` | script.js:247-253 | after k ticks the subtitle is the prefix of the text of length min(k, length of text) |
| `Typewriter.TypedAfterGrows` | script.js:247-253 | the typed subtitle only grows: an earlier state is a prefix of every later one |
| `Typewriter.TypedAfterComplete` | script.js:248-252 | from tick `text.length` on, the subtitle holds the whole text |
| `Typewriter.Typewriter.constructor` | script.js:240-244 | the text is taken from the subtitle, the subtitle is emptied, `i` is 0 and the first `type` is scheduled |
| `Typewriter.Typewriter.Type` | script.js:247-253 | while `i` is below the text length, `type` appends `text.charAt(i)`, advances `i` and schedules itself; at the end it changes nothing and stops scheduling |

## Left out

- Event wiring is not modelled: the scroll and `DOMContentLoaded` listeners, their duplicate registration, and the debounced scroll handler's body. Each handler is modelled as a call taking the values the browser would supply.
- Timer delays are not modelled: the 40-unit interval, the 80 and 1000 time-unit typing delays, and the debounce `wait`. Only the order of firings counts, and ties between timers are a browser matter.
- `Counters.Counter.Tick` (and `Counters.FinishTick`, `Counters.ShownCount`, `Counters.RampText`): these keep `50 * count` exactly, whereas the source adds the IEEE double `target / 50` on each tick. Floating point is out of scope, so two effects of its rounding are not modelled; target 20 shows both:
  - A tick can show one less than floor(k * target / 50). After 10 additions of 0.4 the double sum is 3.9999999999999996, so the badge shows 3 where the model shows 4.
  - The ramp can need a 51st tick. After 50 additions the sum is 19.999999999999993, which is still below 20, so tick 50 writes `19 Grand Slams` and tick 51 writes `20 Grand Slams`.
- `JsNumber.ParseInt`: does not model the rounding of values above 2^53, or the radix argument, which the source never passes. `-0` is read as 0. The source's `-0` would end the ramp on the first tick and print `0`, the same as the model's.
- `JsNumber.IntToString`: does not model the exponent notation Number::toString uses for magnitudes of 10^21 or more.
- `Typewriter.Typewriter.Type`: a Dafny `char` is a Unicode scalar value, while `charAt` returns one UTF-16 code unit. Text outside the Basic Multilingual Plane is typed one whole character per tick here, and one surrogate per tick in the source.
- Missing elements:
  - The one the source guards against that is modelled is the icons section (an `Option`).
  - The missing `.hero-subtitle` guard is not modelled; the typewriter is built only for an existing subtitle.
  - A missing `.navbar` is not modelled either; the source itself would fail there.
  - The subtitle's `style.opacity` write is not modelled; it is styling only.
- Fractional geometry is not modelled. In the browser `window.scrollY` and the bounding-rectangle `top` and `bottom` are doubles and can be fractional, while the model takes integers. Each comparison the handlers make (script.js:59, 79, 97 and 196) is a comparison against a threshold built from integer layout values. None of the properties proved about them uses the fact that the inputs are integers.
- `window.scrollY` is read once per handler. The source reads it again for each section, but nothing changes it during a handler.
- The other features of the script are not part of this model, because they are cosmetic or outside the scroll core: hamburger menu, smooth scrolling, logo click, card tilt, custom cursor, parallax, scroll progress bar, lazy image loading and the body fade-in.
