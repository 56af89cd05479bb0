/**
 The typing animation of the landing page: a per-tick state machine that types a
 phrase one character at a time, pauses, deletes it again and moves on to the
 next phrase (script.js, class TypingAnimation).

 The self-rescheduling timer of the source is abstracted to "the next call of
 Step()": one call of `type()` is one tick. The random jitter added to each delay
 is left out; Step returns the base delay it would schedule.
 */
module Typing {

  datatype Option<T> = None | Some(value: T)

  /** The options object passed to the constructor: `None` is an absent key. */
  datatype Options = Options(typeSpeed: Option<int>, backSpeed: Option<int>,
                             pauseDelay: Option<int>, loop: Option<bool>)

  /** The merged `this.options`. */
  datatype Config = Config(typeSpeed: int, backSpeed: int, pauseDelay: int, loop: bool)

  const DefaultTypeSpeed := 100
  const DefaultBackSpeed := 50
  const DefaultPauseDelay := 2000

  /** JavaScript `v || d` for a number option: an absent value or 0 (falsy) gives `d`. */
  function OrDefault(v: Option<int>, d: int): int {
    if v.Some? && v.value != 0 then v.value else d
  }

  /** One key of the object spread `{ ...base, ...options }`: a present key wins. */
  function Spread<T>(base: T, v: Option<T>): T {
    if v.Some? then v.value else base
  }

  /**
   The constructor's option merge: the defaulted fields are written first and the
   trailing `...options` spread overwrites every key the caller supplied, so the
   `||` defaults only ever apply to absent keys, and a supplied falsy value wins.
   */
  function MergeOptions(o: Options): (c: Config)
    ensures c.typeSpeed == (if o.typeSpeed.Some? then o.typeSpeed.value else DefaultTypeSpeed)
    ensures c.backSpeed == (if o.backSpeed.Some? then o.backSpeed.value else DefaultBackSpeed)
    ensures c.pauseDelay == (if o.pauseDelay.Some? then o.pauseDelay.value else DefaultPauseDelay)
    ensures c.loop == (o.loop != Some(false))
  {
    var defaulted := Config(OrDefault(o.typeSpeed, DefaultTypeSpeed),
                            OrDefault(o.backSpeed, DefaultBackSpeed),
                            OrDefault(o.pauseDelay, DefaultPauseDelay),
                            o.loop != Some(false));
    Config(Spread(defaulted.typeSpeed, o.typeSpeed),
           Spread(defaulted.backSpeed, o.backSpeed),
           Spread(defaulted.pauseDelay, o.pauseDelay),
           Spread(defaulted.loop, o.loop))
  }

  /** With no options at all every field takes its default. */
  lemma MergeEmptyOptions()
    ensures MergeOptions(Options(None, None, None, None)) == Config(100, 50, 2000, true)
  {
  }

  /** A supplied 0 survives the merge although `0 || 100` is 100. */
  lemma MergeKeepsZero()
    ensures MergeOptions(Options(Some(0), Some(0), Some(0), None)) == Config(0, 0, 0, true)
  {
  }

  /** A UTF-16 code unit: JavaScript strings are sequences of these. */
  type CodeUnit = u: int | 0 <= u < 0x10000

  /**
   A JavaScript string. Its `length`, its indices and `substring` count code
   units, so a character outside the Basic Multilingual Plane takes two.
   */
  type JsString = seq<CodeUnit>

  /** The UTF-16 encoding of one character: itself, or a surrogate pair. */
  function EncodeChar(c: char): (u: JsString)
    ensures |u| == (if c as int < 0x10000 then 1 else 2)
    ensures c as int < 0x10000 ==> u == [c as int]
    ensures |u| == 2 ==> 0xD800 <= u[0] < 0xDC00 <= u[1] < 0xE000
    ensures |u| == 2 ==> 0x10000 + (u[0] as int - 0xD800) * 0x400 + (u[1] as int - 0xDC00) == c as int
  {
    if c as int < 0x10000 then [c as int]
    else
      var v := c as int - 0x10000;
      [0xD800 + v / 0x400, 0xDC00 + v % 0x400]
  }

  /** The UTF-16 encoding of a string, as a JavaScript string literal holds it. */
  function Utf16(s: string): (u: JsString)
    ensures |s| <= |u| <= 2 * |s|
    ensures (forall k :: 0 <= k < |s| ==> s[k] as int < 0x10000) ==> |u| == |s|
  {
    if s == [] then [] else EncodeChar(s[0]) + Utf16(s[1..])
  }

  /** Encoding is character by character: it distributes over concatenation. */
  lemma {:induction false} Utf16Concat(a: string, b: string)
    ensures Utf16(a + b) == Utf16(a) + Utf16(b)
  {
    if a == [] {
      assert a + b == b;
    } else {
      assert (a + b)[0] == a[0] && (a + b)[1..] == a[1..] + b;
      Utf16Concat(a[1..], b);
    }
  }

  /**
   JavaScript `s.substring(0, k)`: the end index is clamped into `[0, |s|]`.
   */
  function Prefix(s: JsString, k: int): (p: JsString)
    ensures |p| == (if k <= 0 then 0 else if k >= |s| then |s| else k)
    ensures p == s[..|p|]
  {
    if k <= 0 then [] else if k >= |s| then s else s[..k]
  }

  /** A snapshot of the animation's mutable state; `display` is the element's text. */
  datatype Anim = Anim(textIndex: int, charIndex: int, deleting: bool, paused: bool, display: JsString)

  /** Every phrase list the animation can run on without reading `undefined`. */
  ghost predicate GoodTexts(texts: seq<JsString>) {
    |texts| > 0 && forall i :: 0 <= i < |texts| ==> |texts[i]| > 0
  }

  /**
   The states reachable from the start. The display always shows the clamped
   prefix of the current phrase. With `loop` on the character index stays within
   the phrase, a pause happens only at its end and always together with
   deleting. With `loop` off nothing ever deletes, so the phrase index stays 0
   and the character index may run past the phrase.
   */
  ghost predicate Inv(texts: seq<JsString>, loop: bool, a: Anim) {
    && GoodTexts(texts)
    && 0 <= a.textIndex < |texts|
    && 0 <= a.charIndex
    && a.display == Prefix(texts[a.textIndex], a.charIndex)
    && (a.paused ==> a.charIndex == |texts[a.textIndex]| && a.deleting == loop)
    && (a.deleting ==> loop && 1 <= a.charIndex)
    && (loop ==> a.charIndex <= |texts[a.textIndex]|)
    && (loop && !a.deleting ==> a.charIndex < |texts[a.textIndex]|)
    && (!loop ==> a.textIndex == 0)
  }

  /** The state right after construction, before `init()` runs the first tick. */
  function Start(): Anim {
    Anim(0, 0, false, false, [])
  }

  /**
   One call of `type()`. A paused tick only clears the pause (the source clears
   it in the timer callback just before the next call). A deleting tick shows one
   character less and, on reaching 0, moves to the next phrase. A typing tick
   shows one character more and, on reaching the phrase length, pauses and
   starts deleting exactly when `loop` is on.
   */
  function Next(texts: seq<JsString>, loop: bool, a: Anim): (b: Anim)
    requires 0 <= a.textIndex < |texts|
    ensures 0 <= b.textIndex < |texts|
    ensures Inv(texts, loop, a) ==> Inv(texts, loop, b)
  {
    var current := texts[a.textIndex];
    if a.paused then
      a.(paused := false)
    else if a.deleting then
      var c := a.charIndex - 1;
      if c == 0 then Anim((a.textIndex + 1) % |texts|, c, false, false, Prefix(current, c))
      else Anim(a.textIndex, c, true, false, Prefix(current, c))
    else
      var c := a.charIndex + 1;
      if c == |current| then Anim(a.textIndex, c, loop, true, Prefix(current, c))
      else Anim(a.textIndex, c, false, false, Prefix(current, c))
  }

  /** `n` consecutive ticks. */
  function Run(texts: seq<JsString>, loop: bool, a: Anim, n: nat): (b: Anim)
    requires 0 <= a.textIndex < |texts|
    ensures 0 <= b.textIndex < |texts|
    decreases n
  {
    if n == 0 then a else Run(texts, loop, Next(texts, loop, a), n - 1)
  }

  /** Every run from a reachable state stays among the reachable states. */
  lemma {:induction false} RunKeepsInv(texts: seq<JsString>, loop: bool, a: Anim, n: nat)
    requires Inv(texts, loop, a)
    ensures Inv(texts, loop, Run(texts, loop, a, n))
    decreases n
  {
    if n > 0 {
      RunKeepsInv(texts, loop, Next(texts, loop, a), n - 1);
    }
  }

  lemma {:induction false} RunAdd(texts: seq<JsString>, loop: bool, a: Anim, m: nat, n: nat)
    requires 0 <= a.textIndex < |texts|
    ensures Run(texts, loop, a, m + n) == Run(texts, loop, Run(texts, loop, a, m), n)
    decreases m
  {
    if m > 0 {
      RunAdd(texts, loop, Next(texts, loop, a), m - 1, n);
    }
  }

  /**
   Typing `n` characters from index `c` shows the prefix of length `c + n`; the
   tick that reaches the phrase length sets the pause, and sets deleting exactly
   when `loop` is on.
   */
  lemma {:induction false} TypingRun(texts: seq<JsString>, loop: bool, i: int, c: int, shown: JsString, n: nat)
    requires 0 <= i < |texts| && 0 <= c && 1 <= n && c + n <= |texts[i]|
    ensures Run(texts, loop, Anim(i, c, false, false, shown), n)
         == Anim(i, c + n, loop && c + n == |texts[i]|, c + n == |texts[i]|, texts[i][..c + n])
    decreases n
  {
    var a := Anim(i, c, false, false, shown);
    var b := Next(texts, loop, a);
    if n > 1 {
      assert b == Anim(i, c + 1, false, false, texts[i][..c + 1]);
      TypingRun(texts, loop, i, c + 1, texts[i][..c + 1], n - 1);
    }
  }

  /**
   Deleting `n` characters from index `c` shows the prefix of length `c - n`; the
   tick that reaches 0 stops deleting and advances the phrase index modulo the
   number of phrases.
   */
  lemma {:induction false} DeletingRun(texts: seq<JsString>, loop: bool, i: int, c: int, shown: JsString, n: nat)
    requires 0 <= i < |texts| && 1 <= n <= c <= |texts[i]|
    ensures Run(texts, loop, Anim(i, c, true, false, shown), n)
         == if n == c then Anim((i + 1) % |texts|, 0, false, false, [])
            else Anim(i, c - n, true, false, texts[i][..c - n])
    decreases n
  {
    var a := Anim(i, c, true, false, shown);
    var b := Next(texts, loop, a);
    if n > 1 {
      assert b == Anim(i, c - 1, true, false, texts[i][..c - 1]);
      DeletingRun(texts, loop, i, c - 1, texts[i][..c - 1], n - 1);
    }
  }

  /**
   One full cycle with `loop` on: from the start of phrase `i`, exactly
   `2 * |texts[i]| + 1` ticks (type every character, one pause, delete every
   character) reach the start of phrase `(i + 1) % |texts|`.
   */
  lemma {:induction false} FullCycle(texts: seq<JsString>, i: int, shown: JsString)
    requires 0 <= i < |texts| && |texts[i]| > 0
    ensures Run(texts, true, Anim(i, 0, false, false, shown), 2 * |texts[i]| + 1)
         == Anim((i + 1) % |texts|, 0, false, false, [])
  {
    var len := |texts[i]|;
    var a := Anim(i, 0, false, false, shown);
    RunAdd(texts, true, a, len, len + 1);
    TypingRun(texts, true, i, 0, shown, len);
    assert texts[i][..len] == texts[i];
    var typed := Anim(i, len, true, true, texts[i]);
    assert Run(texts, true, typed, len + 1) == Run(texts, true, Anim(i, len, true, false, texts[i]), len);
    DeletingRun(texts, true, i, len, texts[i], len);
  }

  /** Ticks in one pass over the first `k` phrases: each takes `2 * |phrase| + 1`. */
  function CycleTicks(texts: seq<JsString>, k: nat): nat
    requires k <= |texts|
  {
    if k == 0 then 0 else CycleTicks(texts, k - 1) + 2 * |texts[k - 1]| + 1
  }

  /**
   With `loop` on the animation is periodic: after `CycleTicks(texts, |texts|)`
   ticks from the start of phrase 0 it is back at the start of phrase 0, having
   passed the start of every phrase `k` in order after `CycleTicks(texts, k)`.
   */
  lemma {:induction false} RoundTrip(texts: seq<JsString>, k: nat, shown: JsString)
    requires GoodTexts(texts) && 1 <= k <= |texts|
    ensures Run(texts, true, Anim(0, 0, false, false, shown), CycleTicks(texts, k))
         == Anim(k % |texts|, 0, false, false, [])
  {
    if k == 1 {
      FullCycle(texts, 0, shown);
    } else {
      RoundTrip(texts, k - 1, shown);
      RoundStep(texts, k, Anim(0, 0, false, false, shown));
    }
  }

  /** One more phrase of a round: the start of phrase `k - 1` leads on to that of `k`. */
  lemma RoundStep(texts: seq<JsString>, k: nat, a: Anim)
    requires GoodTexts(texts) && 2 <= k <= |texts| && a.textIndex == 0
    requires Run(texts, true, a, CycleTicks(texts, k - 1)) == Anim((k - 1) % |texts|, 0, false, false, [])
    ensures Run(texts, true, a, CycleTicks(texts, k)) == Anim(k % |texts|, 0, false, false, [])
  {
    var before := CycleTicks(texts, k - 1);
    var len := |texts[k - 1]|;
    assert (k - 1) % |texts| == k - 1;
    assert CycleTicks(texts, k) == before + (2 * len + 1);
    RunAdd(texts, true, a, before, 2 * len + 1);
    FullCycle(texts, k - 1, []);
  }

  /**
   With `loop` off, typing the first phrase to its end leaves it displayed and
   paused, without deleting.
   */
  lemma LoopOffTypesFirstPhrase(texts: seq<JsString>)
    requires GoodTexts(texts)
    ensures Run(texts, false, Start(), |texts[0]|) == Anim(0, |texts[0]|, false, true, texts[0])
  {
    TypingRun(texts, false, 0, 0, [], |texts[0]|);
    assert texts[0][..|texts[0]|] == texts[0];
  }

  lemma {:induction false} LoopOffOverflow(texts: seq<JsString>, c: int, n: nat)
    requires GoodTexts(texts) && c >= |texts[0]|
    ensures Run(texts, false, Anim(0, c, false, false, texts[0]), n) == Anim(0, c + n, false, false, texts[0])
    decreases n
  {
    if n > 0 {
      LoopOffOverflow(texts, c + 1, n - 1);
    }
  }

  /**
   With `loop` off, once the first phrase is fully typed the animation keeps
   ticking forever: the phrase index stays 0, the display stays the first
   phrase, the pause is never set again and the character index grows by one
   per tick.
   */
  lemma LoopOffForever(texts: seq<JsString>, n: nat)
    requires GoodTexts(texts) && n >= 1
    ensures Run(texts, false, Anim(0, |texts[0]|, false, true, texts[0]), n)
         == Anim(0, |texts[0]| + n - 1, false, false, texts[0])
  {
    LoopOffOverflow(texts, |texts[0]|, n - 1);
  }

  /** With `loop` off the character index exceeds every bound. */
  lemma LoopOffUnbounded(texts: seq<JsString>, bound: nat)
    requires GoodTexts(texts)
    ensures Run(texts, false, Start(), |texts[0]| + bound + 2).charIndex > bound
  {
    RunAdd(texts, false, Start(), |texts[0]|, bound + 2);
    LoopOffTypesFirstPhrase(texts);
    LoopOffForever(texts, bound + 2);
  }

  /**
   The animation object. `display` stands for `element.textContent`; `texts` and
   `options` are fixed at construction.
   */
  class TypingAnimation {
    const texts: seq<JsString>
    const options: Config
    var currentTextIndex: int
    var currentCharIndex: int
    var isDeleting: bool
    var isPaused: bool
    var display: JsString

    function State(): Anim
      reads this
    {
      Anim(currentTextIndex, currentCharIndex, isDeleting, isPaused, display)
    }

    ghost predicate Valid()
      reads this
    {
      Inv(texts, options.loop, State())
    }

    /** Merges the options and runs the first tick, as `init()` does. */
    constructor (texts: seq<JsString>, opts: Options)
      requires GoodTexts(texts)
      ensures Valid()
      ensures this.texts == texts && options == MergeOptions(opts)
      ensures State() == Next(texts, options.loop, Start())
    {
      this.texts := texts;
      options := MergeOptions(opts);
      currentTextIndex, currentCharIndex := 0, 0;
      isDeleting, isPaused := false, false;
      display := [];
      new;
      var _ := Step();
    }

    /**
     One call of `type()`. Returns the base delay before the next call: the
     pause delay after a paused tick, otherwise the back speed while deleting
     and the type speed while typing, chosen after this tick's update.
     */
    method Step() returns (delay: int)
      requires Valid()
      modifies this
      ensures Valid()
      ensures State() == Next(texts, options.loop, old(State()))
      ensures old(isPaused) ==> && !isPaused && display == old(display)
                                && currentTextIndex == old(currentTextIndex)
                                && currentCharIndex == old(currentCharIndex)
                                && isDeleting == old(isDeleting)
                                && delay == options.pauseDelay
      ensures !old(isPaused) ==> delay == (if isDeleting then options.backSpeed else options.typeSpeed)
      ensures !old(isPaused) && !old(isDeleting) && currentCharIndex == |texts[currentTextIndex]|
              ==> isPaused && isDeleting == options.loop
      ensures !old(isPaused) && old(isDeleting) && currentCharIndex == 0
              ==> !isDeleting && currentTextIndex == (old(currentTextIndex) + 1) % |texts|
      ensures options.loop ==> && 0 <= currentCharIndex <= |texts[currentTextIndex]|
                               && display == texts[currentTextIndex][..currentCharIndex]
    {
      var currentText := texts[currentTextIndex];

      if isPaused {
        isPaused := false;
        delay := options.pauseDelay;
        return;
      }

      if isDeleting {
        display := Prefix(currentText, currentCharIndex - 1);
        currentCharIndex := currentCharIndex - 1;
        if currentCharIndex == 0 {
          isDeleting := false;
          currentTextIndex := (currentTextIndex + 1) % |texts|;
        }
      } else {
        display := Prefix(currentText, currentCharIndex + 1);
        currentCharIndex := currentCharIndex + 1;
        if currentCharIndex == |currentText| {
          isPaused := true;
          if options.loop {
            isDeleting := true;
          }
        }
      }

      delay := if isDeleting then options.backSpeed else options.typeSpeed;
    }
  }

  /**
   The phrases ["AB", "C"] with `loop` on render "A", "AB", (pause), "A", "",
   "C", (pause), "", and are then back at the start.
   */
  lemma TwoPhraseScenario()
    ensures var texts := [Utf16("AB"), Utf16("C")];
            && Run(texts, true, Start(), 1).display == Utf16("A")
            && Run(texts, true, Start(), 2).display == Utf16("AB")
            && Run(texts, true, Start(), 3).display == Utf16("AB")
            && Run(texts, true, Start(), 4).display == Utf16("A")
            && Run(texts, true, Start(), 5).display == []
            && Run(texts, true, Start(), 6).display == Utf16("C")
            && Run(texts, true, Start(), 7).display == Utf16("C")
            && Run(texts, true, Start(), 8) == Start()
  {
  }

  /**
   A phrase of one character outside the Basic Multilingual Plane is two code
   units long. The first tick shows a lone high surrogate without pausing, the
   second shows the whole character and pauses, and one cycle takes five ticks.
   */
  lemma AstralPhraseScenario()
    ensures var texts := [Utf16("\U{1F600}")];
            && texts[0] == [0xD83D, 0xDE00]
            && Run(texts, true, Start(), 1) == Anim(0, 1, false, false, [0xD83D])
            && Run(texts, true, Start(), 2) == Anim(0, 2, true, true, [0xD83D, 0xDE00])
            && Run(texts, true, Start(), 5) == Start()
  {
    var texts := [Utf16("\U{1F600}")];
    assert texts[0] == [0xD83D, 0xDE00];
    FullCycle(texts, 0, []);
  }
}
