/**
 * The typewriter animation of the home page title, as a pure state machine.
 *
 * The title is animated in three phases: type the joke "/Colby/Cheese" one
 * character per tick, backspace it to the prefix "/Colby/Ch" it shares with
 * the real name, then type the real name "/Colby/Chance". After that the
 * machine rests in Done. One timer tick is one application of Step.
 */
module Typewriter {

  const Name: string := "/Colby/Chance"
  const Joke: string := "/Colby/Cheese"
  const Common: string := "/Colby/Ch"

  /** The text shown before the first tick, so that the title does not pop in. */
  const InitialText: string := "/"

  /** The four animation phases; Code gives the numeric tag the page uses. */
  datatype Phase = ForwardJoke | BackwardJoke | ForwardName | Done

  /** The two state cells of the page: the phase and the text on screen. */
  datatype Config = Config(phase: Phase, text: string)

  const Initial: Config := Config(ForwardJoke, InitialText)
  const Final: Config := Config(Done, Name)

  /** The numeric value of each phase in the page's State table. */
  function Code(p: Phase): (n: nat)
    ensures n <= 3
  {
    match p
    case ForwardJoke => 0
    case BackwardJoke => 1
    case ForwardName => 2
    case Done => 3
  }

  /**
   * Reads a numeric state tag back. None is the switch's default branch,
   * which raises "Unhandled state".
   */
  function FromCode(n: int): (r: Option<Phase>)
    ensures r.Some? <==> 0 <= n <= 3
    ensures r.Some? ==> Code(r.value) == n
  {
    if n == 0 then Some(ForwardJoke)
    else if n == 1 then Some(BackwardJoke)
    else if n == 2 then Some(ForwardName)
    else if n == 3 then Some(Done)
    else None
  }

  datatype Option<T> = None | Some(value: T)

  /** Every phase the machine can store has a tag the switch handles. */
  lemma CodeRoundTrip(p: Phase)
    ensures FromCode(Code(p)) == Some(p)
  {
  }

  function Min(a: int, b: int): int
  {
    if a <= b then a else b
  }

  /**
   * JavaScript's s.slice(0, n) for a non-negative end: the prefix of s of
   * length min(n, |s|). A negative end is outside this model; see
   * SliceEndNonNegative.
   */
  function Slice(s: string, n: nat): (r: string)
    ensures |r| == Min(n, |s|)
    ensures r <= s
  {
    if n <= |s| then s[..n] else s
  }

  /**
   * The only place the page slices with an end that may be negative is the
   * backspace, at |text| - 1; Step is defined where that end is at least 0.
   */
  predicate SliceEndNonNegative(c: Config)
  {
    c.phase == BackwardJoke && c.text != Common ==> |c.text| >= 1
  }

  /**
   * One timer tick: each phase either moves to the next phase, when the text
   * has reached that phase's target, or changes the text by one character.
   */
  function Step(c: Config): (r: Config)
    requires SliceEndNonNegative(c)
    // Done is absorbing
    ensures c.phase == Done ==> r == c
    // every other tick changes exactly one of the two cells
    ensures c.phase != Done ==> (r.phase != c.phase <==> r.text == c.text)
    // phases only move forward, one at a time
    ensures Code(r.phase) == Code(c.phase) || Code(r.phase) == Code(c.phase) + 1
  {
    match c.phase
    case ForwardJoke =>
      if c.text == Joke then Config(BackwardJoke, c.text)
      else Config(ForwardJoke, Slice(Joke, |c.text| + 1))
    case BackwardJoke =>
      if c.text == Common then Config(ForwardName, c.text)
      else Config(BackwardJoke, Slice(Joke, |c.text| - 1))
    case ForwardName =>
      if c.text == Name then Config(Done, c.text)
      else Config(ForwardName, Slice(Name, |c.text| + 1))
    case Done => c
  }

  /** The text at which each phase hands over to the next one. */
  function Target(p: Phase): (t: string)
    ensures Common <= t
    ensures p == BackwardJoke <==> |t| == |Common|
  {
    match p
    case ForwardJoke => Joke
    case BackwardJoke => Common
    case ForwardName => Name
    case Done => Name
  }

  /** A tick changes the phase exactly when the text equals the phase's target. */
  lemma StepAdvancesExactlyAtTarget(c: Config)
    requires SliceEndNonNegative(c)
    requires c.phase != Done
    ensures Step(c).phase != c.phase <==> c.text == Target(c.phase)
    ensures c.text == Target(c.phase) ==> Step(c) == Config(NextPhase(c.phase), c.text)
  {
  }

  /** The phase each setState call in the switch moves to. */
  function NextPhase(p: Phase): (q: Phase)
    ensures p != Done ==> Code(q) == Code(p) + 1
  {
    match p
    case ForwardJoke => BackwardJoke
    case BackwardJoke => ForwardName
    case ForwardName => Done
    case Done => Done
  }

  /**
   * What holds of every configuration the animation reaches: while the joke
   * is typed the text is a prefix of the joke; while it is erased it lies
   * between the common prefix and the joke; while the name is typed it lies
   * between the common prefix and the name; when done it is the name.
   */
  predicate Consistent(c: Config)
  {
    match c.phase
    case ForwardJoke => c.text <= Joke
    case BackwardJoke => Common <= c.text && c.text <= Joke
    case ForwardName => Common <= c.text && c.text <= Name
    case Done => c.text == Name
  }

  /** The common prefix is a prefix of both strings, and no longer one is. */
  lemma CommonIsLongestSharedPrefix()
    ensures Common <= Joke && Common <= Name
    ensures |Common| < |Joke| && |Common| < |Name|
    ensures Joke[|Common|] != Name[|Common|]
  {
  }

  /** The animation starts, and ends, in a consistent configuration. */
  lemma InitialIsConsistent()
    ensures Consistent(Initial)
    ensures Consistent(Final)
  {
  }

  /** The negative slice end (slice(0, -1) on an empty text) is never reached. */
  lemma ConsistentHasSliceEnd(c: Config)
    requires Consistent(c)
    ensures SliceEndNonNegative(c)
  {
  }

  /** A tick is always defined on a consistent configuration and keeps it consistent. */
  lemma StepPreservesConsistent(c: Config)
    requires Consistent(c)
    ensures SliceEndNonNegative(c) && Consistent(Step(c))
  {
  }

  /** Lengths along a chain of prefixes p <= t <= s; a link that differs is strictly shorter. */
  lemma PrefixLengths(p: string, t: string, s: string)
    requires p <= t && t <= s
    ensures |p| <= |t| <= |s|
    ensures t != s ==> |t| < |s|
    ensures t != p ==> |p| < |t|
  {
  }

  /**
   * While typing (the joke or the name), a tick before the target appends
   * the target's next character: the text grows by one and stays a prefix.
   */
  lemma StepTypes(c: Config)
    requires Consistent(c)
    requires c.phase == ForwardJoke || c.phase == ForwardName
    requires c.text != Target(c.phase)
    ensures Step(c).phase == c.phase
    ensures |c.text| < |Target(c.phase)|
    ensures Step(c).text == c.text + [Target(c.phase)[|c.text|]]
    ensures |Step(c).text| == |c.text| + 1
    ensures Step(c).text <= Target(c.phase)
  {
  }

  /**
   * While erasing, a tick before the common prefix drops the last character
   * of the text: slicing the joke and slicing the text agree.
   */
  lemma StepErases(c: Config)
    requires Consistent(c)
    requires c.phase == BackwardJoke
    requires c.text != Common
    ensures Step(c).phase == BackwardJoke
    ensures |c.text| > |Common|
    ensures Step(c).text == c.text[..|c.text| - 1]
    ensures |Step(c).text| == |c.text| - 1
    ensures Common <= Step(c).text
  {
  }

  /** The number of ticks left before the machine is done. */
  function Remaining(c: Config): nat
    requires Consistent(c)
  {
    PrefixLengths([], Common, Joke);
    PrefixLengths([], Common, Name);
    match c.phase
    case ForwardJoke =>
      (|Joke| - |c.text|) + 1 + (|Joke| - |Common|) + 1 + (|Name| - |Common|) + 1
    case BackwardJoke =>
      PrefixLengths(Common, c.text, Joke);
      (|c.text| - |Common|) + 1 + (|Name| - |Common|) + 1
    case ForwardName =>
      PrefixLengths(Common, c.text, Name);
      (|Name| - |c.text|) + 1
    case Done => 0
  }

  lemma RemainingZeroIffDone(c: Config)
    requires Consistent(c)
    ensures Remaining(c) == 0 <==> c.phase == Done
  {
  }

  /** Every tick before Done brings the machine exactly one tick closer. */
  lemma StepDecreasesRemaining(c: Config)
    requires Consistent(c)
    requires c.phase != Done
    ensures SliceEndNonNegative(c) && Consistent(Step(c))
    ensures Remaining(Step(c)) == Remaining(c) - 1
  {
  }

  /** The configuration after n ticks. */
  function StepN(c: Config, n: nat): (r: Config)
    requires Consistent(c)
    ensures Consistent(r)
    ensures Code(c.phase) <= Code(r.phase)
    decreases n
  {
    if n == 0 then c
    else
      StepPreservesConsistent(c);
      StepN(Step(c), n - 1)
  }

  lemma {:induction false} StepNAdd(c: Config, a: nat, b: nat)
    requires Consistent(c)
    ensures StepN(c, a + b) == StepN(StepN(c, a), b)
    decreases a
  {
    if a > 0 {
      StepPreservesConsistent(c);
      StepNAdd(Step(c), a - 1, b);
    }
  }

  /** Once done, any number of further ticks changes nothing. */
  lemma {:induction false} DoneIsAbsorbing(n: nat)
    ensures StepN(Final, n) == Final
  {
    if n > 0 {
      DoneIsAbsorbing(n - 1);
    }
  }

  /**
   * From every consistent configuration the machine is done with the full
   * name after exactly Remaining(c) ticks, and not before.
   */
  lemma {:induction false} RunReachesDone(c: Config, k: nat)
    requires Consistent(c)
    ensures StepN(c, Remaining(c)) == Final
    ensures k < Remaining(c) ==> StepN(c, k).phase != Done
    decreases Remaining(c)
  {
    if c.phase != Done {
      StepDecreasesRemaining(c);
      RunReachesDone(Step(c), if k > 0 then k - 1 else 0);
    }
  }

  /** Typing from a prefix: after k ticks the text is the target's prefix k characters longer. */
  lemma {:induction false} TypeRun(c: Config, k: nat)
    requires Consistent(c)
    requires c.phase == ForwardJoke || c.phase == ForwardName
    requires |c.text| + k <= |Target(c.phase)|
    ensures StepN(c, k) == Config(c.phase, Target(c.phase)[..|c.text| + k])
    decreases k
  {
    var t := Target(c.phase);
    if k == 0 {
      if c.phase == ForwardJoke {
        assert c.text == t[..|c.text|];
      } else {
        assert c.text == t[..|c.text|];
      }
    } else {
      assert c.text != t;
      StepTypes(c);
      StepPreservesConsistent(c);
      TypeRun(Step(c), k - 1);
    }
  }

  /** Erasing: after k ticks the text is the joke's prefix k characters shorter. */
  lemma {:induction false} EraseRun(c: Config, k: nat)
    requires Consistent(c)
    requires c.phase == BackwardJoke
    requires |Common| + k <= |c.text|
    ensures StepN(c, k) == Config(BackwardJoke, Joke[..|c.text| - k])
    decreases k
  {
    if k == 0 {
      assert c.text == Joke[..|c.text|];
    } else {
      assert c.text != Common;
      StepErases(c);
      StepPreservesConsistent(c);
      assert Step(c).text == Joke[..|c.text| - 1];
      EraseRun(Step(c), k - 1);
    }
  }

  /**
   * The whole animation from "/": the joke is typed over ticks 0 to 12,
   * erased over ticks 13 to 17, the name typed over ticks 18 to 22, and at
   * tick 23 the machine is done with the full name; nothing changes after.
   */
  lemma InitialRun()
    ensures forall k :: 0 <= k <= 12 ==> StepN(Initial, k) == Config(ForwardJoke, Joke[..k + 1])
    ensures forall k :: 13 <= k <= 17 ==> StepN(Initial, k) == Config(BackwardJoke, Joke[..26 - k])
    ensures forall k :: 18 <= k <= 22 ==> StepN(Initial, k) == Config(ForwardName, Name[..k - 9])
    ensures Remaining(Initial) == 23
    ensures forall k :: 23 <= k ==> StepN(Initial, k) == Final
  {
    forall k | 0 <= k <= 12
      ensures StepN(Initial, k) == Config(ForwardJoke, Joke[..k + 1])
    {
      TypeRun(Initial, k);
    }
    var typed := Config(BackwardJoke, Joke);
    StepNAdd(Initial, 12, 1);
    assert StepN(Initial, 13) == typed;
    forall k | 13 <= k <= 17
      ensures StepN(Initial, k) == Config(BackwardJoke, Joke[..26 - k])
    {
      StepNAdd(Initial, 13, k - 13);
      EraseRun(typed, k - 13);
    }
    var erased := Config(ForwardName, Common);
    StepNAdd(Initial, 17, 1);
    assert StepN(Initial, 17) == Config(BackwardJoke, Common);
    assert StepN(Initial, 18) == erased;
    forall k | 18 <= k <= 22
      ensures StepN(Initial, k) == Config(ForwardName, Name[..k - 9])
    {
      StepNAdd(Initial, 18, k - 18);
      TypeRun(erased, k - 18);
    }
    forall k | 23 <= k
      ensures StepN(Initial, k) == Final
    {
      RunReachesDone(Initial, 0);
      StepNAdd(Initial, 23, k - 23);
      DoneIsAbsorbing(k - 23);
    }
  }
}
