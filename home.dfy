/**
 * The home page component's two state cells, displayedText and state, as an
 * object whose Tick method applies one timer callback in place.
 */
module HomePage {
  import opened Typewriter

  class Home {
    var displayedText: string
    var state: Phase

    /** The configuration the two cells hold. */
    function Current(): Config
      reads this
    {
      Config(state, displayedText)
    }

    ghost predicate Valid()
      reads this
    {
      Consistent(Current())
    }

    /** Mounting: the text starts as "/" and the joke is about to be typed. */
    constructor ()
      ensures Valid()
      ensures Current() == Initial
      ensures Remaining(Current()) == 23
    {
      displayedText := InitialText;
      state := ForwardJoke;
      InitialRun();
    }

    /** One timer callback: the switch over the current phase. */
    method Tick()
      requires Valid()
      modifies this
      ensures Valid()
      ensures Current() == Step(old(Current()))
      ensures old(state) != Done ==> Remaining(Current()) == old(Remaining(Current())) - 1
    {
      ConsistentHasSliceEnd(Current());
      StepPreservesConsistent(Current());
      ghost var before := Current();
      if before.phase != Done {
        StepDecreasesRemaining(before);
      }
      match state
      case ForwardJoke =>
        if displayedText == Joke {
          state := BackwardJoke;
        } else {
          displayedText := Slice(Joke, |displayedText| + 1);
        }
      case BackwardJoke =>
        if displayedText == Common {
          state := ForwardName;
        } else {
          displayedText := Slice(Joke, |displayedText| - 1);
        }
      case ForwardName =>
        if displayedText == Name {
          state := Done;
        } else {
          displayedText := Slice(Name, |displayedText| + 1);
        }
      case Done =>
    }

    /**
     * The chain of timer callbacks, each scheduling the next, until Done:
     * it ends with the full name after exactly the remaining number of ticks.
     */
    method Animate() returns (ticks: nat)
      requires Valid()
      modifies this
      ensures Valid()
      ensures Current() == Final
      ensures ticks == old(Remaining(Current()))
      ensures old(StepN(Current(), ticks)) == Final
    {
      ghost var start := Current();
      RunReachesDone(start, 0);
      ticks := 0;
      while state != Done
        invariant Valid()
        invariant ticks + Remaining(Current()) == Remaining(start)
        invariant Current() == StepN(start, ticks)
        decreases Remaining(Current())
      {
        RemainingZeroIffDone(Current());
        StepNAdd(start, ticks, 1);
        Tick();
        ticks := ticks + 1;
      }
      RemainingZeroIffDone(Current());
    }
  }
}
