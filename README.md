# Typewriter title of the home page

The home page (`Home` in `src/app/page.tsx`) animates its title like a
typewriter. It types the joke `"/Colby/Cheese"` one character per timer tick,
backspaces to the shared prefix `"/Colby/Ch"`, types the real name
`"/Colby/Chance"` and then stops. The page keeps two state cells, the
displayed text and a numeric phase tag. Each tick runs one `switch` over the
phase. In each phase the tick either moves on to the next phase, when the text
has reached that phase's target, or adds or removes one character.

The project has two modules:

- `Typewriter` (`typewriter.dfy`) is the state machine on values. It holds the
  three strings, the `Phase` datatype and the numeric tags, the tick `Step`,
  the invariant `Consistent` that every reached configuration satisfies, the
  measure `Remaining`, the n-tick run `StepN`, and the lemmas about them.
- `HomePage` (`home.dfy`) is the class `Home` with the two mutable cells. Its
  `Tick` method runs the `switch` in place. `Animate` is the chain of timer
  callbacks, written as a loop that runs until `Done`.

JavaScript's `s.slice(0, n)` is modelled as the prefix of `s` of length
`min(n, |s|)`, for `n >= 0`. The one negative end the code could produce is
`slice(0, -1)`, when backspacing from an empty text. `Step` is defined only
where that cannot happen (`SliceEndNonNegative`). `ConsistentHasSliceEnd`
proves that every consistent configuration is in that domain. Since `Phase` is
a datatype, the `switch`'s `default` branch ("Unhandled state") cannot be
reached. `FromCode` models reading a numeric tag back: it returns `None` for
that branch, and `CodeRoundTrip` shows that no stored phase reaches it.

A tick that moves to the next phase leaves the text as it is
(src/app/page.tsx:28-29, 38-39, 48-49). So the length changes by one only on
ticks that stay in their phase. `Step`'s contract says that every tick before
`Done` changes exactly one of the two cells.

## Model

| member | source | states |
|---|---|---|
| Typewriter.Code | src/app/page.tsx:13-18 | every tag is at most 3; the body is the page's State table |
| Typewriter.NextPhase | src/app/page.tsx:29-49 | the phase each `setState` call moves to has the tag one higher, so the phases are visited in the order of their tags |
| Typewriter.Target | src/app/page.tsx:28-48 | the texts the guards compare against (joke, common prefix, name) all start with the common prefix, and only the erasing phase's target is as short as it |
| Typewriter.FromCode | src/app/page.tsx:61-62 | a numeric tag is handled exactly when it lies in 0..3, and a handled tag maps to the phase with that code; any other tag is the error branch |
| Typewriter.CodeRoundTrip | src/app/page.tsx:26-63 | the tag of every phase is handled by the switch, so the "Unhandled state" branch is never taken |
| Typewriter.Slice | src/app/page.tsx:31-33 | `slice(0, n)` with a non-negative end gives a prefix of the string whose length is `min(n, length)` |
| Typewriter.Step | src/app/page.tsx:26-64 | `Done` is absorbing; every other tick changes exactly one of phase and text, never both; the phase tag never decreases and goes up by at most one |
| Typewriter.StepAdvancesExactlyAtTarget | src/app/page.tsx:27-56 | a tick changes the phase if and only if the text equals the phase's target (joke, common prefix, name), and then it moves to the next phase with the text unchanged |
| Typewriter.CommonIsLongestSharedPrefix | src/app/page.tsx:6-8 | `"/Colby/Ch"` is a prefix of both the joke and the name, and the two differ at the next character |
| Typewriter.InitialIsConsistent | src/app/page.tsx:22-23 | the initial configuration ("/", typing the joke) and the final one (the name, done) satisfy the invariant |
| Typewriter.ConsistentHasSliceEnd | src/app/page.tsx:41-43 | in every consistent configuration, the backspace slice end `length - 1` is non-negative |
| Typewriter.StepPreservesConsistent | src/app/page.tsx:26-64 | a tick preserves the invariant: the text is a prefix of the joke while typing it, lies between the common prefix and the joke while erasing, lies between the common prefix and the name while typing the name, and is the name when done |
| Typewriter.StepTypes | src/app/page.tsx:27-55 | while typing the joke or the name and before the target, a tick keeps the phase and appends the target's next character, so the text grows by one and stays a prefix of the target |
| Typewriter.StepErases | src/app/page.tsx:37-45 | while erasing and before the common prefix, a tick keeps the phase and drops the text's last character (slicing the joke and slicing the text agree), so it shrinks by one and still starts with the common prefix |
| Typewriter.RemainingZeroIffDone | src/app/page.tsx:57-60 | no ticks remain exactly when the machine is done |
| Typewriter.StepDecreasesRemaining | src/app/page.tsx:26-64 | each tick before `Done` lowers the remaining tick count by exactly one |
| Typewriter.StepN | src/app/page.tsx:24-66 | any number of ticks from a consistent configuration keeps the invariant, and the phase tag never goes down |
| Typewriter.DoneIsAbsorbing | src/app/page.tsx:57-60 | once done with the name, any number of further ticks leaves phase and text unchanged |
| Typewriter.RunReachesDone | src/app/page.tsx:24-66 | from every consistent configuration the machine is done with the full name after exactly `Remaining` ticks, and not done before |
| Typewriter.TypeRun | src/app/page.tsx:27-55 | k ticks of typing from a prefix of the target give the target's prefix that is k characters longer |
| Typewriter.EraseRun | src/app/page.tsx:37-45 | k ticks of erasing give the joke's prefix that is k characters shorter, down to the common prefix |
| Typewriter.InitialRun | src/app/page.tsx:22-66 | from "/": the joke is typed over ticks 0 to 12, erased to "/Colby/Ch" over ticks 13 to 17, and the name typed over ticks 18 to 22; from tick 23 on, the machine is done with "/Colby/Chance" |
| HomePage.Home.constructor | src/app/page.tsx:22-23 | the cells start as "/" and typing the joke, which is consistent and 23 ticks from done |
| HomePage.Home.Tick | src/app/page.tsx:25-64 | one callback updates the two cells in place to exactly `Step` of their old values, keeps the invariant, and lowers the remaining count by one unless done |
| HomePage.Home.Animate | src/app/page.tsx:24-66 | running callbacks until done ends with the full name, after exactly the remaining number of ticks, in the state `StepN` predicts |

## Left out

- The scheduling itself is not modelled: `setTimeout`, the 100 ms delay and the re-run of the effect through its dependency array. One tick is one call of `Step` or `Tick`, and `Animate` runs them back to back.
- React's functional updater and batching are not modelled. The updater's `prev` is taken to be the current text cell.
- Cancelling pending callbacks when the component unmounts is not modelled, because the page has no unmount logic of its own.
- The model assumes a single chain of timer callbacks, with one callback pending at a time. The effect returns no `clearTimeout` cleanup, so a second mount of the component (React's development-mode double mount) would start a second chain with stale closures; that interleaving is not modelled.
- The rendered markup of `Home` (the `Title` element and the paragraph) is not modelled; it is presentation only.
- `src/app/layout.tsx` is not modelled: it is static composition of navbar, page and footer.
- `src/app/components/admonition.tsx` is not modelled: it is presentational markup whose only logic is a title fallback.
- The imported `Title`, `Navbar` and `Footer` components are not part of this model.
- Typewriter.Slice: does not model a negative end (JavaScript counts it from the end of the string), because no consistent configuration produces one (`ConsistentHasSliceEnd`).
- String lengths are counted in characters, not UTF-16 code units. All three strings are ASCII, so the two counts agree.
