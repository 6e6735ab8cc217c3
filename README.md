# Colour game: a Dafny model of the game screen

The game shows two colour swatches, speaks "Which colour is X?", and the
player taps the swatch that matches. The whole game is one React component,
`src/App.jsx`. This project models the three parts of it that are logic rather
than rendering:

- **Voice selector** (`voices.dfy`, module `Voices`). From the platform's list
  of speech voices it picks one with a cascade of five first-match scans. The
  scans are, in order:
  1. an exact allow-listed name;
  2. "Google US English" in the name;
  3. a quality marker in the name, with an English `lang`;
  4. a female-name marker in the name, with an English `lang`;
  5. any English `lang`.

  When all five find nothing it takes the first voice, and an empty list gives
  no voice. `SelectVoice` is the cascade as the component writes it. The lemmas
  prove both directions of the rule "the first voice, in list order, of the
  highest-priority tier any voice meets; otherwise the first voice".
- **Round generator** (`colours.dfy`, module `Colours`, and
  `Game.GameScreen.GenerateRound`). This part holds the eight-colour catalogue
  and the rejection loop that draws a distractor different from the target.
  A round is the target and the distractor, ordered by a coin flip.
- **Game controller** (`game.dfy`, class `Game.GameScreen`). The component's
  state is `started`, `status` (playing, correct or wrong), `target`,
  `options`, the voice list and the selected voice. It is updated by the start
  button, by a tap on a swatch, and by the two timer callbacks that follow an
  answer. `Valid()` is the invariant every handler keeps: once a round exists,
  the options are two different catalogue colours, one of them the target; and
  the selected voice is always the selector's choice from the current list.

Helpers: `search.dfy` (module `Search`) gives `Array.prototype.find` (as the
index it stops at), `startsWith` and `includes`. `wrappers.dfy` gives `Option`,
which stands for `null`/`undefined`.

Randomness is passed in as parameters. `targetDraw` is
`Math.floor(Math.random() * 8)`. `draws` is the sequence of draws the rejection
loop makes. `targetFirst` is `Math.random() > 0.5`. Timers are modelled as
values: a handler returns the `Timer` (delay and continuation) it schedules, and
the host later calls the matching method (`OnCorrectTimeout`,
`OnWrongTimeout`) or `Speak` for the round's question. Nothing cancels the
question, correct-answer or wrong-answer timers; only the one-second voice
reload timer is cleared, when the component unmounts (src/App.jsx:85). So the
timeout methods accept any state. `StaleResumeScenario` shows the
consequence: a correct tap made less than 2 s after a wrong one is followed by
the older resume. That resume sets the status back to playing while the next
round is still pending, and a further tap is judged again.

Two behaviours of the component worth noting:

- Only `correct` ignores taps (src/App.jsx:139). A tap while the status is `wrong` is judged like
  one while `playing`, so `wrong` can move straight to `correct` or stay
  `wrong`.
- The start handler sets `started` and then generates the round
  (src/App.jsx:133-135). React applies
  both updates together. The model generates the round first and then sets
  `started`, which ends in the same state.

## Model

| member | source | states |
|---|---|---|
| Search.FindIndex | src/App.jsx:35-40 | `find` returns the index of an element that satisfies the predicate, and no earlier element satisfies it; it returns none only when no element does |
| Search.FindIndexIsFirst | src/App.jsx:35-40 | a scan stops at the first satisfying element, whatever comes after it |
| Search.ContainsIffOccurs | src/App.jsx:52-54 | `includes` holds exactly when the substring occurs at some offset of the name |
| Voices.SelectVoice | src/App.jsx:72 | the selector returns no voice exactly when the list is empty; any voice it returns is an element of the list |
| Voices.SelectVoiceHighestTier | src/App.jsx:43-70 | say no voice meets tiers 1..k-1 and `vs[i]` is the first voice meeting tier k. Then `vs[i]` is chosen |
| Voices.SelectVoicePrefersAllowList | src/App.jsx:35-40 | the first voice named Matilda, Matilda Premium, Ava or Ava Premium is chosen, whatever later-tier candidates the list holds |
| Voices.SelectVoiceFallsBackToFirst | src/App.jsx:72 | on a non-empty list where no voice meets any tier, element 0 is chosen |
| Voices.SelectVoiceExplained | src/App.jsx:35-72 | the converse: every choice from a non-empty list is the first voice of the highest tier that some voice meets, or element 0 when no voice meets any tier |
| Voices.NonEnglishChoiceExplained | src/App.jsx:50-72 | a chosen voice with a non-English `lang` came from tier 1 or tier 2, or it is element 0 of a list with no English voice at all; so tiers 3, 4 and 5 only choose English voices |
| Colours.CatalogueNamesDistinct | src/App.jsx:4-13 | the catalogue has eight entries with pairwise distinct names |
| Colours.SameNameSameColor | src/App.jsx:4-13 | a catalogue colour is determined by its name |
| Colours.ExactlyOneOptionMatches | src/App.jsx:141 | in a round, exactly one of the two options has the target's name |
| Colours.FirstOtherDrawUnique | src/App.jsx:114-117 | the rejection loop can keep only one draw: the first one that differs from the target |
| Colours.DrawnRoundIsRound | src/App.jsx:111-122 | a round built from a target draw, the first differing draw and either order is two different catalogue colours, one of them the target |
| Colours.DrawDistractor | src/App.jsx:114-118 | the do-while loop ends on the first draw that differs from the target index; that draw is a catalogue index |
| Game.GameScreen.constructor | src/App.jsx:16-23 | initial state: not started, status playing, no target, no options, no voices, no selected voice |
| Game.GameScreen.LoadVoices | src/App.jsx:27-73 | the voice list is replaced and the selected voice becomes the selector's choice from it; the game state is unchanged |
| Game.GameScreen.Speak | src/App.jsx:90-106 | with speech unsupported nothing is spoken. Otherwise the request carries the text and the selected voice, and the voice is unset exactly when the voice list is empty |
| Game.GameScreen.GenerateRound | src/App.jsx:108-131 | status becomes playing. The target is the drawn colour and the options are the drawn round in the flipped order; they form a round. The question is scheduled 800 ms ahead; nothing else changes |
| Game.GameScreen.HandleStart | src/App.jsx:133-136 | the game is started and a round is generated, as in GenerateRound |
| Game.GameScreen.HandleChoice | src/App.jsx:138-157 | while correct, nothing changes. Otherwise a tap on the target's name moves to correct, praises the target and schedules the next round in 3 s. Any other tap moves to wrong, asks for a retry and schedules the resume in 2 s. Target and options never change |
| Game.GameScreen.OnCorrectTimeout | src/App.jsx:145-147 | a fresh round is generated: status playing, round invariants hold |
| Game.GameScreen.OnWrongTimeout | src/App.jsx:153-155 | status returns to playing, and target, options and everything else are unchanged |

## Left out

- The Web Speech API is left out: `getVoices`, `cancel`, `speak`,
  `SpeechSynthesisUtterance` and the check for speech support. The voice list
  is a parameter of `LoadVoices`. Speech support is a parameter of `Speak`,
  which returns the request it would submit. The cancel before each utterance
  is platform I/O.
- The speech rate 0.8 and pitch 1.0 are floating-point constants passed to the
  platform, so they are not modelled.
- Scheduling is not modelled: `setTimeout`, `clearTimeout`, the
  `onvoiceschanged` registration and its cleanup, and the one-second voice
  reload. Handlers return the timer they schedule, and the host calls the
  continuation. `LoadVoices` may be called any number of times, which covers
  the repeated reloads.
- The question callback keeps the `speak` function from the render that
  created it, which may be bound to an earlier selected voice. The model binds
  the voice when `Speak` is called.
- `Math.random` and its uniformity are left out, and so is the even coin flip.
  Draws are parameters, taken to lie in 0..7 as `Math.floor(Math.random() * 8)`
  does.
- Termination of the rejection loop under real randomness cannot be proved.
  `GenerateRound`, `HandleStart`, `OnCorrectTimeout` and `DrawDistractor`
  require a draw sequence that holds at least one index other than the target's.
- `HandleChoice` requires `started`. Swatches are only rendered after the
  start, and before it `target` is `null`.
- Rendering is not modelled: JSX, Tailwind classes, the "Audio Ready" and
  "Voice:" labels, and the highlight and dimming of swatches.
