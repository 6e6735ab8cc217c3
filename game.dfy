/**
 * The game screen's controller: the component state (started, status, target,
 * options, the voice list and the selected voice) and the event handlers that
 * update it. Each timer callback is a method the host calls when its delay has
 * elapsed; nothing cancels the question, correct-answer or wrong-answer
 * timers, so the timeout methods accept any state.
 */
module Game {
  import opened Wrappers
  import opened Voices
  import opened Colours

  datatype Status = Playing | Correct | Wrong

  /** What a scheduled callback does when it fires. */
  datatype Continuation =
    | AskPrompt(text: string)  // speak the round's question
    | NextRound                // OnCorrectTimeout
    | Resume                   // OnWrongTimeout

  /** A one-shot callback scheduled `delayMs` milliseconds ahead. */
  datatype Timer = Timer(delayMs: nat, action: Continuation)

  /** A request handed to the platform's speech synthesiser; no voice means the platform default. */
  datatype Utterance = Utterance(text: string, voice: Option<Voice>)

  const PromptDelayMs: nat := 800
  const CorrectDelayMs: nat := 3000
  const WrongDelayMs: nat := 2000

  function Prompt(c: Color): (s: string) { "Which colour is " + c.name + "?" }
  function Praise(c: Color): (s: string) { "Yes! That is " + c.name + "!" }
  const RetryPhrase: string := "Not quite. Try again."

  class GameScreen {
    var started: bool
    var status: Status
    var target: Option<Color>
    var options: seq<Color>
    var voices: seq<Voice>
    var selectedVoice: Option<Voice>

    /**
     * Before the first round there is no target and no option; from then on the
     * options form a round for the target. The selected voice is always the
     * selector's choice from the current voice list.
     */
    ghost predicate Valid()
      reads this
    {
      (target.None? ==> options == [] && !started)
      && (target.Some? ==> IsRound(target.value, options))
      && (started ==> target.Some?)
      && selectedVoice == SelectVoice(voices)
    }

    constructor ()
      ensures Valid()
      ensures !started && status == Playing && target == None && options == []
      ensures voices == [] && selectedVoice == None
    {
      started := false;
      status := Playing;
      target := None;
      options := [];
      voices := [];
      selectedVoice := None;
    }

    /** The platform reports its voice list: store it and re-run the selector, replacing the previous choice. */
    method LoadVoices(available: seq<Voice>)
      requires Valid()
      modifies this
      ensures Valid()
      ensures voices == available && selectedVoice == SelectVoice(available)
      ensures started == old(started) && status == old(status)
      ensures target == old(target) && options == old(options)
    {
      voices := available;
      selectedVoice := SelectVoice(available);
    }

    /**
     * The speech helper: None when the platform has no speech capability;
     * otherwise the request for `text`, bound to the selected voice when there
     * is one. With an empty voice list the voice stays unset.
     */
    method Speak(text: string, speechSupported: bool) returns (u: Option<Utterance>)
      requires Valid()
      ensures u.None? <==> !speechSupported
      ensures u.Some? ==> u.value.text == text && u.value.voice == selectedVoice
      ensures u.Some? ==> (u.value.voice.None? <==> voices == [])
      ensures u.Some? && u.value.voice.Some? ==> u.value.voice.value in voices
    {
      if speechSupported {
        u := Some(Utterance(text, selectedVoice));
      } else {
        u := None;
      }
    }

    /**
     * A new round: status back to playing, the target drawn at `targetDraw`, the
     * distractor at the first of `draws` that differs from it, and the target
     * first exactly when `targetFirst` (the coin flip came out above one half).
     * The question is asked by a callback 800 ms later.
     */
    method GenerateRound(targetDraw: nat, draws: seq<nat>, targetFirst: bool) returns (timer: Timer)
      requires Valid()
      requires targetDraw < |Catalogue|
      requires forall j :: 0 <= j < |draws| ==> draws[j] < |Catalogue|
      requires exists j :: 0 <= j < |draws| && draws[j] != targetDraw
      modifies this
      ensures Valid()
      ensures status == Playing && target == Some(Catalogue[targetDraw])
      ensures IsRound(target.value, options)
      ensures DrawnRound(targetDraw, draws, targetFirst, target.value, options)
      ensures timer == Timer(PromptDelayMs, AskPrompt(Prompt(Catalogue[targetDraw])))
      ensures started == old(started) && voices == old(voices) && selectedVoice == old(selectedVoice)
    {
      status := Playing;
      var targetColor := Catalogue[targetDraw];
      var distractorIndex, tries := DrawDistractor(targetDraw, draws);
      var distractorColor := Catalogue[distractorIndex];
      if targetFirst {
        options := [targetColor, distractorColor];
      } else {
        options := [distractorColor, targetColor];
      }
      target := Some(targetColor);
      timer := Timer(PromptDelayMs, AskPrompt(Prompt(targetColor)));
      assert DrawnRound(targetDraw, draws, targetFirst, targetColor, options);
      DrawnRoundIsRound(targetDraw, draws, targetFirst, targetColor, options);
    }

    /**
     * The start button: mark the game started and generate the first round. The
     * handler's state updates take effect together, so the round is generated
     * first here.
     */
    method HandleStart(targetDraw: nat, draws: seq<nat>, targetFirst: bool) returns (timer: Timer)
      requires Valid()
      requires targetDraw < |Catalogue|
      requires forall j :: 0 <= j < |draws| ==> draws[j] < |Catalogue|
      requires exists j :: 0 <= j < |draws| && draws[j] != targetDraw
      modifies this
      ensures Valid() && started
      ensures status == Playing && target == Some(Catalogue[targetDraw])
      ensures IsRound(target.value, options)
      ensures DrawnRound(targetDraw, draws, targetFirst, target.value, options)
      ensures timer == Timer(PromptDelayMs, AskPrompt(Prompt(Catalogue[targetDraw])))
      ensures voices == old(voices) && selectedVoice == old(selectedVoice)
    {
      timer := GenerateRound(targetDraw, draws, targetFirst);
      started := true;
    }

    /**
     * A tap on a swatch. Ignored while the status is correct; otherwise a colour
     * named like the target moves to correct, praises it and schedules the next
     * round in 3 s, and any other colour moves to wrong, asks for a retry and
     * schedules the resume in 2 s. Only `correct` is guarded, so a tap while
     * wrong is judged like one while playing. The round itself is never touched.
     */
    method HandleChoice(selected: Color) returns (said: Option<string>, timer: Option<Timer>)
      requires Valid() && started
      modifies this
      ensures Valid()
      ensures target == old(target) && options == old(options) && started == old(started)
      ensures voices == old(voices) && selectedVoice == old(selectedVoice)
      ensures old(status) == Correct ==> status == Correct && said == None && timer == None
      ensures old(status) != Correct && selected.name == target.value.name ==>
        status == Correct && said == Some(Praise(target.value)) && timer == Some(Timer(CorrectDelayMs, NextRound))
      ensures old(status) != Correct && selected.name != target.value.name ==>
        status == Wrong && said == Some(RetryPhrase) && timer == Some(Timer(WrongDelayMs, Resume))
    {
      if status == Correct {
        return None, None;
      }
      if selected.name == target.value.name {
        status := Correct;
        said := Some(Praise(target.value));
        timer := Some(Timer(CorrectDelayMs, NextRound));
      } else {
        status := Wrong;
        said := Some(RetryPhrase);
        timer := Some(Timer(WrongDelayMs, Resume));
      }
    }

    /** The callback scheduled by a correct answer: a fresh round. */
    method OnCorrectTimeout(targetDraw: nat, draws: seq<nat>, targetFirst: bool) returns (timer: Timer)
      requires Valid()
      requires targetDraw < |Catalogue|
      requires forall j :: 0 <= j < |draws| ==> draws[j] < |Catalogue|
      requires exists j :: 0 <= j < |draws| && draws[j] != targetDraw
      modifies this
      ensures Valid()
      ensures status == Playing && target == Some(Catalogue[targetDraw])
      ensures IsRound(target.value, options)
      ensures DrawnRound(targetDraw, draws, targetFirst, target.value, options)
      ensures timer == Timer(PromptDelayMs, AskPrompt(Prompt(Catalogue[targetDraw])))
      ensures started == old(started) && voices == old(voices) && selectedVoice == old(selectedVoice)
    {
      timer := GenerateRound(targetDraw, draws, targetFirst);
    }

    /** The callback scheduled by a wrong answer: back to playing on the same round. */
    method OnWrongTimeout()
      requires Valid()
      modifies this
      ensures Valid() && status == Playing
      ensures target == old(target) && options == old(options) && started == old(started)
      ensures voices == old(voices) && selectedVoice == old(selectedVoice)
    {
      status := Playing;
    }
  }

  /**
   * The wrong-answer path: target Blue, options [Blue, Red]; tapping Red moves
   * to wrong without touching the round, and the resume restores playing on the
   * same round.
   */
  method WrongThenResumeScenario()
  {
    var g := new GameScreen();
    var draws: seq<nat> := [1, 0];
    assert draws[1] != 1;
    var prompt := g.HandleStart(1, draws, true);
    assert g.target == Some(Color("Blue", "#0000FF"));
    assert g.options == [Color("Blue", "#0000FF"), Color("Red", "#FF0000")] by {
      var k: nat :| IsFirstOtherDraw(draws, 1, k) && draws[k] < |Catalogue| && g.options == [Catalogue[1], Catalogue[draws[k]]];
      assert IsFirstOtherDraw(draws, 1, 1);
      FirstOtherDrawUnique(draws, 1, k, 1);
    }
    var said, timer := g.HandleChoice(Color("Red", "#FF0000"));
    assert g.status == Wrong && timer == Some(Timer(2000, Resume));
    assert g.options == [Color("Blue", "#0000FF"), Color("Red", "#FF0000")];
    g.OnWrongTimeout();
    assert g.status == Playing && g.target == Some(Color("Blue", "#0000FF"));
    said, timer := g.HandleChoice(Color("Blue", "#0000FF"));
    assert g.status == Correct && said == Some(Praise(Color("Blue", "#0000FF")));
    said, timer := g.HandleChoice(Color("Red", "#FF0000"));
    assert g.status == Correct && said == None;
  }

  /**
   * Timers are never cancelled: a correct tap made within 2 s of a wrong one is
   * followed by the earlier resume, which sets the status back to playing while
   * the next round is still pending, so a further tap is judged again.
   */
  method StaleResumeScenario()
  {
    var g := new GameScreen();
    assert [1, 0][1] != 1;
    var prompt := g.HandleStart(1, [1, 0], false);
    var said, timer := g.HandleChoice(Color("Red", "#FF0000"));
    said, timer := g.HandleChoice(Color("Blue", "#0000FF"));
    assert g.status == Correct;
    g.OnWrongTimeout();
    assert g.status == Playing;
    said, timer := g.HandleChoice(Color("Blue", "#0000FF"));
    assert g.status == Correct && timer == Some(Timer(3000, NextRound));
  }
}
