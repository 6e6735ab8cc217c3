/**
 * The fixed colour catalogue and the shape of a round: a target colour and two
 * options, the target and one different distractor, in either order.
 */
module Colours {
  /** A catalogue entry: its spoken name and its RGB hex code. */
  datatype Color = Color(name: string, hex: string)

  /** The eight high-saturation colours, in catalogue order. */
  const Catalogue: seq<Color> := [
    Color("Red", "#FF0000"),
    Color("Blue", "#0000FF"),
    Color("Green", "#00FF00"),
    Color("Yellow", "#FFFF00"),
    Color("Orange", "#FFA500"),
    Color("Purple", "#800080"),
    Color("Pink", "#FF1493"),
    Color("White", "#FFFFFF")
  ]

  /** No two catalogue entries share a name. */
  lemma CatalogueNamesDistinct()
    ensures |Catalogue| == 8
    ensures forall i, j :: 0 <= i < j < |Catalogue| ==> Catalogue[i].name != Catalogue[j].name
  {
  }

  /** A catalogue entry is determined by its name. */
  lemma SameNameSameColor(a: Color, b: Color)
    requires a in Catalogue && b in Catalogue
    requires a.name == b.name
    ensures a == b
  {
    CatalogueNamesDistinct();
  }

  /** `options` is a round for `target`: two different catalogue colours, one of them the target. */
  ghost predicate IsRound(target: Color, options: seq<Color>) {
    |options| == 2
    && options[0] in Catalogue && options[1] in Catalogue
    && options[0] != options[1]
    && (options[0] == target || options[1] == target)
  }

  /** In a round exactly one of the two options carries the target's name. */
  lemma ExactlyOneOptionMatches(target: Color, options: seq<Color>)
    requires IsRound(target, options)
    ensures (options[0].name == target.name) != (options[1].name == target.name)
  {
    if options[0].name == options[1].name {
      SameNameSameColor(options[0], options[1]);
    }
  }

  /** `draws[k]` is the first draw that differs from `targetIndex`: the one the rejection loop keeps. */
  ghost predicate IsFirstOtherDraw(draws: seq<nat>, targetIndex: nat, k: nat) {
    k < |draws| && draws[k] != targetIndex
    && forall j :: 0 <= j < k ==> draws[j] == targetIndex
  }

  /** The rejection loop keeps one draw only: the first that differs from the target. */
  lemma FirstOtherDrawUnique(draws: seq<nat>, targetIndex: nat, k1: nat, k2: nat)
    requires IsFirstOtherDraw(draws, targetIndex, k1) && IsFirstOtherDraw(draws, targetIndex, k2)
    ensures k1 == k2
  {
  }

  /**
   * `target` and `options` are the round drawn from `targetDraw`, the draws of
   * the rejection loop and the coin flip: the target first exactly when
   * `targetFirst`.
   */
  ghost predicate DrawnRound(targetDraw: nat, draws: seq<nat>, targetFirst: bool, target: Color, options: seq<Color>) {
    targetDraw < |Catalogue| && target == Catalogue[targetDraw]
    && exists k: nat :: (IsFirstOtherDraw(draws, targetDraw, k) && draws[k] < |Catalogue|
      && options == (if targetFirst then [target, Catalogue[draws[k]]] else [Catalogue[draws[k]], target]))
  }

  /** A drawn round is a round: two different catalogue colours, one of them the target. */
  lemma DrawnRoundIsRound(targetDraw: nat, draws: seq<nat>, targetFirst: bool, target: Color, options: seq<Color>)
    requires DrawnRound(targetDraw, draws, targetFirst, target, options)
    ensures IsRound(target, options)
  {
    var k: nat :| IsFirstOtherDraw(draws, targetDraw, k) && draws[k] < |Catalogue|
      && options == (if targetFirst then [target, Catalogue[draws[k]]] else [Catalogue[draws[k]], target]);
    CatalogueNamesDistinct();
    assert Catalogue[draws[k]].name != target.name;
  }

  /**
   * The rejection loop: draw catalogue indices in turn until one differs from
   * `targetIndex`. `draws` stands for the successive random draws; it must hold
   * at least one index other than the target's for the loop to stop.
   */
  method DrawDistractor(targetIndex: nat, draws: seq<nat>) returns (distractorIndex: nat, tries: nat)
    requires forall j :: 0 <= j < |draws| ==> draws[j] < |Catalogue|
    requires exists j :: 0 <= j < |draws| && draws[j] != targetIndex
    ensures IsFirstOtherDraw(draws, targetIndex, tries) && distractorIndex == draws[tries]
    ensures distractorIndex != targetIndex && distractorIndex < |Catalogue|
  {
    ghost var w :| 0 <= w < |draws| && draws[w] != targetIndex;
    tries := 0;
    distractorIndex := draws[0];
    while distractorIndex == targetIndex
      invariant tries <= w && distractorIndex == draws[tries]
      invariant forall j :: 0 <= j < tries ==> draws[j] == targetIndex
      decreases w - tries
    {
      tries := tries + 1;
      distractorIndex := draws[tries];
    }
  }
}
