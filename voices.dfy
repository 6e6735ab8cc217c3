/**
 * The voice selector of the game screen: from the platform's list of speech
 * voices it picks one by a fixed priority cascade of five `find` scans, and
 * falls back to the first voice of the list.
 */
module Voices {
  import opened Wrappers
  import opened Search

  /** The two fields of a platform voice record the selector looks at. */
  datatype Voice = Voice(name: string, lang: string)

  /** Tier 1: one of the known high-quality voices, by exact name. */
  predicate IsAllowListed(v: Voice) {
    v.name == "Matilda" || v.name == "Matilda Premium" || v.name == "Ava" || v.name == "Ava Premium"
  }

  /** Tier 2: a Google US English voice, by substring. */
  predicate IsGoogleUSEnglish(v: Voice) {
    Contains(v.name, "Google US English")
  }

  /** Tier 5, and the language half of tiers 3 and 4: `lang` starts with "en". */
  predicate IsEnglish(v: Voice) {
    StartsWith(v.lang, "en")
  }

  /** Tier 3: a quality marker in the name, English language. */
  predicate IsQualityEnglish(v: Voice) {
    (Contains(v.name, "Enhanced") || Contains(v.name, "Premium") || Contains(v.name, "Natural")) && IsEnglish(v)
  }

  /** Tier 4: a female-name marker in the name, English language. */
  predicate IsFemaleEnglish(v: Voice) {
    (Contains(v.name, "Female") || Contains(v.name, "Victoria") || Contains(v.name, "Susan")) && IsEnglish(v)
  }

  /** The criterion of tier `k`, for k in 1..5; no other number names a tier. */
  predicate Tier(k: nat, v: Voice) {
    if k == 1 then IsAllowListed(v)
    else if k == 2 then IsGoogleUSEnglish(v)
    else if k == 3 then IsQualityEnglish(v)
    else if k == 4 then IsFemaleEnglish(v)
    else if k == 5 then IsEnglish(v)
    else false
  }

  /**
   * The cascade: each tier is scanned only when every earlier one found nothing;
   * when all five find nothing the first voice is taken, and an empty list gives
   * no voice at all.
   */
  function SelectVoice(available: seq<Voice>): (r: Option<Voice>)
    ensures r.None? <==> available == []
    ensures r.Some? ==> r.value in available
  {
    var best1 := FindIndex(available, IsAllowListed);
    var best2 := if best1.Some? then best1 else FindIndex(available, IsGoogleUSEnglish);
    var best3 := if best2.Some? then best2 else FindIndex(available, IsQualityEnglish);
    var best4 := if best3.Some? then best3 else FindIndex(available, IsFemaleEnglish);
    var best5 := if best4.Some? then best4 else FindIndex(available, IsEnglish);
    if best5.Some? then Some(available[best5.value])
    else if available != [] then Some(available[0])
    else None
  }

  /** No voice of `vs` meets the criterion of any tier before `k`. */
  ghost predicate NoEarlierTier(vs: seq<Voice>, k: nat) {
    forall m, j :: 1 <= m < k && 0 <= j < |vs| ==> !Tier(m, vs[j])
  }

  /**
   * `vs[i]` is the first voice, in list order, meeting the highest-priority tier
   * that any voice of `vs` meets, and that tier is `k`.
   */
  ghost predicate FirstOfHighestTier(vs: seq<Voice>, k: nat, i: nat) {
    1 <= k <= 5 && i < |vs| && Tier(k, vs[i])
    && (forall j :: 0 <= j < i ==> !Tier(k, vs[j]))
    && NoEarlierTier(vs, k)
  }

  /** Tier `k` is scanned only when tiers 1..k-1 found nothing, and its scan stops at the first match. */
  lemma SelectVoiceHighestTier(vs: seq<Voice>, k: nat, i: nat)
    requires FirstOfHighestTier(vs, k, i)
    ensures SelectVoice(vs) == Some(vs[i])
  {
    assert forall j :: 0 <= j < |vs| && k > 1 ==> !IsAllowListed(vs[j]) by {
      forall j | 0 <= j < |vs| && k > 1 ensures !IsAllowListed(vs[j]) { assert !Tier(1, vs[j]); }
    }
    assert forall j :: 0 <= j < |vs| && k > 2 ==> !IsGoogleUSEnglish(vs[j]) by {
      forall j | 0 <= j < |vs| && k > 2 ensures !IsGoogleUSEnglish(vs[j]) { assert !Tier(2, vs[j]); }
    }
    assert forall j :: 0 <= j < |vs| && k > 3 ==> !IsQualityEnglish(vs[j]) by {
      forall j | 0 <= j < |vs| && k > 3 ensures !IsQualityEnglish(vs[j]) { assert !Tier(3, vs[j]); }
    }
    assert forall j :: 0 <= j < |vs| && k > 4 ==> !IsFemaleEnglish(vs[j]) by {
      forall j | 0 <= j < |vs| && k > 4 ensures !IsFemaleEnglish(vs[j]) { assert !Tier(4, vs[j]); }
    }
    if k == 1 {
      FindIndexIsFirst(vs, IsAllowListed, i);
    } else if k == 2 {
      FindIndexIsFirst(vs, IsGoogleUSEnglish, i);
    } else if k == 3 {
      FindIndexIsFirst(vs, IsQualityEnglish, i);
    } else if k == 4 {
      FindIndexIsFirst(vs, IsFemaleEnglish, i);
    } else {
      FindIndexIsFirst(vs, IsEnglish, i);
    }
  }

  /** An exact allow-listed name wins over every later-tier candidate: the first such voice is chosen. */
  lemma SelectVoicePrefersAllowList(vs: seq<Voice>, i: nat)
    requires i < |vs| && IsAllowListed(vs[i])
    requires forall j :: 0 <= j < i ==> !IsAllowListed(vs[j])
    ensures SelectVoice(vs) == Some(vs[i])
  {
    SelectVoiceHighestTier(vs, 1, i);
  }

  /** When no voice meets any tier, the first voice of the list is chosen. */
  lemma SelectVoiceFallsBackToFirst(vs: seq<Voice>)
    requires vs != []
    requires NoEarlierTier(vs, 6)
    ensures SelectVoice(vs) == Some(vs[0])
  {
    forall j | 0 <= j < |vs|
      ensures !IsAllowListed(vs[j]) && !IsGoogleUSEnglish(vs[j]) && !IsEnglish(vs[j])
    {
      assert !Tier(1, vs[j]) && !Tier(2, vs[j]) && !Tier(5, vs[j]);
    }
  }

  /**
   * The converse: every choice on a non-empty list is either the first voice of
   * the highest tier that some voice meets, or, when no voice meets any tier,
   * the first voice of the list.
   */
  lemma SelectVoiceExplained(vs: seq<Voice>)
    requires vs != []
    ensures (exists k: nat, i: nat :: FirstOfHighestTier(vs, k, i) && SelectVoice(vs) == Some(vs[i]))
         || (NoEarlierTier(vs, 6) && SelectVoice(vs) == Some(vs[0]))
  {
    var k: nat := 1;
    while k <= 5 && FindIndex(vs, (v: Voice) => Tier(k, v)).None?
      invariant 1 <= k <= 6
      invariant NoEarlierTier(vs, k)
      decreases 6 - k
    {
      k := k + 1;
    }
    if k <= 5 {
      var i := FindIndex(vs, (v: Voice) => Tier(k, v)).value;
      SelectVoiceHighestTier(vs, k, i);
      assert FirstOfHighestTier(vs, k, i);
    } else {
      SelectVoiceFallsBackToFirst(vs);
    }
  }

  /**
   * Only tiers 1 and 2 and the final fallback can choose a voice whose language
   * is not English; the fallback does so only when no voice at all is English.
   */
  lemma NonEnglishChoiceExplained(vs: seq<Voice>)
    ensures var r := SelectVoice(vs);
      r.Some? && !IsEnglish(r.value) ==>
        IsAllowListed(r.value) || IsGoogleUSEnglish(r.value)
        || (r.value == vs[0] && forall j :: 0 <= j < |vs| ==> !IsEnglish(vs[j]))
  {
    if vs != [] {
      SelectVoiceExplained(vs);
      if !NoEarlierTier(vs, 6) {
        var k: nat, i: nat :| FirstOfHighestTier(vs, k, i) && SelectVoice(vs) == Some(vs[i]);
        assert Tier(k, vs[i]);
      } else {
        forall j | 0 <= j < |vs| ensures !IsEnglish(vs[j]) { assert !Tier(5, vs[j]); }
      }
    }
  }
}
