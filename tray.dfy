/** The popup's dice tray: the module-level state `selectedDice`,
    `lastRollsConfig` and `lastRollResults`, the Roll button that shows it, and
    the click handlers that change it. Each animation is one atomic step: the
    result is fixed before the animation starts and the state is updated when
    it ends. */
module Tray {
  import opened Wrappers
  import opened Decimal
  import opened Dice
  import opened Rolling
  import opened RollButton

  /** A `selectedDice` object: every key present, no count negative. */
  predicate IsSelection(m: Counts) {
    (forall t :: t in m) && NonNegative(m)
  }

  /** The configuration `performRoll` rolls: the selection when it holds a
      die, else the last configuration when it has a key, else nothing. */
  function RollConfig(selected: Counts, lastConfig: Counts): (config: Option<Counts>)
    ensures config.None? <==> CountSum(selected, AllTypes) <= 0 && lastConfig == map[]
    ensures config.Some? ==> config.value == selected || config.value == lastConfig
  {
    if CountSum(selected, AllTypes) > 0 then Some(selected)
    else if |lastConfig| > 0 then Some(lastConfig)
    else None
  }

  /** The dice of a configuration, one per count, key by key
      (the nested `for` loops that build `diceToAnimate`). */
  method ExpandConfig(config: Counts) returns (dice: seq<DieType>)
    ensures dice == Expanded(config, AllTypes)
  {
    dice := [];
    for k := 0 to |AllTypes|
      invariant dice == Expanded(config, AllTypes[..k])
    {
      var t := AllTypes[k];
      assert AllTypes[..k + 1][..k] == AllTypes[..k];
      if t in config {
        var done := dice;
        for i := 0 to (if config[t] > 0 then config[t] else 0)
          invariant dice == done + Repeat(t, i)
        {
          dice := dice + [t];
        }
      }
    }
    assert AllTypes[..|AllTypes|] == AllTypes;
  }

  /** The results of a roll, die by die (the loop of `performRoll` that fills
      `currentRollResults`), die i taking the i-th random draw. */
  method RollEach(dice: seq<DieType>, draw: nat -> real) returns (results: seq<Roll>)
    requires forall i: nat :: IsRandom(draw(i))
    ensures results == RollAll(dice, draw)
  {
    results := [];
    for index := 0 to |dice|
      invariant |results| == index
      invariant forall j | 0 <= j < index :: results[j] == Roll(dice[j], RollDie(dice[j], draw(j)))
    {
      var finalResult := RollDie(dice[index], draw(index));
      results := results + [Roll(dice[index], finalResult)];
    }
  }

  class DiceTray {
    /** `selectedDice`: the dice chosen for the next roll. */
    var selected: Counts
    /** `lastRollsConfig`: the configuration last rolled. */
    var lastConfig: Counts
    /** `lastRollResults`: one `{type, result}` per die of the last roll. */
    var lastResults: seq<Roll>
    /** The Roll button: its text and whether it is enabled. */
    var button: Button

    /** The counts are well formed and the button shows the current state. */
    ghost predicate Valid()
      reads this
    {
      IsSelection(selected) && NonNegative(lastConfig) && button == ButtonFor(selected, lastConfig)
    }

    /** The popup as it opens: nothing selected, nothing rolled, the button
      disabled. */
    constructor ()
      ensures Valid()
      ensures selected == NoDice && lastConfig == map[] && lastResults == []
      ensures button == Button(NothingSelected, false)
    {
      selected := NoDice;
      lastConfig := map[];
      lastResults := [];
      button := Button("", false);
      new;
      NoDiceHasEveryKey();
      PositiveSumZero(NoDice, AllTypes);
      UpdateRollButtonDisplay();
    }

    /** `updateRollButtonDisplay`: rebuild the button from the selection and
        the last configuration. */
    method UpdateRollButtonDisplay()
      modifies this`button
      ensures button == ButtonFor(selected, lastConfig)
    {
      var notation: seq<string> := [];
      var totalDice := 0;
      for k := 0 to |AllTypes|
        invariant notation == Parts(selected, AllTypes[..k])
        invariant totalDice == PositiveSum(selected, AllTypes[..k])
      {
        var t := AllTypes[k];
        assert AllTypes[..k + 1][..k] == AllTypes[..k] && AllTypes[..k + 1][k] == t;
        if t in selected && selected[t] > 0 {
          notation := notation + [Part(selected[t], t)];
          totalDice := totalDice + selected[t];
        }
      }
      assert AllTypes[..|AllTypes|] == AllTypes;
      assert notation == Parts(selected, AllTypes) && totalDice == PositiveSum(selected, AllTypes);
      if totalDice > 0 {
        button := Button(RollPrefix + Join(notation, Separator), true);
      } else if |lastConfig| > 0 {
        var lastNotation: seq<string> := [];
        for k := 0 to |AllTypes|
          invariant lastNotation == Parts(lastConfig, AllTypes[..k])
        {
          var t := AllTypes[k];
          assert AllTypes[..k + 1][..k] == AllTypes[..k] && AllTypes[..k + 1][k] == t;
          if t in lastConfig && lastConfig[t] > 0 {
            lastNotation := lastNotation + [Part(lastConfig[t], t)];
          }
        }
        assert lastNotation == Parts(lastConfig, AllTypes);
        button := Button(RollAgainPrefix + Join(lastNotation, Separator), true);
      } else {
        button := Button(NothingSelected, false);
      }
    }

    /** `handleDiceClick` on an original icon, left button: one more die of
        type `t`, shown by its highest face; the last configuration is dropped. */
    method AddDie(t: DieType) returns (icon: string)
      requires Valid()
      modifies this
      ensures Valid()
      ensures selected == old(selected)[t := old(selected)[t] + 1]
      ensures lastConfig == map[] && lastResults == old(lastResults)
      ensures icon == FaceImagePath(t, Faces(t))
    {
      var count := selected[t] + 1;
      selected := selected[t := count];
      assert IsSelection(selected) by {
        forall u ensures u in selected && selected[u] >= 0 {
          assert u in old(selected);
        }
      }
      lastConfig := map[];
      UpdateRollButtonDisplay();
      icon := SelectedIconImage(t);
    }

    /** `removeSelectedDie`: a click on a selected die's icon takes one die of
        its type out of the selection, but only while that count is positive. */
    method RemoveSelectedDie(isSelectedIcon: bool, t: DieType) returns (removed: bool)
      requires Valid()
      modifies this
      ensures Valid()
      ensures removed <==> isSelectedIcon && old(selected)[t] > 0
      ensures removed ==> selected == old(selected)[t := old(selected)[t] - 1] && lastConfig == map[]
      ensures !removed ==> selected == old(selected) && lastConfig == old(lastConfig)
      ensures lastResults == old(lastResults)
    {
      removed := false;
      if !isSelectedIcon {
        return;
      }
      if selected[t] > 0 {
        removed := true;
        selected := selected[t := selected[t] - 1];
        lastConfig := map[];
        UpdateRollButtonDisplay();
      }
    }

    /** `performInstantRoll` as written: one die of type `t` rolled on its
        own. The icons of the selection are cleared from the screen, but the
        selection itself is kept. */
    method PerformInstantRoll(t: DieType, random: real) returns (face: string)
      requires Valid() && IsRandom(random)
      modifies this
      ensures Valid()
      ensures lastResults == [Roll(t, RollDie(t, random))]
      ensures lastConfig == map[t := 1]
      ensures selected == old(selected)
      ensures face == FaceImagePath(t, lastResults[0].result)
    {
      var finalResult := RollDie(t, random);
      face := SettledImage(t, finalResult);
      lastResults := [Roll(t, finalResult)];
      lastConfig := map[];
      lastConfig := lastConfig[t := 1];
      UpdateRollButtonDisplay();
    }

    /** `performInstantRoll` as evidently intended: like the method above, but
        the selection, whose icons the roll clears, is cleared too, so that the
        button offers this one die again. */
    method PerformInstantRollClearingSelection(t: DieType, random: real) returns (face: string)
      requires Valid() && IsRandom(random)
      modifies this
      ensures Valid()
      ensures lastResults == [Roll(t, RollDie(t, random))]
      ensures lastConfig == map[t := 1]
      ensures selected == NoDice
      ensures button == Button(RollAgainPrefix + Part(1, t), true)
      ensures face == FaceImagePath(t, lastResults[0].result)
    {
      var finalResult := RollDie(t, random);
      face := SettledImage(t, finalResult);
      selected := NoDice;
      NoDiceHasEveryKey();
      lastResults := [Roll(t, finalResult)];
      lastConfig := map[];
      lastConfig := lastConfig[t := 1];
      UpdateRollButtonDisplay();
      InstantRollOffersRollAgain(t);
    }

    /** `handleDiceClick`: only clicks on the original icons count; a right
        click rolls the die at once, a left click adds it to the selection.
        Returns the image put on screen, if any. */
    method HandleDiceClick(isOriginal: bool, isRightClick: bool, t: DieType, random: real)
      returns (image: Option<string>)
      requires Valid() && IsRandom(random)
      modifies this
      ensures Valid()
      ensures !isOriginal ==> image == None && selected == old(selected)
                              && lastConfig == old(lastConfig) && lastResults == old(lastResults)
      ensures isOriginal && isRightClick ==>
                image == Some(FaceImagePath(t, RollDie(t, random)))
                && lastResults == [Roll(t, RollDie(t, random))]
                && lastConfig == map[t := 1] && selected == old(selected)
      ensures isOriginal && !isRightClick ==>
                image == Some(FaceImagePath(t, Faces(t)))
                && selected == old(selected)[t := old(selected)[t] + 1]
                && lastConfig == map[] && lastResults == old(lastResults)
    {
      if !isOriginal {
        return None;
      }
      if isRightClick {
        var face := PerformInstantRoll(t, random);
        image := Some(face);
      } else {
        var icon := AddDie(t);
        image := Some(icon);
      }
    }

    /** `handleDiceClick` with the instant roll as evidently intended: a right
        click also clears the selection and the button offers "Roll Again: 1dX". */
    method HandleDiceClickClearingSelection(isOriginal: bool, isRightClick: bool, t: DieType, random: real)
      returns (image: Option<string>)
      requires Valid() && IsRandom(random)
      modifies this
      ensures Valid()
      ensures !isOriginal ==> image == None && selected == old(selected)
                              && lastConfig == old(lastConfig) && lastResults == old(lastResults)
      ensures isOriginal && isRightClick ==>
                image == Some(FaceImagePath(t, RollDie(t, random)))
                && lastResults == [Roll(t, RollDie(t, random))]
                && lastConfig == map[t := 1] && selected == NoDice
                && button == Button(RollAgainPrefix + Part(1, t), true)
      ensures isOriginal && !isRightClick ==>
                image == Some(FaceImagePath(t, Faces(t)))
                && selected == old(selected)[t := old(selected)[t] + 1]
                && lastConfig == map[] && lastResults == old(lastResults)
    {
      if !isOriginal {
        return None;
      }
      if isRightClick {
        var face := PerformInstantRollClearingSelection(t, random);
        image := Some(face);
      } else {
        var icon := AddDie(t);
        image := Some(icon);
      }
    }

    /** `rerollSingleDie`: a click on a rolled die rolls it again. The die
        shows the new face; the stored result at `index` is replaced only when
        `index` is within the result list. */
    method Reroll(isRolledDie: bool, t: DieType, index: int, random: real)
      returns (face: Option<string>)
      requires Valid() && IsRandom(random)
      modifies this`lastResults
      ensures Valid()
      ensures !isRolledDie ==> face == None && lastResults == old(lastResults)
      ensures isRolledDie ==> face == Some(FaceImagePath(t, RollDie(t, random)))
      ensures isRolledDie && 0 <= index < |old(lastResults)| ==>
                lastResults == old(lastResults)[index := old(lastResults)[index].(result := RollDie(t, random))]
      ensures !(0 <= index < |old(lastResults)|) ==> lastResults == old(lastResults)
      ensures |lastResults| == |old(lastResults)|
      ensures forall j | 0 <= j < |lastResults| && j != index :: lastResults[j] == old(lastResults)[j]
      ensures isRolledDie && 0 <= index < |old(lastResults)| ==>
                var was := old(lastResults)[index];
                TotalSum(lastResults) == Some(SumOfResults(old(lastResults))
                                              - EffectiveValue(was.kind, was.result)
                                              + EffectiveValue(was.kind, RollDie(t, random)))
    {
      if !isRolledDie {
        return None;
      }
      var newResult := RollDie(t, random);
      assert 1 <= newResult <= Faces(t);
      face := Some(SettledImage(t, newResult));
      if 0 <= index < |lastResults| {
        SumAfterReplace(lastResults, index, newResult);
        lastResults := lastResults[index := lastResults[index].(result := newResult)];
        assert TotalSum(lastResults) == Some(SumOfResults(lastResults));
      }
    }

    /** `performRoll`: roll the selection if it holds a die (and clear it),
        else roll the last configuration again, else do nothing. The rolled
        configuration becomes the last configuration. Every die's result is
        fixed now, die i taking the i-th random draw; the returned roll
        publishes the results once every die's animation has ended. */
    method PerformRoll(draw: nat -> real) returns (flight: RollInFlight?)
      requires Valid()
      requires forall i: nat :: IsRandom(draw(i))
      modifies this
      ensures Valid()
      ensures lastResults == old(lastResults)
      ensures old(RollConfig(selected, lastConfig)).None? ==>
                flight == null && selected == old(selected) && lastConfig == old(lastConfig)
      ensures old(RollConfig(selected, lastConfig)).Some? ==>
                var config := old(RollConfig(selected, lastConfig)).value;
                && lastConfig == config
                && selected == (if old(CountSum(selected, AllTypes)) > 0 then NoDice else old(selected))
                && (flight == null <==> Expanded(config, AllTypes) == [])
                && (flight != null ==>
                      && fresh(flight) && flight.Valid() && flight.tray == this
                      && flight.dice == Expanded(config, AllTypes)
                      && flight.results == RollAll(flight.dice, draw)
                      && flight.completed == 0)
    {
      var diceToRollConfig: Counts;
      if CountSum(selected, AllTypes) > 0 {
        diceToRollConfig := selected;
        selected := NoDice;
        NoDiceHasEveryKey();
      } else if |lastConfig| > 0 {
        diceToRollConfig := lastConfig;
      } else {
        return null;
      }
      lastConfig := diceToRollConfig;
      assert IsSelection(selected) && NonNegative(lastConfig);
      var diceToAnimate := ExpandConfig(diceToRollConfig);
      if |diceToAnimate| == 0 {
        UpdateRollButtonDisplay();
        return null;
      }
      var currentRollResults := RollEach(diceToAnimate, draw);
      flight := new RollInFlight(this, diceToAnimate, currentRollResults);
      UpdateRollButtonDisplay();
    }
  }

  /** One `performRoll` whose dice are still animating: its dice, their
      results, and the `completedRolls` counter of its animations. */
  class RollInFlight {
    const tray: DiceTray
    /** `diceToAnimate` */
    const dice: seq<DieType>
    /** `currentRollResults` */
    const results: seq<Roll>
    /** `completedRolls` */
    var completed: nat
    /** The dice whose animation has ended. */
    ghost var finished: set<nat>

    ghost predicate Valid()
      reads this
    {
      && |results| == |dice|
      && (forall i | 0 <= i < |dice| :: results[i].kind == dice[i])
      && (forall i | i in finished :: i < |dice|)
      && completed == |finished|
    }

    constructor (tray: DiceTray, dice: seq<DieType>, results: seq<Roll>)
      requires |results| == |dice|
      requires forall i | 0 <= i < |dice| :: results[i].kind == dice[i]
      ensures Valid() && finished == {}
      ensures this.tray == tray && this.dice == dice && this.results == results && completed == 0
    {
      this.tray := tray;
      this.dice := dice;
      this.results := results;
      completed := 0;
      finished := {};
    }

    /** The end of die `index`'s animation (each die's ends once): the die
        shows its result, and when it is the last die to finish, its results
        become the tray's result list. */
    method DieFinished(index: nat) returns (face: string)
      requires Valid() && index < |dice| && index !in finished
      modifies this, tray`lastResults
      ensures Valid()
      ensures finished == old(finished) + {index} && completed == old(completed) + 1
      ensures completed <= |dice|
      ensures face == SettledImage(dice[index], results[index].result)
      ensures completed == |dice| ==>
                tray.lastResults == results && forall i | 0 <= i < |dice| :: i in finished
      ensures completed < |dice| ==> tray.lastResults == old(tray.lastResults)
      ensures old(tray.Valid()) ==> tray.Valid()
    {
      face := SettledImage(dice[index], results[index].result);
      completed := completed + 1;
      finished := finished + {index};
      FinishedWithinRange(finished, |dice|);
      if completed == |dice| {
        tray.lastResults := results;
      }
    }
  }

  /** A set of indices below n has at most n members, and all n of them
      when it has n. */
  lemma {:induction false} FinishedWithinRange(s: set<nat>, n: nat)
    requires forall i | i in s :: i < n
    ensures |s| <= n
    ensures |s| == n ==> forall i | 0 <= i < n :: i in s
  {
    if n > 0 {
      var rest := s - {n - 1};
      FinishedWithinRange(rest, n - 1);
      if n - 1 in s {
        assert s == rest + {n - 1};
      } else {
        assert s == rest;
      }
    } else {
      assert s == {};
    }
  }

  /** After the instant roll that also clears the selection, the button
      offers that one die again: "Roll Again: 1dX". */
  lemma InstantRollOffersRollAgain(t: DieType)
    ensures ButtonFor(NoDice, map[t := 1]) == Button(RollAgainPrefix + Part(1, t), true)
  {
    PositiveSumZero(NoDice, AllTypes);
    SingleDieNotation(t);
  }

  /** With dice selected, the button after `performInstantRoll` as written
      still reads "Roll: …" for the selection instead of "Roll Again: 1dX",
      and a click on it rolls the selection, whose icons the instant roll has
      removed from the screen. */
  lemma InstantRollKeepsSelectionOnButton(selected: Counts, t: DieType)
    requires IsSelection(selected) && PositiveSum(selected, AllTypes) > 0
    ensures ButtonFor(selected, map[t := 1]).text == RollPrefix + Notation(selected)
    ensures ButtonFor(selected, map[t := 1]).text != RollAgainPrefix + Part(1, t)
    ensures RollConfig(selected, map[t := 1]) == Some(selected)
  {
    CountSumOfNonNegative(selected, AllTypes);
    assert ButtonFor(selected, map[t := 1]).text[4] == ':';
  }

  /** The smallest case: select one d6, right-click the d20. */
  lemma InstantRollCounterexample()
    ensures ButtonFor(NoDice[D6 := 1], map[D20 := 1]).text == "Roll: 1d6"
  {
    var m := NoDice[D6 := 1];
    NoDiceHasEveryKey();
    KeyOrderIncreasing();
    PartsOfOnePositive(m, D6, AllTypes);
    assert AllTypes[1] == D6;
    assert Part(1, D6) == "1d6";
    assert PositiveCount(m, D6) == 1;
    PositiveSumZero(m, AllTypes);
  }

  /** The popup as it opens, a left click on the d6, then a right click on
      the d20: the button still offers the hidden d6. */
  method InstantRollAfterSelection() returns (text: string)
    ensures text == "Roll: 1d6"
  {
    var tray := new DiceTray();
    var icon := tray.AddDie(D6);
    assert tray.selected == NoDice[D6 := 1];
    var image := tray.HandleDiceClick(true, true, D20, 0.5);
    assert tray.button == ButtonFor(NoDice[D6 := 1], map[D20 := 1]);
    InstantRollCounterexample();
    text := tray.button.text;
  }

  lemma RollAgainD20Text()
    ensures RollAgainPrefix + Part(1, D20) == "Roll Again: 1d20"
  {
    assert Part(1, D20) == "1d20";
  }

  /** The same clicks with the instant roll that clears the selection: the
      button offers the d20 again. */
  method InstantRollAfterSelectionClearing() returns (text: string)
    ensures text == "Roll Again: 1d20"
  {
    var tray := new DiceTray();
    var icon := tray.AddDie(D6);
    var image := tray.HandleDiceClickClearingSelection(true, true, D20, 0.5);
    RollAgainD20Text();
    text := tray.button.text;
  }

  /** The popup rolls something exactly when its button is enabled. */
  lemma ButtonEnabledIffRollPossible(selected: Counts, lastConfig: Counts)
    requires IsSelection(selected)
    ensures ButtonFor(selected, lastConfig).enabled <==> RollConfig(selected, lastConfig).Some?
    ensures RollConfig(selected, lastConfig).Some? ==>
              RollConfig(selected, lastConfig).value == Shown(selected, lastConfig)
  {
    CountSumOfNonNegative(selected, AllTypes);
  }

  /** The expansion depends only on the positive counts. */
  lemma {:induction false} ExpandedByPositiveCounts(m1: Counts, m2: Counts, ts: seq<DieType>)
    requires forall t :: PositiveCount(m1, t) == PositiveCount(m2, t)
    ensures Expanded(m1, ts) == Expanded(m2, ts)
  {
    if ts != [] {
      var t := ts[|ts| - 1];
      ExpandedByPositiveCounts(m1, m2, ts[..|ts| - 1]);
      assert (if t in m1 then Repeat(t, m1[t]) else []) == Repeat(t, PositiveCount(m1, t));
      assert (if t in m2 then Repeat(t, m2[t]) else []) == Repeat(t, PositiveCount(m2, t));
    }
  }

  /** Two trays whose buttons read the same roll the same dice in the same
      order when the button is clicked. */
  lemma SameButtonSameRoll(s1: Counts, c1: Counts, s2: Counts, c2: Counts)
    requires IsSelection(s1) && IsSelection(s2)
    requires ButtonFor(s1, c1).text == ButtonFor(s2, c2).text
    ensures RollConfig(s1, c1).Some? == RollConfig(s2, c2).Some?
    ensures RollConfig(s1, c1).Some? ==>
              Expanded(RollConfig(s1, c1).value, AllTypes) == Expanded(RollConfig(s2, c2).value, AllTypes)
  {
    SameTextSameDice(s1, c1, s2, c2);
    ButtonEnabledIffRollPossible(s1, c1);
    ButtonEnabledIffRollPossible(s2, c2);
    ExpandedByPositiveCounts(Shown(s1, c1), Shown(s2, c2), AllTypes);
  }
}
