/** Rolling dice: `rollDie`, the face images shown while and after a die
    rolls, the expansion of a count object into one die per count, and the
    total the popup displays. `Math.random()` is a parameter: a real in [0, 1). */
module Rolling {
  import opened Wrappers
  import opened Decimal
  import opened Dice

  /** One entry of `lastRollResults`: `{type, result}`. */
  datatype Roll = Roll(kind: DieType, result: int)

  /** What `Math.random()` promises of its value. */
  predicate IsRandom(r: real) {
    0.0 <= r < 1.0
  }

  /** `Math.floor(random * maxFaces) + 1`, the draw shared by `rollDie` and
      `getRandomFaceImage`. */
  function DrawFace(maxFaces: nat, random: real): (v: int)
    requires IsRandom(random) && maxFaces > 0
    ensures 1 <= v <= maxFaces
  {
    var x := random * maxFaces as real;
    ScaledBelow(random, maxFaces as real);
    x.Floor + 1
  }

  lemma ScaledBelow(random: real, n: real)
    requires IsRandom(random) && n > 0.0
    ensures 0.0 <= random * n < n
  {
    assert n - random * n == (1.0 - random) * n;
  }

  /** For n > 0: a / n <= r exactly when a <= r * n. */
  lemma DivideBelow(a: real, n: real, r: real)
    requires n > 0.0
    ensures a / n <= r <==> a <= r * n
    ensures r < a / n <==> r * n < a
  {
    var q := a / n;
    assert q * n == a;
    assert r * n - q * n == (r - q) * n;
  }

  /** `rollDie(dieType)`. */
  function RollDie(t: DieType, random: real): (v: int)
    requires IsRandom(random)
    ensures 1 <= v <= Faces(t)
  {
    DrawFace(MaxFaces(t), random)
  }

  lemma FloorIs(x: real, j: int)
    ensures x.Floor == j <==> j as real <= x < j as real + 1.0
  {
  }

  lemma {:induction false} DrawFaceOutcome(n: nat, random: real, k: int)
    requires IsRandom(random) && n > 0
    ensures DrawFace(n, random) == k <==>
              (k - 1) as real / n as real <= random < k as real / n as real
  {
    FloorIs(random * n as real, k - 1);
    DivideBelow((k - 1) as real, n as real, random);
    DivideBelow(k as real, n as real, random);
  }

  /** Each face k of a dN comes up exactly when the random value falls in
      [(k-1)/N, k/N): the N faces split [0, 1) into equal parts. */
  lemma RollDieOutcome(t: DieType, random: real, k: int)
    requires IsRandom(random)
    ensures RollDie(t, random) == k <==>
              (k - 1) as real / Faces(t) as real <= random < k as real / Faces(t) as real
  {
    DrawFaceOutcome(MaxFaces(t), random, k);
  }

  /** The draw at the left end of face k's interval is k. */
  lemma DrawFaceHits(n: nat, k: int)
    requires 1 <= k <= n
    ensures var random := (k - 1) as real / n as real;
            IsRandom(random) && DrawFace(n, random) == k
  {
    var random := (k - 1) as real / n as real;
    assert random * n as real == (k - 1) as real;
    DivideBelow((k - 1) as real, n as real, 0.0);
    DivideBelow(n as real, n as real, random);
    assert n as real / n as real == 1.0;
  }

  /** Every face of a die can come up. */
  lemma EveryFaceCanComeUp(t: DieType, k: int)
    requires 1 <= k <= Faces(t)
    ensures var random := (k - 1) as real / Faces(t) as real;
            IsRandom(random) && RollDie(t, random) == k
  {
    DrawFaceHits(MaxFaces(t), k);
  }

  /** `../images/{type}_face{n}.png` */
  function FaceImagePath(t: DieType, face: int): string {
    "../images/" + Name(t) + "_face" + IntToString(face) + ".png"
  }

  /** `getRandomFaceImage(dieType)`: the face shown while a die tumbles. The
      source's branch guarded by `&& false` can never be taken. */
  function RandomFaceImage(t: DieType, random: real): (path: string)
    requires IsRandom(random)
    ensures path == FaceImagePath(t, RollDie(t, random))
  {
    var maxFaces := MaxFaces(t);
    var randomFace := DrawFace(maxFaces, random);
    if t == D10 && maxFaces == 10 && randomFace == 10 then
      assert IntToString(10) == "10";
      "../images/" + Name(t) + "_face10.png"
    else
      FaceImagePath(t, randomFace)
  }

  /** The image of a selected (not yet rolled) die: its highest face. The
      d10 adjustments of the left click are kept; the one guarded by
      `&& false` never applies. */
  method SelectedIconImage(t: DieType) returns (path: string)
    ensures path == FaceImagePath(t, Faces(t))
  {
    var maxFace := MaxFaces(t);
    var defaultFace := maxFace;
    if t == D10 && maxFace == 10 {
      defaultFace := 10;
    }
    path := FaceImagePath(t, defaultFace);
  }

  /** The number a result stands for, both as the face shown when a die
      settles and in the total: a d10 result of 0 stands for 10. */
  function EffectiveValue(t: DieType, result: int): (v: int)
    ensures 1 <= result <= Faces(t) ==> v == result
    ensures t == D10 && result == 0 ==> v == 10
  {
    if t == D10 && result == 10 then 10
    else if t == D10 && result == 0 then 10
    else result
  }

  /** The image a die shows when its animation ends: the face rolled, and
      face 10 for a d10 result of 0. */
  function SettledImage(t: DieType, result: int): (path: string)
    ensures 1 <= result <= Faces(t) ==> path == FaceImagePath(t, result)
    ensures t == D10 && result == 0 ==> path == FaceImagePath(t, 10)
  {
    FaceImagePath(t, EffectiveValue(t, result))
  }

  /** The `reduce` of `displayTotalSum`, left to right. */
  function SumOfResults(rs: seq<Roll>): (sum: int)
    ensures ResultsInRange(rs) ==> |rs| <= sum <= MaxTotal(rs)
  {
    if rs == [] then 0
    else
      var init, last := rs[..|rs| - 1], rs[|rs| - 1];
      assert forall i | 0 <= i < |init| :: init[i] == rs[i];
      SumOfResults(init) + EffectiveValue(last.kind, last.result)
  }

  /** The total `displayTotalSum` shows: none for an empty result list; for
      rolled dice, between one per die and the sum of their face counts. */
  function TotalSum(rs: seq<Roll>): (total: Option<int>)
    ensures total.None? <==> rs == []
    ensures total.Some? && ResultsInRange(rs) ==> |rs| <= total.value <= MaxTotal(rs)
  {
    if |rs| == 0 then None else Some(SumOfResults(rs))
  }

  /** Every result is a face of its die. */
  predicate ResultsInRange(rs: seq<Roll>) {
    forall i | 0 <= i < |rs| :: 1 <= rs[i].result <= Faces(rs[i].kind)
  }

  /** The highest total a result list can reach. */
  function MaxTotal(rs: seq<Roll>): nat {
    if rs == [] then 0 else MaxTotal(rs[..|rs| - 1]) + Faces(rs[|rs| - 1].kind)
  }

  /** Replacing one result changes the total by exactly the difference
      between the new and the old value. */
  lemma {:induction false} SumAfterReplace(rs: seq<Roll>, i: nat, result: int)
    requires i < |rs|
    ensures SumOfResults(rs[i := rs[i].(result := result)])
            == SumOfResults(rs) - EffectiveValue(rs[i].kind, rs[i].result)
                                + EffectiveValue(rs[i].kind, result)
  {
    var rs' := rs[i := rs[i].(result := result)];
    var n := |rs|;
    if i == n - 1 {
      assert rs'[..n - 1] == rs[..n - 1];
    } else {
      assert rs'[..n - 1] == rs[..n - 1][i := rs[i].(result := result)];
      SumAfterReplace(rs[..n - 1], i, result);
    }
  }

  /** `count` copies of one die type (the inner `for` of `performRoll`). */
  function Repeat(t: DieType, count: int): (s: seq<DieType>)
    ensures |s| == (if count > 0 then count else 0)
    ensures forall i | 0 <= i < |s| :: s[i] == t
  {
    if count <= 0 then [] else Repeat(t, count - 1) + [t]
  }

  /** The dice a count object expands to, key by key in the order `ts`
      (`diceToAnimate` in `performRoll`). */
  function Expanded(m: Counts, ts: seq<DieType>): (dice: seq<DieType>)
    ensures |dice| == PositiveSum(m, ts)
  {
    if ts == [] then []
    else
      var t := ts[|ts| - 1];
      Expanded(m, ts[..|ts| - 1]) + (if t in m then Repeat(t, m[t]) else [])
  }

  /** Every expanded die is one of the keys `ts` with a positive count. */
  lemma {:induction false} ExpandedMembers(m: Counts, ts: seq<DieType>)
    ensures forall i | 0 <= i < |Expanded(m, ts)| ::
              Expanded(m, ts)[i] in ts && CountOf(m, Expanded(m, ts)[i]) > 0
  {
    if ts != [] {
      var init := ts[..|ts| - 1];
      ExpandedMembers(m, init);
      assert forall t | t in init :: t in ts;
    }
  }

  predicate Distinct(ts: seq<DieType>) {
    forall i, j | 0 <= i < j < |ts| :: ts[i] != ts[j]
  }

  /** Each die type of `ts` appears in the expansion exactly its count times. */
  lemma {:induction false} ExpandedCounts(m: Counts, ts: seq<DieType>, t: DieType)
    requires Distinct(ts)
    ensures multiset(Expanded(m, ts))[t] == if t in ts then PositiveCount(m, t) else 0
  {
    if ts != [] {
      var init := ts[..|ts| - 1];
      var last := ts[|ts| - 1];
      assert Distinct(init);
      ExpandedCounts(m, init, t);
      var tail := if last in m then Repeat(last, m[last]) else [];
      assert multiset(Expanded(m, ts)) == multiset(Expanded(m, init)) + multiset(tail);
      RepeatCount(last, CountOf(m, last), t);
      assert tail == Repeat(last, CountOf(m, last));
      assert t in ts <==> t in init || t == last;
      assert t == last ==> t !in init;
    }
  }

  lemma {:induction false} RepeatCount(s: DieType, count: int, t: DieType)
    ensures multiset(Repeat(s, count))[t] == if s == t && count > 0 then count else 0
  {
    if count > 0 {
      var r := Repeat(s, count - 1);
      RepeatCount(s, count - 1, t);
      assert Repeat(s, count) == r + [s];
      assert multiset(r + [s]) == multiset(r) + multiset{s};
    }
  }

  /** Over keys in key order, the expansion lists the dice grouped by type in
      that order. */
  lemma {:induction false} ExpandedInKeyOrder(m: Counts, ts: seq<DieType>)
    requires forall i, j | 0 <= i < j < |ts| :: KeyIndex(ts[i]) < KeyIndex(ts[j])
    ensures forall i, j | 0 <= i < j < |Expanded(m, ts)| ::
              KeyIndex(Expanded(m, ts)[i]) <= KeyIndex(Expanded(m, ts)[j])
  {
    if ts != [] {
      var init := ts[..|ts| - 1];
      var last := ts[|ts| - 1];
      ExpandedInKeyOrder(m, init);
      ExpandedMembers(m, init);
      var e := Expanded(m, ts);
      var front := Expanded(m, init);
      forall i | 0 <= i < |front| ensures KeyIndex(front[i]) < KeyIndex(last) {
        var k :| 0 <= k < |init| && init[k] == front[i];
      }
      forall i, j | 0 <= i < j < |e| ensures KeyIndex(e[i]) <= KeyIndex(e[j]) {
        if j >= |front| {
          assert e[j] == last;
          if i < |front| {
            assert e[i] == front[i];
          }
        } else {
          assert e[i] == front[i] && e[j] == front[j];
        }
      }
    }
  }

  /** The results of rolling `dice`, die i taking the i-th random draw. */
  function RollAll(dice: seq<DieType>, draw: nat -> real): (rs: seq<Roll>)
    requires forall i: nat :: IsRandom(draw(i))
    ensures |rs| == |dice| && ResultsInRange(rs)
    ensures forall i | 0 <= i < |rs| :: rs[i].kind == dice[i]
  {
    var rs := seq(|dice|, i requires 0 <= i < |dice| => Roll(dice[i], RollDie(dice[i], draw(i))));
    assert forall i | 0 <= i < |rs| :: rs[i] == Roll(dice[i], RollDie(dice[i], draw(i)));
    assert forall i | 0 <= i < |rs| :: 1 <= RollDie(dice[i], draw(i)) <= Faces(dice[i]);
    rs
  }
}
