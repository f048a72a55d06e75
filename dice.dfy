/** The popup's die types and the per-type count objects it keeps
    (`selectedDice`, `lastRollsConfig`). */
module Dice {
  import opened Decimal

  /** The six die types of the popup, keyed "d4" … "d20". */
  datatype DieType = D4 | D6 | D8 | D10 | D12 | D20

  /** The key order of the `selectedDice` literal. */
  const AllTypes: seq<DieType> := [D4, D6, D8, D10, D12, D20]

  /** Number of faces: the N of "dN". */
  function Faces(t: DieType): nat {
    match t
    case D4 => 4
    case D6 => 6
    case D8 => 8
    case D10 => 10
    case D12 => 12
    case D20 => 20
  }

  /** The key a die type has in the popup's objects and in its image names. */
  function Name(t: DieType): string {
    match t
    case D4 => "d4"
    case D6 => "d6"
    case D8 => "d8"
    case D10 => "d10"
    case D12 => "d12"
    case D20 => "d20"
  }

  /** Position of a die type in the key order. */
  function KeyIndex(t: DieType): (i: nat)
    ensures i < |AllTypes| && AllTypes[i] == t
  {
    match t
    case D4 => 0
    case D6 => 1
    case D8 => 2
    case D10 => 3
    case D12 => 4
    case D20 => 5
  }

  lemma NameIsDPlusFaces(t: DieType)
    ensures Name(t) == "d" + NatToString(Faces(t))
  {
    assert NatToString(10) == "10" && NatToString(12) == "12" && NatToString(20) == "20";
  }

  /** `parseInt(dieType.substring(1))`: the face count read off the key. */
  function MaxFaces(t: DieType): (n: nat)
    ensures n == Faces(t)
  {
    NameIsDPlusFaces(t);
    ParseNatToString(Faces(t), []);
    assert Name(t)[1..] == NatToString(Faces(t)) + [];
    ParseLeadingInt(Name(t)[1..]).value
  }

  /** Two die types share a key only if they are the same type. */
  lemma NameInjective(s: DieType, t: DieType)
    requires Name(s) == Name(t)
    ensures s == t
  {
    NameIsDPlusFaces(s);
    NameIsDPlusFaces(t);
    assert Name(s)[1..] == NatToString(Faces(s));
    NatToStringInjective(Faces(s), Faces(t));
  }

  /** A count object: die type to count. `selectedDice` has every key;
      `lastRollsConfig` may have any subset. */
  type Counts = map<DieType, int>

  /** `{ d4: 0, d6: 0, d8: 0, d10: 0, d12: 0, d20: 0 }` */
  const NoDice: Counts := map[D4 := 0, D6 := 0, D8 := 0, D10 := 0, D12 := 0, D20 := 0]

  /** The empty selection has every key, each with count 0. */
  lemma NoDiceHasEveryKey()
    ensures forall t :: t in NoDice && NoDice[t] == 0
  {
    forall t ensures t in NoDice && NoDice[t] == 0 {
      match t
      case D4 =>
      case D6 =>
      case D8 =>
      case D10 =>
      case D12 =>
      case D20 =>
    }
  }

  /** The count of `t`, 0 when the key is absent. */
  function CountOf(m: Counts, t: DieType): int {
    if t in m then m[t] else 0
  }

  /** The sum of all counts stored under the keys `ts`
      (`Object.values(m).reduce((sum, count) => sum + count, 0)` when `ts` is the key order). */
  function CountSum(m: Counts, ts: seq<DieType>): (sum: int)
    ensures NonNegative(m) ==> sum >= 0
    ensures NonNegative(m) ==> (sum == 0 <==> forall i | 0 <= i < |ts| :: CountOf(m, ts[i]) == 0)
  {
    if ts == [] then 0
    else
      var init := ts[..|ts| - 1];
      assert forall i | 0 <= i < |init| :: init[i] == ts[i];
      CountSum(m, init) + CountOf(m, ts[|ts| - 1])
  }

  /** The count of `t` if it is positive, else 0. */
  function PositiveCount(m: Counts, t: DieType): nat {
    if CountOf(m, t) > 0 then CountOf(m, t) else 0
  }

  /** The sum of the positive counts under the keys `ts`. */
  function PositiveSum(m: Counts, ts: seq<DieType>): nat {
    if ts == [] then 0 else PositiveSum(m, ts[..|ts| - 1]) + PositiveCount(m, ts[|ts| - 1])
  }

  predicate NonNegative(m: Counts) {
    forall t | t in m :: m[t] >= 0
  }

  /** With no negative count, the plain sum and the sum of positive counts agree. */
  lemma {:induction false} CountSumOfNonNegative(m: Counts, ts: seq<DieType>)
    requires NonNegative(m)
    ensures CountSum(m, ts) == PositiveSum(m, ts)
  {
    if ts != [] {
      CountSumOfNonNegative(m, ts[..|ts| - 1]);
    }
  }

  /** The positive sum is zero exactly when no key in `ts` has a positive count. */
  lemma {:induction false} PositiveSumZero(m: Counts, ts: seq<DieType>)
    ensures PositiveSum(m, ts) == 0 <==> forall i | 0 <= i < |ts| :: CountOf(m, ts[i]) <= 0
  {
    if ts != [] {
      var init := ts[..|ts| - 1];
      PositiveSumZero(m, init);
      assert forall i | 0 <= i < |init| :: init[i] == ts[i];
    }
  }
}
