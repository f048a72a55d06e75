/** The Roll button of the popup (`updateRollButtonDisplay`): its label, built
    from "NdX" notation joined by " + ", and whether it is enabled. */
module RollButton {
  import opened Decimal
  import opened Dice

  datatype Button = Button(text: string, enabled: bool)

  /** One notation part, `${count}${type}`: "2d6". */
  function Part(count: int, t: DieType): string {
    IntToString(count) + Name(t)
  }

  /** The notation parts of the keys `ts` whose count is positive, in order. */
  function Parts(m: Counts, ts: seq<DieType>): seq<string> {
    if ts == [] then []
    else
      var t := ts[|ts| - 1];
      Parts(m, ts[..|ts| - 1]) + (if t in m && m[t] > 0 then [Part(m[t], t)] else [])
  }

  /** `parts.join(sep)` */
  function Join(parts: seq<string>, sep: string): string {
    if |parts| == 0 then ""
    else if |parts| == 1 then parts[0]
    else Join(parts[..|parts| - 1], sep) + sep + parts[|parts| - 1]
  }

  const Separator: string := " + "

  /** The notation of a count object: "1d4 + 2d20". */
  function Notation(m: Counts): string {
    Join(Parts(m, AllTypes), Separator)
  }

  const RollPrefix: string := "Roll: "
  const RollAgainPrefix: string := "Roll Again: "
  const NothingSelected: string := "Roll: Select dice below"

  /** The button for the current selection and last configuration. Its text
      tells whether it is enabled: only the disabled button reads "Roll: Select
      dice below". */
  function ButtonFor(selected: Counts, lastConfig: Counts): (b: Button)
    ensures b.enabled <==> b.text != NothingSelected
  {
    if PositiveSum(selected, AllTypes) > 0 then
      NotationStartsWithDigit(selected);
      assert (RollPrefix + Notation(selected))[6] == Notation(selected)[0];
      Button(RollPrefix + Notation(selected), true)
    else if |lastConfig| > 0 then
      assert (RollAgainPrefix + Notation(lastConfig))[4] == ' ';
      Button(RollAgainPrefix + Notation(lastConfig), true)
    else Button(NothingSelected, false)
  }

  /** The counts the button describes: the selection if it holds a die, else
      the last configuration. */
  function Shown(selected: Counts, lastConfig: Counts): Counts {
    if PositiveSum(selected, AllTypes) > 0 then selected else lastConfig
  }

  /** The button is enabled exactly when some die is selected or a last
      configuration is stored. */
  lemma ButtonEnabled(selected: Counts, lastConfig: Counts)
    ensures ButtonFor(selected, lastConfig).enabled
            <==> (exists t :: CountOf(selected, t) > 0) || lastConfig != map[]
  {
    PositiveSumZero(selected, AllTypes);
    if exists t :: CountOf(selected, t) > 0 {
      var t :| CountOf(selected, t) > 0;
      assert AllTypes[KeyIndex(t)] == t;
    }
    if lastConfig != map[] {
      var t :| t in lastConfig;
      assert t in lastConfig.Keys;
    }
  }

  /** Once a selection is rolled (the selection cleared, the configuration
      kept), the button offers the same dice again: "Roll: X" becomes
      "Roll Again: X". */
  lemma RollAgainShowsRolledDice(selected: Counts, lastConfig: Counts)
    requires PositiveSum(selected, AllTypes) > 0
    ensures ButtonFor(selected, lastConfig).text == RollPrefix + Notation(selected)
    ensures ButtonFor(NoDice, selected) == Button(RollAgainPrefix + Notation(selected), true)
  {
    PositiveSumZero(NoDice, AllTypes);
    assert selected != map[] by {
      PositiveSumZero(selected, AllTypes);
    }
  }

  predicate NoSpace(s: string) {
    forall i | 0 <= i < |s| :: s[i] != ' '
  }

  /** A part with a positive count is non-empty and holds no blank. */
  lemma PartShape(count: int, t: DieType)
    requires count > 0
    ensures |Part(count, t)| > 0 && NoSpace(Part(count, t))
  {
    NameIsDPlusFaces(t);
  }

  /** Distinct (positive count, type) pairs give distinct parts. */
  lemma PartInjective(c1: int, t1: DieType, c2: int, t2: DieType)
    requires c1 > 0 && c2 > 0
    requires Part(c1, t1) == Part(c2, t2)
    ensures c1 == c2 && t1 == t2
  {
    NameIsDPlusFaces(t1);
    NameIsDPlusFaces(t2);
    ParseNatToString(c1, Name(t1));
    ParseNatToString(c2, Name(t2));
    var d := NatToString(c1);
    assert Part(c1, t1)[|d|..] == Name(t1);
    assert Part(c2, t2)[|d|..] == Name(t2);
    NameInjective(t1, t2);
  }

  /** Every part of `Parts(m, ts)` is the part of a key of `ts` with a positive count. */
  lemma {:induction false} PartsMembers(m: Counts, ts: seq<DieType>)
    ensures forall s | s in Parts(m, ts) :: exists t | t in ts :: CountOf(m, t) > 0 && s == Part(m[t], t)
  {
    if ts != [] {
      var init, last := ts[..|ts| - 1], ts[|ts| - 1];
      PartsMembers(m, init);
      assert forall t | t in init :: t in ts;
      assert last in ts;
    }
  }

  /** Over keys in key order, equal part lists agree on the last key's
      positive count and on the parts of the keys before it. */
  lemma LastKeyAgrees(m1: Counts, m2: Counts, ts: seq<DieType>)
    requires forall i, j | 0 <= i < j < |ts| :: KeyIndex(ts[i]) < KeyIndex(ts[j])
    requires ts != [] && Parts(m1, ts) == Parts(m2, ts)
    ensures Parts(m1, ts[..|ts| - 1]) == Parts(m2, ts[..|ts| - 1])
    ensures PositiveCount(m1, ts[|ts| - 1]) == PositiveCount(m2, ts[|ts| - 1])
  {
    var init, last := ts[..|ts| - 1], ts[|ts| - 1];
    var p1, p2 := Parts(m1, init), Parts(m2, init);
    var q := Parts(m1, ts);
    var on1, on2 := CountOf(m1, last) > 0, CountOf(m2, last) > 0;
    if on1 && on2 {
      assert q == p1 + [Part(m1[last], last)] == p2 + [Part(m2[last], last)];
      assert q[|q| - 1] == Part(m1[last], last) == Part(m2[last], last);
      PartInjective(m1[last], last, m2[last], last);
      assert p1 == q[..|q| - 1] == p2;
    } else if on1 {
      assert q == p1 + [Part(m1[last], last)];
      assert q[|q| - 1] == Part(m1[last], last);
      TrailingPartIsEarlier(m2, ts, m1[last]);
      assert false;
    } else if on2 {
      assert Parts(m2, ts) == p2 + [Part(m2[last], last)];
      assert q[|q| - 1] == Part(m2[last], last);
      TrailingPartIsEarlier(m1, ts, m2[last]);
      assert false;
    } else {
      assert q == p1;
      assert Parts(m2, ts) == p2;
    }
  }

  /** Over keys in key order, equal part lists come from equal positive counts. */
  lemma {:induction false} PartsInjective(m1: Counts, m2: Counts, ts: seq<DieType>)
    requires forall i, j | 0 <= i < j < |ts| :: KeyIndex(ts[i]) < KeyIndex(ts[j])
    requires Parts(m1, ts) == Parts(m2, ts)
    ensures forall k | 0 <= k < |ts| :: PositiveCount(m1, ts[k]) == PositiveCount(m2, ts[k])
  {
    if ts != [] {
      var n := |ts| - 1;
      var init := ts[..n];
      LastKeyAgrees(m1, m2, ts);
      assert forall i | 0 <= i < |init| :: init[i] == ts[i];
      PartsInjective(m1, m2, init);
    }
  }

  /** If the last key has no positive count, the part list ends with an
      earlier key's part, never with a part for the last key. */
  lemma TrailingPartIsEarlier(m: Counts, ts: seq<DieType>, c: int)
    requires forall i, j | 0 <= i < j < |ts| :: KeyIndex(ts[i]) < KeyIndex(ts[j])
    requires ts != [] && CountOf(m, ts[|ts| - 1]) <= 0 && c > 0
    ensures Parts(m, ts) == Parts(m, ts[..|ts| - 1])
    ensures Parts(m, ts) != [] ==> Parts(m, ts)[|Parts(m, ts)| - 1] != Part(c, ts[|ts| - 1])
  {
    var init, last := ts[..|ts| - 1], ts[|ts| - 1];
    var p := Parts(m, init);
    assert !(last in m && m[last] > 0);
    assert Parts(m, ts) == p;
    if p != [] && p[|p| - 1] == Part(c, last) {
      PartsMembers(m, init);
      assert p[|p| - 1] in p;
      var t :| t in init && CountOf(m, t) > 0 && p[|p| - 1] == Part(m[t], t);
      PartInjective(m[t], t, c, last);
      assert false;
    }
  }

  /** A joined list is empty only when the list is. */
  lemma {:induction false} JoinLength(parts: seq<string>, sep: string)
    requires forall i | 0 <= i < |parts| :: |parts[i]| > 0
    ensures parts != [] ==> |Join(parts, sep)| >= |parts[|parts| - 1]| > 0
  {
  }

  /** The first separator's blank sits at the end of the joined prefix. */
  lemma JoinHasSpace(parts: seq<string>)
    requires |parts| >= 2
    ensures Join(parts, Separator)[|Join(parts[..|parts| - 1], Separator)|] == ' '
  {
  }

  predicate WellFormedParts(parts: seq<string>) {
    forall i | 0 <= i < |parts| :: |parts[i]| > 0 && NoSpace(parts[i])
  }

  /** Joining parts that hold no blank with " + " loses nothing: equal joined
      texts come from equal part lists. */
  lemma {:induction false} JoinInjective(p1: seq<string>, p2: seq<string>)
    requires WellFormedParts(p1) && WellFormedParts(p2)
    requires Join(p1, Separator) == Join(p2, Separator)
    ensures p1 == p2
    decreases |p1| + |p2|
  {
    var s := Join(p1, Separator);
    if |p1| == 0 || |p2| == 0 {
      JoinLength(p1, Separator);
      JoinLength(p2, Separator);
    } else if |p1| == 1 && |p2| == 1 {
    } else if |p1| == 1 {
      JoinHasSpace(p2);
      assert false;
    } else if |p2| == 1 {
      JoinHasSpace(p1);
      assert false;
    } else {
      var a, b := p1[|p1| - 1], p2[|p2| - 1];
      var h1, h2 := Join(p1[..|p1| - 1], Separator), Join(p2[..|p2| - 1], Separator);
      assert s == h1 + Separator + a == h2 + Separator + b;
      LastPartsAgree(h1, a, h2, b);
      assert h1 == s[..|h1|] == h2;
      JoinInjective(p1[..|p1| - 1], p2[..|p2| - 1]);
      assert p1 == p1[..|p1| - 1] + [a];
      assert p2 == p2[..|p2| - 1] + [b];
    }
  }

  lemma LastPartsAgree(h1: string, a: string, h2: string, b: string)
    requires NoSpace(a) && NoSpace(b)
    requires h1 + Separator + a == h2 + Separator + b
    ensures a == b && |h1| == |h2|
  {
    var s := h1 + Separator + a;
    if |a| < |b| {
      CharOfLastPart(h2, b, |b| - |a| - 1);
      assert false;
    } else if |b| < |a| {
      CharOfLastPart(h1, a, |a| - |b| - 1);
      assert false;
    }
    assert a == s[|s| - |a|..] == b;
  }

  lemma CharOfLastPart(h: string, b: string, j: int)
    requires 0 <= j < |b|
    ensures (h + Separator + b)[|h| + |Separator| + j] == b[j]
  {
  }

  lemma {:induction false} PartsWellFormed(m: Counts, ts: seq<DieType>)
    ensures WellFormedParts(Parts(m, ts))
  {
    if ts != [] {
      PartsWellFormed(m, ts[..|ts| - 1]);
      var t := ts[|ts| - 1];
      if t in m && m[t] > 0 {
        PartShape(m[t], t);
      }
    }
  }

  lemma KeyOrderIncreasing()
    ensures forall i, j | 0 <= i < j < |AllTypes| :: KeyIndex(AllTypes[i]) < KeyIndex(AllTypes[j])
  {
  }

  /** The notation names the positive counts exactly: two count objects with
      the same notation agree on every positive count. */
  lemma NotationInjective(m1: Counts, m2: Counts)
    requires Notation(m1) == Notation(m2)
    ensures forall t :: PositiveCount(m1, t) == PositiveCount(m2, t)
  {
    PartsWellFormed(m1, AllTypes);
    PartsWellFormed(m2, AllTypes);
    JoinInjective(Parts(m1, AllTypes), Parts(m2, AllTypes));
    KeyOrderIncreasing();
    PartsInjective(m1, m2, AllTypes);
    forall t ensures PositiveCount(m1, t) == PositiveCount(m2, t) {
      assert AllTypes[KeyIndex(t)] == t;
    }
  }

  /** A count object in which one key alone has a positive count has a
      single part. */
  lemma {:induction false} PartsOfOnePositive(m: Counts, t: DieType, ts: seq<DieType>)
    requires CountOf(m, t) > 0
    requires forall u | u in ts && u != t :: CountOf(m, u) <= 0
    requires forall i, j | 0 <= i < j < |ts| :: ts[i] != ts[j]
    ensures Parts(m, ts) == if t in ts then [Part(m[t], t)] else []
  {
    if ts != [] {
      var init := ts[..|ts| - 1];
      assert forall u | u in init :: u in ts;
      var last := ts[|ts| - 1];
      PartsOfOnePositive(m, t, init);
      assert t in ts <==> t in init || t == last;
      if t == last {
        assert t !in init;
        assert Parts(m, ts) == Parts(m, init) + [Part(m[t], t)];
      } else {
        assert last in ts && CountOf(m, last) <= 0;
        assert Parts(m, ts) == Parts(m, init);
      }
    }
  }

  /** The notation of a single die: "1dX". */
  lemma SingleDieNotation(t: DieType)
    ensures Notation(map[t := 1]) == Part(1, t)
  {
    KeyOrderIncreasing();
    PartsOfOnePositive(map[t := 1], t, AllTypes);
    assert AllTypes[KeyIndex(t)] == t;
  }

  /** The part list is empty exactly when no key has a positive count. */
  lemma {:induction false} PartsEmpty(m: Counts, ts: seq<DieType>)
    ensures Parts(m, ts) == [] <==> PositiveSum(m, ts) == 0
  {
    if ts != [] {
      PartsEmpty(m, ts[..|ts| - 1]);
    }
  }

  lemma {:induction false} JoinStartsWithFirstPart(parts: seq<string>)
    requires parts != [] && |parts[0]| > 0
    ensures |Join(parts, Separator)| > 0 && Join(parts, Separator)[0] == parts[0][0]
  {
    if |parts| > 1 {
      JoinStartsWithFirstPart(parts[..|parts| - 1]);
    }
  }

  /** The notation of a count object with a die in it starts with a digit. */
  lemma NotationStartsWithDigit(m: Counts)
    requires PositiveSum(m, AllTypes) > 0
    ensures |Notation(m)| > 0 && IsDigit(Notation(m)[0])
  {
    var parts := Parts(m, AllTypes);
    PartsEmpty(m, AllTypes);
    PartsMembers(m, AllTypes);
    assert parts[0] in parts;
    var t :| t in AllTypes && CountOf(m, t) > 0 && parts[0] == Part(m[t], t);
    JoinStartsWithFirstPart(parts);
  }

  /** Two buttons with the same text describe the same dice: they agree on
      being enabled and on every positive count of what they show. */
  lemma SameTextSameDice(s1: Counts, c1: Counts, s2: Counts, c2: Counts)
    requires ButtonFor(s1, c1).text == ButtonFor(s2, c2).text
    ensures ButtonFor(s1, c1).enabled == ButtonFor(s2, c2).enabled
    ensures forall t :: PositiveCount(Shown(s1, c1), t) == PositiveCount(Shown(s2, c2), t)
  {
    var text := ButtonFor(s1, c1).text;
    var sel1, sel2 := PositiveSum(s1, AllTypes) > 0, PositiveSum(s2, AllTypes) > 0;
    if sel1 {
      NotationStartsWithDigit(s1);
      assert text[4] == ':' && IsDigit(text[6]);
    } else if |c1| > 0 {
      assert text[4] == ' ';
    } else {
      assert text[4] == ':' && text[6] == 'S';
    }
    if sel2 {
      NotationStartsWithDigit(s2);
    }
    if sel1 && sel2 {
      assert Notation(s1) == text[|RollPrefix|..] == Notation(s2);
      NotationInjective(s1, s2);
    } else if !sel1 && !sel2 && |c1| > 0 && |c2| > 0 {
      assert Notation(c1) == text[|RollAgainPrefix|..] == Notation(c2);
      NotationInjective(c1, c2);
    } else if !sel1 && !sel2 && |c1| == 0 && |c2| == 0 {
      assert c1 == map[] && c2 == map[];
    }
  }
}
