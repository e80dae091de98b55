/** The rules a lane (BattleField) follows, stated on values: how damage
    runs through a side's defends, how affliction counters change, the
    order in which the two sides' attacks fire, and what one turn's combat
    does to the damage-relevant part of a lane and its two players. The
    BattleField class is proved to follow these functions. */
module LaneRules {
  import opened Common
  import opened Seqs
  import opened Abilities
  import opened Players

  /** Affliction keys (BattleField.AFFLICTIONS). */
  const CHOKED := 0
  const SLOW := 1
  const IRRADIATED := 2
  const FLOODED := 3
  const COVERED := 4

  /** ApplyAffliction's rule for one counter: Choked adds and floors at 0;
      Slow, Flooded and Covered become a flag set by a positive value;
      Irradiated adds and is clamped to 0..4. */
  function AfflictionUpdate(key: int, current: int, val: int): (r: int)
    requires CHOKED <= key <= COVERED
    ensures key == CHOKED ==> 0 <= r && (0 <= current + val ==> r == current + val)
    ensures key == SLOW || key == FLOODED || key == COVERED ==> (r == 1 <==> val > 0) && (r == 0 <==> val <= 0)
    ensures key == IRRADIATED ==> 0 <= r <= 4 && (0 <= current + val <= 4 ==> r == current + val)
    ensures key == IRRADIATED && current + val > 4 ==> r == 4
    ensures key == IRRADIATED && current + val < 0 ==> r == 0
  {
    if key == CHOKED then Max(0, current + val)
    else if key == SLOW || key == FLOODED || key == COVERED then (if val > 0 then 1 else 0)
    else Max(0, Min(4, current + val))
  }

  /** A flag kind forgets its old value: the same value gives the same counter. */
  lemma FlagIgnoresOldValue(key: int, c1: int, c2: int, val: int)
    requires key == SLOW || key == FLOODED || key == COVERED
    ensures AfflictionUpdate(key, c1, val) == AfflictionUpdate(key, c2, val)
  {
  }

  /** Irradiation stays in 0..4 however many deltas are applied. */
  lemma {:induction false} IrradiationStaysInRange(start: int, deltas: seq<int>)
    requires 0 <= start <= 4
    ensures 0 <= Accumulate(IRRADIATED, start, deltas) <= 4
  {
    if deltas != [] {
      IrradiationStaysInRange(start, deltas[..|deltas| - 1]);
    }
  }

  /** Choke never goes negative however many deltas are applied. */
  lemma {:induction false} ChokeNeverNegative(start: int, deltas: seq<int>)
    requires 0 <= start
    ensures 0 <= Accumulate(CHOKED, start, deltas)
  {
    if deltas != [] {
      ChokeNeverNegative(start, deltas[..|deltas| - 1]);
    }
  }

  /** The counter after applying `deltas` to one key in order. */
  function Accumulate(key: int, start: int, deltas: seq<int>): (counter: int)
    requires CHOKED <= key <= COVERED
  {
    if deltas == [] then start
    else AfflictionUpdate(key, Accumulate(key, start, deltas[..|deltas| - 1]), deltas[|deltas| - 1])
  }

  // ---------------------------------------------------------------------
  // Damage through defends (BattleField.TakeDamage)

  /** New defence values, the amount still carried, and whether the pass
      stopped early because the carried amount reached 0. */
  datatype Absorption = Absorption(defs: seq<int>, carried: int, stopped: bool)

  /** The defend loop of BattleField.TakeDamage over the current defence
      values, in list order. As written, the carried amount becomes
      `dmg - overflow`, that is what the defend absorbed, and the pass stops
      as soon as that is 0. */
  function Absorb(defs: seq<int>, dmg: int): (r: Absorption)
    ensures |r.defs| == |defs|
  {
    if defs == [] then Absorption([], dmg, false)
    else
      var carried := dmg - Overflow(defs[0], dmg);
      var left := Remaining(defs[0], dmg);
      if carried == 0 then Absorption([left] + defs[1..], 0, true)
      else
        var rest := Absorb(defs[1..], carried);
        Absorption([left] + rest.defs, rest.carried, rest.stopped)
  }

  /** The values `pre` already settled, in front of the rest of a pass. */
  function Join(pre: seq<int>, r: Absorption): (j: Absorption)
    ensures |j.defs| == |pre| + |r.defs| && j.carried == r.carried && j.stopped == r.stopped
  {
    Absorption(pre + r.defs, r.carried, r.stopped)
  }

  /** One step of the pass from position k: the defend there takes the
      carried amount; the pass stops if what it absorbed is 0 and goes on
      from k + 1 otherwise. */
  lemma AbsorbStep(defs: seq<int>, k: nat, carried: int)
    requires k < |defs|
    ensures var c := carried - Overflow(defs[k], carried);
            var left := Remaining(defs[k], carried);
            Absorb(defs[k..], carried)
              == if c == 0 then Absorption([left] + defs[k + 1..], 0, true)
                 else Join([left], Absorb(defs[k + 1..], c))
  {
    assert defs[k..][0] == defs[k] && defs[k..][1..] == defs[k + 1..];
  }

  /** Settling one more value. */
  lemma JoinJoin(pre: seq<int>, x: int, r: Absorption)
    ensures Join(pre, Join([x], r)) == Join(pre + [x], r)
  {
    assert pre + ([x] + r.defs) == pre + [x] + r.defs;
  }

  /** The pass advanced by one defend, stated for a loop that has settled
      `done` and carries `carried` into position k. */
  lemma AbsorbAdvance(defs: seq<int>, dmg: int, done: seq<int>, k: nat, carried: int)
    requires k < |defs| && Absorb(defs, dmg) == Join(done, Absorb(defs[k..], carried))
    ensures var c := carried - Overflow(defs[k], carried);
            var left := Remaining(defs[k], carried);
            (c == 0 ==> Absorb(defs, dmg) == Absorption(done + [left] + defs[k + 1..], 0, true))
            && (c != 0 ==> Absorb(defs, dmg) == Join(done + [left], Absorb(defs[k + 1..], c)))
  {
    var c := carried - Overflow(defs[k], carried);
    var left := Remaining(defs[k], carried);
    AbsorbStep(defs, k, carried);
    if c == 0 {
      assert done + ([left] + defs[k + 1..]) == done + [left] + defs[k + 1..];
    } else {
      JoinJoin(done, left, Absorb(defs[k + 1..], c));
    }
  }

  /** The smallest of `dmg` and every defence value. */
  function Lowest(dmg: int, defs: seq<int>): (m: int)
    ensures m <= dmg
    ensures forall k :: 0 <= k < |defs| ==> m <= defs[k]
    ensures m == dmg || exists k :: 0 <= k < |defs| && m == defs[k]
    decreases |defs|
  {
    if defs == [] then dmg
    else
      var m := Lowest(Min(dmg, defs[0]), defs[1..]);
      assert forall k :: 1 <= k < |defs| ==> defs[k] == defs[1..][k - 1];
      assert m != Min(dmg, defs[0]) ==> exists k :: 0 <= k < |defs[1..]| && m == defs[1..][k];
      m
  }

  ghost predicate AllNonNegative(s: seq<int>)
  {
    forall k :: 0 <= k < |s| ==> 0 <= s[k]
  }

  /** The player is reached exactly when no defend is empty (or there are
      none) and the damage is not 0, and then takes the smallest of the
      damage and every defence value, never more than the damage. */
  lemma {:induction false} AbsorbReachesPlayer(defs: seq<int>, dmg: int)
    requires 0 <= dmg && AllNonNegative(defs)
    ensures Absorb(defs, dmg).stopped <==> (defs != [] && Lowest(dmg, defs) == 0)
    ensures !Absorb(defs, dmg).stopped ==> Absorb(defs, dmg).carried == Lowest(dmg, defs)
    ensures 0 <= Absorb(defs, dmg).carried <= dmg
  {
    if defs != [] {
      var c := Min(defs[0], dmg);
      assert AllNonNegative(defs[1..]) by {
        forall k | 0 <= k < |defs[1..]| ensures 0 <= defs[1..][k] {
          assert defs[1..][k] == defs[k + 1];
        }
      }
      if c != 0 {
        AbsorbReachesPlayer(defs[1..], c);
      } else {
        LowestOfZero(defs[1..]);
      }
    }
  }

  lemma {:induction false} LowestOfZero(defs: seq<int>)
    requires AllNonNegative(defs)
    ensures Lowest(0, defs) == 0
  {
    if defs != [] {
      assert AllNonNegative(defs[1..]) by {
        forall k | 0 <= k < |defs[1..]| ensures 0 <= defs[1..][k] {
          assert defs[1..][k] == defs[k + 1];
        }
      }
      LowestOfZero(defs[1..]);
    }
  }

  /** What each defend ends the pass with: the k-th defend absorbs from the
      amount still carried when the pass reaches it, and defends the pass
      never reaches keep their value. */
  lemma {:induction false} AbsorbDefsClosedForm(defs: seq<int>, dmg: int, k: nat)
    requires 0 <= dmg && AllNonNegative(defs) && k < |defs|
    ensures Lowest(dmg, defs[..k]) > 0 ==> Absorb(defs, dmg).defs[k] == Remaining(defs[k], Lowest(dmg, defs[..k]))
    ensures Lowest(dmg, defs[..k]) <= 0 ==> Absorb(defs, dmg).defs[k] == defs[k]
    ensures 0 <= Absorb(defs, dmg).defs[k] <= defs[k]
  {
    if k == 0 {
      assert defs[..0] == [];
    } else {
      var c := Min(defs[0], dmg);
      var tail := defs[1..];
      SliceNonNegative(defs, 1, |defs|);
      assert defs[1..|defs|] == tail;
      LowestPastFirst(defs, dmg, k);
      AbsorbPastFirst(defs, dmg, k);
      if c != 0 {
        AbsorbDefsClosedForm(tail, c, k - 1);
      } else {
        SliceNonNegative(tail, 0, k - 1);
        assert tail[0..k - 1] == tail[..k - 1];
        LowestOfZero(tail[..k - 1]);
      }
    }
  }

  /** The smallest value over a prefix, with the first value folded into
      the damage. */
  lemma LowestPastFirst(defs: seq<int>, dmg: int, k: nat)
    requires 0 < k < |defs|
    ensures Lowest(dmg, defs[..k]) == Lowest(Min(dmg, defs[0]), defs[1..][..k - 1])
  {
    assert defs[..k][1..] == defs[1..][..k - 1];
  }

  /** Where the k-th defend ends a pass that starts before it. */
  lemma AbsorbPastFirst(defs: seq<int>, dmg: int, k: nat)
    requires 0 < k < |defs| && 0 <= dmg && 0 <= defs[0]
    ensures Min(defs[0], dmg) != 0 ==> Absorb(defs, dmg).defs[k] == Absorb(defs[1..], Min(defs[0], dmg)).defs[k - 1]
    ensures Min(defs[0], dmg) == 0 ==> Absorb(defs, dmg).defs[k] == defs[1..][k - 1] == defs[k]
  {
  }

  lemma SliceNonNegative(s: seq<int>, i: nat, j: nat)
    requires AllNonNegative(s) && i <= j <= |s|
    ensures AllNonNegative(s[i..j])
  {
    forall t | 0 <= t < j - i ensures 0 <= s[i..j][t] {
      assert s[i..j][t] == s[i + t];
    }
  }

  /** Two defends of 2 and 5 hit for 4: the first empties, the second keeps
      3, and, because the carried amount is what was absorbed rather than
      what overflowed, the player still takes 2. */
  lemma TwoDefendsExample()
    ensures Absorb([2, 5], 4) == Absorption([0, 3], 2, false)
  {
    assert [2, 5][1..] == [5];
  }

  /** An emptied defend at the front blocks every later hit on its side. */
  lemma EmptyDefendBlocks(rest: seq<int>, dmg: int)
    requires 0 <= dmg
    ensures Absorb([0] + rest, dmg).stopped
    ensures Absorb([0] + rest, dmg).defs == [0] + rest
  {
    assert ([0] + rest)[1..] == rest;
  }

  // ---------------------------------------------------------------------
  // The damage-relevant state of a lane and its two players

  /** One side of a lane: the current defence of each of its defends (in
      DEFENDS order), the health of the player registered in that slot, and
      its five affliction counters. */
  datatype Side = Side(defs: seq<int>, health: int, counters: seq<int>)
  {
    predicate Valid()
    {
      |counters| == 5
    }
  }

  /** Both sides of a lane. */
  datatype Arena = Arena(side0: Side, side1: Side)
  {
    predicate Valid()
    {
      side0.Valid() && side1.Valid()
    }

    /** Side `s`. */
    function Of(s: int): (x: Side)
      requires 0 <= s <= 1
    {
      if s == 0 then side0 else side1
    }

    /** Side `s` replaced by `x`. */
    function With(s: int, x: Side): (b: Arena)
      requires 0 <= s <= 1
      ensures b.Of(s) == x && b.Of(1 - s) == Of(1 - s)
    {
      if s == 0 then this.(side0 := x) else this.(side1 := x)
    }
  }

  /** BattleField.TakeDamage on one side: the pass through its defends, then
      the player loses the carried remainder unless the pass stopped. */
  function HitSide(x: Side, dmg: int): (y: Side)
    ensures |y.defs| == |x.defs| && y.counters == x.counters
    ensures y.defs == Absorb(x.defs, dmg).defs
  {
    var r := Absorb(x.defs, dmg);
    x.(defs := r.defs, health := if r.stopped then x.health else DamagedHealth(x.health, r.carried))
  }

  /** BattleField.TakeDamage(side, dmg) on the arena: the other side is untouched. */
  function Hit(a: Arena, side: int, dmg: int): (b: Arena)
    requires a.Valid() && 0 <= side <= 1
    ensures b.Valid() && b.Of(side) == HitSide(a.Of(side), dmg) && b.Of(1 - side) == a.Of(1 - side)
  {
    a.With(side, HitSide(a.Of(side), dmg))
  }

  /** An arena whose hit side is as HitSide leaves it and whose other side
      is untouched is the hit arena. */
  lemma HitTakes(a: Arena, side: int, dmg: int, b: Arena)
    requires a.Valid() && 0 <= side <= 1
    requires b.Of(side) == HitSide(a.Of(side), dmg) && b.Of(1 - side) == a.Of(1 - side)
    ensures b == Hit(a, side, dmg)
  {
  }

  /** ApplyAffliction's update of one counter of a side. */
  function AfflictSide(x: Side, key: int, val: int): (y: Side)
    requires x.Valid() && CHOKED <= key <= COVERED
    ensures y.Valid() && y.defs == x.defs && y.health == x.health
    ensures y.counters[key] == AfflictionUpdate(key, x.counters[key], val)
    ensures forall k :: 0 <= k < 5 && k != key ==> y.counters[k] == x.counters[k]
  {
    x.(counters := x.counters[key := AfflictionUpdate(key, x.counters[key], val)])
  }

  /** ApplyAffliction(side, {key, val}) on the arena, for a valid key. */
  function Afflict(a: Arena, side: int, key: int, val: int): (b: Arena)
    requires a.Valid() && 0 <= side <= 1 && CHOKED <= key <= COVERED
    ensures b.Valid() && b.Of(side) == AfflictSide(a.Of(side), key, val) && b.Of(1 - side) == a.Of(1 - side)
  {
    a.With(side, AfflictSide(a.Of(side), key, val))
  }

  /** Replacing a side's counters by the updated ones is Afflict. */
  lemma AfflictOnSide(a: Arena, side: int, key: int, val: int, c: seq<int>)
    requires a.Valid() && 0 <= side <= 1 && CHOKED <= key <= COVERED
    requires c == a.Of(side).counters[key := AfflictionUpdate(key, a.Of(side).counters[key], val)]
    ensures a.With(side, a.Of(side).(counters := c)) == Afflict(a, side, key, val)
  {
  }

  /** One side's choke: damage equal to its choke counter, then one choke
      consumed. */
  function ChokeStep(a: Arena, side: int): (b: Arena)
    requires a.Valid() && 0 <= side <= 1
    ensures b.Valid()
  {
    Afflict(Hit(a, side, a.Of(side).counters[CHOKED]), side, CHOKED, -1)
  }

  /** One side's irradiation: at 4 it takes (h + 1) / 2 with C#'s truncating
      division, where h is the health the code reads. */
  function IrradiateStep(a: Arena, side: int, h: int): (b: Arena)
    requires a.Valid() && 0 <= side <= 1
    ensures b.Valid()
  {
    if a.Of(side).counters[IRRADIATED] == 4 then Hit(a, side, TruncDiv(h + 1, 2)) else a
  }

  /** EnactAfflictions(p): choke damage to p then to the other side, each
      followed by consuming one choke; then irradiation damage to each side
      at 4, computed from the health of the player in slot 0 for side p and
      in slot 1 for the other side. */
  function AfterAfflictions(a: Arena, p: int): (b: Arena)
    requires a.Valid() && 0 <= p <= 1
    ensures b.Valid()
  {
    var s := 1 - p;
    var a4 := ChokeStep(ChokeStep(a, p), s);
    var a5 := IrradiateStep(a4, p, a4.side0.health);
    IrradiateStep(a5, s, a5.side1.health)
  }

  /** After the affliction step each side has one choke fewer (never below
      0) and every other counter is as it was. */
  lemma AfflictionsConsumeOneChoke(a: Arena, p: int, s: int)
    requires a.Valid() && 0 <= p <= 1 && 0 <= s <= 1
    ensures AfterAfflictions(a, p).Of(s).counters == a.Of(s).counters[CHOKED := Max(0, a.Of(s).counters[CHOKED] - 1)]
  {
  }

  /** ceil(h / 2) for a non-negative h. */
  function HalfUp(h: nat): (r: nat)
    ensures r + r == h || r + r == h + 1
  {
    if h % 2 == 0 then h / 2 else h / 2 + 1
  }

  /** The affliction step read with each side's own health h: irradiation
      takes ceil(h / 2) of the afflicted side's own health. */
  function AfterAfflictionsOwnHealth(a: Arena, p: int): (b: Arena)
    requires a.Valid() && 0 <= p <= 1
  {
    var s := 1 - p;
    var a4 := ChokeStep(ChokeStep(a, p), s);
    var a5 := if a4.Of(p).counters[IRRADIATED] == 4 then Hit(a4, p, HalfUp(Max(0, a4.Of(p).health))) else a4;
    if a5.Of(s).counters[IRRADIATED] == 4 then Hit(a5, s, HalfUp(Max(0, a5.Of(s).health))) else a5
  }

  /** Non-negative damage never takes a player below 0. */
  lemma HitHealthStaysNonNegative(a: Arena, side: int, dmg: int)
    requires a.Valid() && 0 <= side <= 1 && 0 <= dmg
    requires a.side0.health >= 0 && a.side1.health >= 0
    ensures Hit(a, side, dmg).side0.health >= 0 && Hit(a, side, dmg).side1.health >= 0
  {
  }

  /** With priority 0, the only priority CalculatePlayerPriority returns,
      reading slots 0 and 1 is reading each side's own health, so the
      fixed-slot code agrees with the own-health reading. */
  lemma PriorityZeroIrradiatesOwnHealth(a: Arena)
    requires a.Valid()
    requires a.side0.health >= 0 && a.side1.health >= 0
    requires a.side0.counters[CHOKED] >= 0 && a.side1.counters[CHOKED] >= 0
    ensures AfterAfflictions(a, 0) == AfterAfflictionsOwnHealth(a, 0)
  {
    HitHealthStaysNonNegative(a, 0, a.side0.counters[CHOKED]);
    var a2 := ChokeStep(a, 0);
    HitHealthStaysNonNegative(a2, 1, a2.side1.counters[CHOKED]);
    var a4 := ChokeStep(a2, 1);
    assert TruncDiv(a4.side0.health + 1, 2) == HalfUp(a4.side0.health);
    HitHealthStaysNonNegative(a4, 0, HalfUp(a4.side0.health));
    var a5 := IrradiateStep(a4, 0, a4.side0.health);
    assert TruncDiv(a5.side1.health + 1, 2) == HalfUp(a5.side1.health);
  }

  /** With priority 1 the code would irradiate side 1 by half of slot 0's
      health: side 1 at 2 health, side 0 at 10, takes 5 and dies, where its
      own health would have cost it 1. */
  lemma PriorityOneIrradiatesFromSlotZero()
    ensures var a := Arena(Side([], 10, [0, 0, 0, 0, 0]), Side([], 2, [0, 0, 4, 0, 0]));
            AfterAfflictions(a, 1).side1.health == 0
            && AfterAfflictionsOwnHealth(a, 1).side1.health == 1
  {
    var a := Arena(Side([], 10, [0, 0, 0, 0, 0]), Side([], 2, [0, 0, 4, 0, 0]));
    assert Absorb([], 0) == Absorption([], 0, false);
    assert ChokeStep(a, 1) == a;
    assert ChokeStep(a, 0) == a;
    assert TruncDiv(10 + 1, 2) == 5;
    assert Absorb([], 5) == Absorption([], 5, false);
    assert Absorb([], 1) == Absorption([], 1, false);
  }

  // ---------------------------------------------------------------------
  // Order of activation (H_EnactAllAbilitiesInCategory)

  /** Side `side` fires the ability at `index` of its list. */
  datatype Activation = Activation(side: int, index: int)

  /** The cursor loop: `i` walks side 0's list, `j` side 1's; while either
      is in range, side 0 fires when i <= j and side 1 otherwise, and the
      cursor moves on even when its list is exhausted. The loop starts with
      i at the priority side and j at 0. */
  function Schedule(n0: nat, n1: nat, i: nat, j: nat): (r: seq<Activation>)
    requires j <= i <= j + 1
    decreases 2 * (Max(n0, n1) + 1) - i - j
  {
    if !(i < n0 || j < n1) then []
    else if i <= j then (if i < n0 then [Activation(0, i)] else []) + Schedule(n0, n1, i + 1, j)
    else (if j < n1 then [Activation(1, j)] else []) + Schedule(n0, n1, i, j + 1)
  }

  /** The loop only fires abilities in range, from the cursors onwards. */
  lemma {:induction false} ScheduleBounds(n0: nat, n1: nat, i: nat, j: nat)
    requires j <= i <= j + 1
    ensures forall x :: x in Schedule(n0, n1, i, j) ==> (x.side == 0 && i <= x.index < n0) || (x.side == 1 && j <= x.index < n1)
    decreases 2 * (Max(n0, n1) + 1) - i - j
  {
    if i < n0 || j < n1 {
      if i <= j {
        ScheduleBounds(n0, n1, i + 1, j);
      } else {
        ScheduleBounds(n0, n1, i, j + 1);
      }
    }
  }

  /** The loop started at priority p has fired `fired` and stands at
      cursors (i, j): what it fires from here completes its schedule. */
  ghost predicate Pending(n0: nat, n1: nat, p: nat, fired: seq<Activation>, i: nat, j: nat)
  {
    p <= 1 && j <= i <= j + 1 && fired + Schedule(n0, n1, i, j) == Schedule(n0, n1, p, 0)
  }

  /** One turn of the loop: it fires side 0's i-th when i <= j and side
      1's j-th otherwise, if that index is in range, and moves that cursor. */
  lemma ScheduleTurn(n0: nat, n1: nat, p: nat, fired: seq<Activation>, i: nat, j: nat)
    requires Pending(n0, n1, p, fired, i, j) && (i < n0 || j < n1)
    ensures i <= j ==> Pending(n0, n1, p, if i < n0 then fired + [Activation(0, i)] else fired, i + 1, j)
    ensures j < i ==> Pending(n0, n1, p, if j < n1 then fired + [Activation(1, j)] else fired, i, j + 1)
  {
    var rest := Schedule(n0, n1, i, j);
    if i <= j {
      var next := Schedule(n0, n1, i + 1, j);
      if i < n0 {
        assert rest == [Activation(0, i)] + next;
        assert fired + ([Activation(0, i)] + next) == (fired + [Activation(0, i)]) + next;
      } else {
        assert rest == next;
      }
    } else {
      var next := Schedule(n0, n1, i, j + 1);
      if j < n1 {
        assert rest == [Activation(1, j)] + next;
        assert fired + ([Activation(1, j)] + next) == (fired + [Activation(1, j)]) + next;
      } else {
        assert rest == next;
      }
    }
  }

  /** When both cursors are past their lists, the loop has fired its whole
      schedule. */
  lemma ScheduleDone(n0: nat, n1: nat, p: nat, fired: seq<Activation>, i: nat, j: nat)
    requires Pending(n0, n1, p, fired, i, j) && !(i < n0 || j < n1)
    ensures fired == Schedule(n0, n1, p, 0)
  {
    assert fired + [] == fired;
  }

  /** Reference order: round k fires side 0's k-th, then side 1's k-th. */
  function Rounds(n0: nat, n1: nat, k: nat): (r: seq<Activation>)
    decreases Max(n0, n1) - k
  {
    if k >= n0 && k >= n1 then []
    else (if k < n0 then [Activation(0, k)] else []) + (if k < n1 then [Activation(1, k)] else [])
         + Rounds(n0, n1, k + 1)
  }

  /** Side `side`'s activations from index k up to n, in order. */
  function Run(side: int, k: nat, n: nat): (r: seq<Activation>)
    ensures |r| == if k <= n then n - k else 0
    decreases n - k
  {
    if k >= n then [] else [Activation(side, k)] + Run(side, k + 1, n)
  }

  predicate OnSideZero(x: Activation) { x.side == 0 }
  predicate OnSideOne(x: Activation) { x.side == 1 }

  /** Started with both cursors level, the loop fires in rounds. */
  lemma {:induction false} ScheduleIsRounds(n0: nat, n1: nat, k: nat)
    ensures Schedule(n0, n1, k, k) == Rounds(n0, n1, k)
    decreases Max(n0, n1) - k
  {
    if k < n0 || k < n1 {
      if k + 1 < n0 || k < n1 {
        ScheduleIsRounds(n0, n1, k + 1);
        assert Schedule(n0, n1, k + 1, k)
            == (if k < n1 then [Activation(1, k)] else []) + Schedule(n0, n1, k + 1, k + 1);
      } else {
        assert Rounds(n0, n1, k + 1) == [];
      }
    }
  }

  /** Each side's activations, taken alone, are its whole list once, in order. */
  lemma {:induction false} RoundsPerSide(n0: nat, n1: nat, k: nat)
    ensures Filter(Rounds(n0, n1, k), OnSideZero) == Run(0, k, n0)
    ensures Filter(Rounds(n0, n1, k), OnSideOne) == Run(1, k, n1)
    decreases Max(n0, n1) - k
  {
    if k < n0 || k < n1 {
      RoundsPerSide(n0, n1, k + 1);
      var head := (if k < n0 then [Activation(0, k)] else []) + (if k < n1 then [Activation(1, k)] else []);
      FilterAppend(head, Rounds(n0, n1, k + 1), OnSideZero);
      FilterAppend(head, Rounds(n0, n1, k + 1), OnSideOne);
      FilterAppend(if k < n0 then [Activation(0, k)] else [], if k < n1 then [Activation(1, k)] else [], OnSideZero);
      FilterAppend(if k < n0 then [Activation(0, k)] else [], if k < n1 then [Activation(1, k)] else [], OnSideOne);
    }
  }

  /** With priority 0 every attack of both sides fires exactly once, each
      side in its list order, alternating from side 0 while both have some
      left. */
  lemma PriorityZeroFiresEachOnceInOrder(n0: nat, n1: nat)
    ensures Schedule(n0, n1, 0, 0) == Rounds(n0, n1, 0)
    ensures Filter(Schedule(n0, n1, 0, 0), OnSideZero) == Run(0, 0, n0)
    ensures Filter(Schedule(n0, n1, 0, 0), OnSideOne) == Run(1, 0, n1)
  {
    ScheduleIsRounds(n0, n1, 0);
    RoundsPerSide(n0, n1, 0);
  }

  /** Attacks [A, B, C] against [X, Y] fire as A, X, B, Y, C. */
  lemma ThreeAgainstTwo()
    ensures Schedule(3, 2, 0, 0)
         == [Activation(0, 0), Activation(1, 0), Activation(0, 1), Activation(1, 1), Activation(0, 2)]
  {
  }

  /** Were the priority 1, side 0's first attack would never fire: the
      cursor for side 0 starts at the priority value. */
  lemma PriorityOneSkipsFirstAttack(n0: nat, n1: nat)
    ensures Activation(0, 0) !in Schedule(n0, n1, 1, 0)
  {
    ScheduleBounds(n0, n1, 1, 0);
  }

  /** An activation names an ability in range on its side's list. */
  ghost predicate InRange(acts: seq<Activation>, l0: seq<Ability>, l1: seq<Ability>)
  {
    forall x :: x in acts ==> (x.side == 0 && 0 <= x.index < |l0|) || (x.side == 1 && 0 <= x.index < |l1|)
  }

  /** H_EnactAbility on the arena: an Attack on side s deals its damage to
      side 1 - s; any other ability does nothing. */
  function Enact(a: Arena, ability: Ability, side: int): (b: Arena)
    requires a.Valid() && 0 <= side <= 1
    ensures b.Valid() && b.Of(side) == a.Of(side) && b.Of(1 - side).counters == a.Of(1 - side).counters
    ensures !ability.kind.Attack? ==> b == a
  {
    if ability.kind.Attack? then Hit(a, 1 - side, ability.kind.dmg) else a
  }

  /** The activation's ability, enacted. */
  function Activate(a: Arena, x: Activation, l0: seq<Ability>, l1: seq<Ability>): (b: Arena)
    requires a.Valid()
    requires (x.side == 0 && 0 <= x.index < |l0|) || (x.side == 1 && 0 <= x.index < |l1|)
    ensures b.Valid() && b.side0.counters == a.side0.counters && b.side1.counters == a.side1.counters
  {
    Enact(a, if x.side == 0 then l0[x.index] else l1[x.index], x.side)
  }

  /** The activations in order, on the arena. */
  function Fire(a: Arena, acts: seq<Activation>, l0: seq<Ability>, l1: seq<Ability>): (b: Arena)
    requires a.Valid() && InRange(acts, l0, l1)
    ensures b.Valid() && b.side0.counters == a.side0.counters && b.side1.counters == a.side1.counters
  {
    if acts == [] then a
    else
      assert acts[|acts| - 1] in acts;
      Activate(Fire(a, acts[..|acts| - 1], l0, l1), acts[|acts| - 1], l0, l1)
  }

  /** Firing one more activation after `acts`. */
  lemma FireSnoc(a: Arena, acts: seq<Activation>, x: Activation, l0: seq<Ability>, l1: seq<Ability>)
    requires a.Valid() && InRange(acts, l0, l1)
    requires (x.side == 0 && 0 <= x.index < |l0|) || (x.side == 1 && 0 <= x.index < |l1|)
    ensures InRange(acts + [x], l0, l1)
    ensures Fire(a, acts + [x], l0, l1) == Activate(Fire(a, acts, l0, l1), x, l0, l1)
  {
    assert (acts + [x])[..|acts|] == acts;
  }

  /** The cursor loop over two lists of abilities, started at priority p,
      on the arena. */
  function Volley(a: Arena, p: int, l0: seq<Ability>, l1: seq<Ability>): (b: Arena)
    requires a.Valid() && 0 <= p <= 1
    ensures b.Valid() && b.side0.counters == a.side0.counters && b.side1.counters == a.side1.counters
  {
    ScheduleBounds(|l0|, |l1|, p, 0);
    Fire(a, Schedule(|l0|, |l1|, p, 0), l0, l1)
  }

  /** One turn's combat on a lane (EnactAfflictions, then EnactAbilities),
      given the two sides' ATTACKS lists. */
  function Combat(a: Arena, p: int, l0: seq<Ability>, l1: seq<Ability>): (b: Arena)
    requires a.Valid() && 0 <= p <= 1
    ensures b.Valid()
  {
    Volley(AfterAfflictions(a, p), p, l0, l1)
  }

  // ---------------------------------------------------------------------
  // Affliction damage (BattleField.TakeAfflictionDamage, ApplyAffliction)

  /** A defend of the hit's element takes the damage first, and whatever
      it absorbed is then dealt again as plain damage to the side. */
  function HitMatching(a: Arena, side: int, dmg: int, m: int): (b: Arena)
    requires a.Valid() && 0 <= side <= 1 && 0 <= m < |a.Of(side).defs|
    ensures b.Valid() && b.Of(1 - side) == a.Of(1 - side) && b.Of(side).counters == a.Of(side).counters
  {
    var x := a.Of(side);
    var cur := x.defs[m];
    var carried := dmg - Overflow(cur, dmg);
    var a1 := a.With(side, x.(defs := x.defs[m := Remaining(cur, dmg)]));
    if carried > 0 then Hit(a1, side, carried) else a1
  }

  /** Why ApplyAffliction throws. */
  datatype AfflictionError = BadPlayer(player: int) | BadKey(key: int)

  /** Whether a lane operation completed or threw. */
  datatype Outcome = Done | Thrown(error: AfflictionError)

  /** The arena an affliction hit leaves, or the exception it throws. */
  datatype Landed = Landed(arena: Arena) | Threw(error: AfflictionError)

  /** A Defend of element `e` (Defend.isElement). */
  predicate Matches(a: Ability, e: Element)
  {
    a.kind.Defend? && a.kind.element == e
  }

  /** Position of the first defend of element `e`, or -1 when there is none. */
  function MatchIndex(ds: seq<Ability>, e: Element): (m: int)
    ensures -1 <= m < |ds|
    ensures m == -1 <==> forall k :: 0 <= k < |ds| ==> !Matches(ds[k], e)
    ensures m != -1 ==> Matches(ds[m], e) && forall k :: 0 <= k < m ==> !Matches(ds[k], e)
  {
    if ds == [] then -1
    else if Matches(ds[0], e) then 0
    else
      var r := MatchIndex(ds[1..], e);
      assert forall k :: 1 <= k < |ds| ==> ds[k] == ds[1..][k - 1];
      if r == -1 then -1 else r + 1
  }

  /** TakeAfflictionDamage(side, dmg, {key, val}, element) on the arena, where
      `m` is the position of the first defend of that element on the side
      (-1 for none). Key -1 is plain damage. A matching defend absorbs
      first; then, if it absorbed anything, the amount it absorbed is dealt
      as plain damage to the side (through every defend, the matching one
      again), and no affliction is applied. Otherwise the affliction is
      applied, throwing on a bad key, and the damage follows. */
  function AfflictionDamage(a: Arena, side: int, dmg: int, key: int, val: int, m: int): (r: Landed)
    requires a.Valid() && 0 <= side <= 1 && -1 <= m < |a.Of(side).defs|
    ensures r.Threw? <==> key != -1 && m == -1 && !(CHOKED <= key <= COVERED)
    ensures r.Threw? ==> r.error == BadKey(key)
    ensures r.Landed? ==> r.arena.Valid() && r.arena.Of(1 - side) == a.Of(1 - side)
    ensures key == -1 ==> r == Landed(Hit(a, side, dmg))
    ensures key != -1 && m != -1 ==> r.Landed? && r.arena.Of(side).counters == a.Of(side).counters
    ensures key != -1 && m == -1 && CHOKED <= key <= COVERED ==>
              r.Landed? && r.arena.Of(side).counters[key] == AfflictionUpdate(key, a.Of(side).counters[key], val)
  {
    if key == -1 then Landed(Hit(a, side, dmg))
    else if m != -1 then Landed(HitMatching(a, side, dmg, m))
    else if !(CHOKED <= key <= COVERED) then Threw(BadKey(key))
    else Landed(Hit(Afflict(a, side, key, val), side, dmg))
  }

  /** A matching defend is hit twice: 3 damage against a matching defend of
      5 leaves it at 2, then the 3 it absorbed is dealt again as plain
      damage, the defend absorbs its last 2, and the 2 it absorbed reaches
      the player, although the defend had room for the whole hit. */
  lemma MatchingDefendAbsorbsTwice()
    ensures var a := Arena(Side([5], 10, [0, 0, 0, 0, 0]), Side([], 10, [0, 0, 0, 0, 0]));
            AfflictionDamage(a, 0, 3, SLOW, 1, 0) == Landed(a.(side0 := Side([0], 8, [0, 0, 0, 0, 0])))
  {
    var a := Arena(Side([5], 10, [0, 0, 0, 0, 0]), Side([], 10, [0, 0, 0, 0, 0]));
    var a1 := a.(side0 := Side([2], 10, [0, 0, 0, 0, 0]));
    assert Absorb([2], 3) == Absorption([0], 2, false);
    assert Hit(a1, 0, 3) == a.(side0 := Side([0], 8, [0, 0, 0, 0, 0]));
  }
}
