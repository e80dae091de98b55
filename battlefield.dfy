/** One lane of the board (BattleField): a 2 x 4 grid of ability lists,
    one row per side, and a 2 x 5 grid of affliction counters, both updated
    in place. The two players are reached through an explicit Registry
    rather than the static player table. Every combat operation is proved
    to act on the lane and the players as the matching function of
    LaneRules does on an Arena snapshot. */
module Lanes {
  import opened Common
  import opened Seqs
  import opened Abilities
  import opened Players
  import opened LaneRules

  /** Views of a side's abilities (BattleField.ABILITIES). */
  const ALL := 0
  const ATTACKS := 1
  const DEFENDS := 2
  const OTHER := 3

  predicate IsAttack(a: Ability) { a.kind.Attack? }
  predicate IsDefend(a: Ability) { a.kind.Defend? }
  predicate IsNotDefend(a: Ability) { !a.kind.Defend? }

  /** Current defence of each ability of `ds`, in order. */
  ghost function CurrentDefs(ds: seq<Ability>): (r: seq<int>)
    reads ds`currentDef
    ensures |r| == |ds|
  {
    if ds == [] then [] else [ds[0].currentDef] + CurrentDefs(ds[1..])
  }

  /** Position k of CurrentDefs is the k-th defend's current defence. */
  lemma {:induction false} CurrentDefsAt(ds: seq<Ability>)
    ensures forall k :: 0 <= k < |ds| ==> CurrentDefs(ds)[k] == ds[k].currentDef
  {
    if ds != [] {
      CurrentDefsAt(ds[1..]);
    }
  }

  /** CurrentDefs read off element by element. */
  lemma {:induction false} CurrentDefsAre(ds: seq<Ability>, cur: seq<int>)
    requires |cur| == |ds| && forall j :: 0 <= j < |ds| ==> ds[j].currentDef == cur[j]
    ensures CurrentDefs(ds) == cur
  {
    CurrentDefsAt(ds);
  }

  /** Defences that no step changed read the same. */
  twostate lemma {:induction false} DefsKept(ds: seq<Ability>)
    requires forall a :: a in ds ==> a.currentDef == old(a.currentDef)
    ensures CurrentDefs(ds) == old(CurrentDefs(ds))
  {
    if ds != [] {
      DefsKept(ds[1..]);
    }
  }

  lemma NoDupDistinct<T>(s: seq<T>, i: int, j: int)
    requires NoDup(s) && 0 <= i < |s| && 0 <= j < |s| && i != j
    ensures s[i] != s[j]
  {
    if i < j {
      assert DistinctAt(s, i, j);
    } else {
      assert DistinctAt(s, j, i);
    }
  }

  /** Remaining lifespan of each ability of `s`, in order. */
  ghost function TurnsOf(s: seq<Ability>): (r: seq<int>)
    reads s`numTurns
    ensures |r| == |s|
  {
    if s == [] then [] else [s[0].numTurns] + TurnsOf(s[1..])
  }

  /** Lifespans that no step changed read the same. */
  twostate lemma {:induction false} TurnsKept(s: seq<Ability>)
    requires forall a :: a in s ==> a.numTurns == old(a.numTurns)
    ensures TurnsOf(s) == old(TurnsOf(s))
  {
    if s != [] {
      TurnsKept(s[1..]);
    }
  }

  /** The lifespans `turns` once the first k of them have lost a turn. */
  function Worn(turns: seq<int>, k: nat): (r: seq<int>)
    requires k <= |turns|
    ensures |r| == |turns|
  {
    seq(|turns|, j requires 0 <= j < |turns| => turns[j] - (if j < k then 1 else 0))
  }

  /** `ability`, the k-th of the distinct abilities `orig`, loses a turn;
      the others keep theirs. */
  method LoseTurn(ability: Ability, ghost orig: seq<Ability>, ghost turns: seq<int>, ghost k: nat)
    requires NoDup(orig) && k < |orig| && ability == orig[k]
    requires |turns| == |orig| && TurnsOf(orig) == Worn(turns, k)
    modifies ability`numTurns
    ensures TurnsOf(orig) == Worn(turns, k + 1)
    ensures ability.Expired() <==> turns[k] <= 1
  {
    TurnsOfAt(orig);
    assert Worn(turns, k)[k] == turns[k];
    ability.DecrementTurns();
    forall j | 0 <= j < |orig| && j != k
      ensures orig[j].numTurns == old(orig[j].numTurns)
    {
      NoDupDistinct(orig, j, k);
    }
    TurnsOfAt(orig);
    assert TurnsOf(orig) == Worn(turns, k + 1) by {
      forall j | 0 <= j < |orig|
        ensures TurnsOf(orig)[j] == Worn(turns, k + 1)[j]
      {
        if j != k {
          assert old(TurnsOf(orig))[j] == Worn(turns, k)[j];
        }
      }
    }
  }

  /** TurnsOf read off element by element. */
  lemma {:induction false} TurnsOfAt(s: seq<Ability>)
    ensures forall k :: 0 <= k < |s| ==> TurnsOf(s)[k] == s[k].numTurns
  {
    if s != [] {
      TurnsOfAt(s[1..]);
    }
  }

  /** The abilities among the first n of `s` that outlive one more turn,
      given each one's lifespan `turns` before it: those with more than one
      turn left, in order. */
  function Survivors(s: seq<Ability>, turns: seq<int>, n: nat): (r: seq<Ability>)
    requires |turns| == |s| && n <= |s|
    ensures |r| <= n
  {
    if n == 0 then []
    else Survivors(s, turns, n - 1) + (if turns[n - 1] > 1 then [s[n - 1]] else [])
  }

  /** Every survivor is one of the abilities before n. */
  lemma {:induction false} SurvivorsWithin(s: seq<Ability>, turns: seq<int>, n: nat)
    requires |turns| == |s| && n <= |s|
    ensures forall a :: a in Survivors(s, turns, n) ==> a in s[..n]
  {
    if n > 0 {
      SurvivorsWithin(s, turns, n - 1);
      assert forall a :: a in s[..n - 1] ==> a in s[..n] by {
        assert s[..n - 1] == s[..n][..n - 1];
      }
    }
  }

  /** One step of the lifecycle pass on values: with the survivors of the
      first k abilities followed by the unvisited ones, the cursor i is at
      ability k, and removing it when it expires (or keeping it) leaves the
      survivors of the first k + 1 followed by the rest. */
  lemma AgeStep(orig: seq<Ability>, turns: seq<int>, k: nat, i: int, cur: seq<Ability>)
    requires |turns| == |orig| && k < |orig| && NoDup(orig)
    requires cur == Survivors(orig, turns, k) + orig[k..]
    requires i == |Survivors(orig, turns, k)|
    ensures 0 <= i < |cur| && cur[i] == orig[k]
    ensures turns[k] <= 1 ==> RemoveFirst(cur, orig[k]) == Survivors(orig, turns, k + 1) + orig[k + 1..]
                              && i == |Survivors(orig, turns, k + 1)|
    ensures turns[k] > 1 ==> cur == Survivors(orig, turns, k + 1) + orig[k + 1..]
                             && i + 1 == |Survivors(orig, turns, k + 1)|
  {
    var done := Survivors(orig, turns, k);
    var rest := orig[k + 1..];
    assert orig[k..] == [orig[k]] + rest;
    assert cur == done + [orig[k]] + rest;
    if turns[k] <= 1 {
      SurvivorsWithin(orig, turns, k);
      assert orig[k] !in done by {
        forall j | 0 <= j < k ensures orig[..k][j] != orig[k] {
          assert DistinctAt(orig, j, k);
        }
      }
      RemoveFirstAfterPrefix(done, orig[k], rest);
    } else {
      assert cur == (done + [orig[k]]) + rest;
    }
  }

  /** A side's four lists: ALL, ATTACKS, DEFENDS and OTHER. */
  datatype Lists = Lists(all: seq<Ability>, attacks: seq<Ability>, defends: seq<Ability>, other: seq<Ability>)
  {
    /** ALL holds no ability twice, and ATTACKS, DEFENDS and OTHER are
        exactly the Attacks, the Defends and the non-Defends of ALL, in
        ALL's order. */
    ghost predicate Views()
    {
      NoDup(all) && attacks == Filter(all, IsAttack) && defends == Filter(all, IsDefend) && other == Filter(all, IsNotDefend)
    }

    /** AddAbility on one side: ALL always grows; an Attack also goes to
        ATTACKS; a Defend goes to DEFENDS and anything else to OTHER. */
    function Add(a: Ability): (l: Lists)
    {
      Lists(all + [a], attacks + (if a.kind.Attack? then [a] else []),
            defends + (if a.kind.Defend? then [a] else []), other + (if a.kind.Defend? then [] else [a]))
    }

    /** RemoveAbility on one side: the first occurrence leaves each list. */
    function Remove(a: Ability): (l: Lists)
    {
      Lists(RemoveFirst(all, a), RemoveFirst(attacks, a), RemoveFirst(defends, a), RemoveFirst(other, a))
    }
  }

  /** No ability of `x` is in `y`. */
  ghost predicate Apart(x: seq<Ability>, y: seq<Ability>)
  {
    forall a :: a in x ==> a !in y
  }

  /** Only Defends, none twice. */
  ghost predicate DefendList(ds: seq<Ability>)
  {
    NoDup(ds) && forall a :: a in ds ==> a.kind.Defend?
  }

  /** Both sides' lists are consistent and no ability sits on both sides. */
  ghost predicate LaneFormed(x: Lists, y: Lists)
  {
    x.Views() && y.Views() && Apart(x.all, y.all) && Apart(y.all, x.all)
  }

  /** Adding an ability that is on neither side keeps the lane consistent. */
  lemma AddKeepsFormed(x: Lists, y: Lists, a: Ability)
    requires LaneFormed(x, y) && a !in x.all && a !in y.all
    ensures LaneFormed(x.Add(a), y) && LaneFormed(y, x.Add(a))
  {
    FilterAppend(x.all, [a], IsAttack);
    FilterAppend(x.all, [a], IsDefend);
    FilterAppend(x.all, [a], IsNotDefend);
    assert NoDup(x.all + [a]) by {
      forall i, j | 0 <= i < j < |x.all + [a]| ensures DistinctAt(x.all + [a], i, j) {
        assert (x.all + [a])[i] == x.all[i];
        if j < |x.all| {
          assert (x.all + [a])[j] == x.all[j];
          assert DistinctAt(x.all, i, j);
        }
      }
    }
  }

  /** Removing an ability keeps the lane consistent and takes it off the
      side; nothing new appears on the side. */
  lemma RemoveKeepsFormed(x: Lists, y: Lists, a: Ability)
    requires LaneFormed(x, y)
    ensures LaneFormed(x.Remove(a), y) && LaneFormed(y, x.Remove(a))
    ensures a !in x.Remove(a).all
  {
    FilterRemoveFirst(x.all, a, IsAttack);
    FilterRemoveFirst(x.all, a, IsDefend);
    FilterRemoveFirst(x.all, a, IsNotDefend);
    NoDupRemoveFirst(x.all, a);
  }

  class BattleField {
    const abilities: array2<seq<Ability>>
    const afflictions: array2<int>
    /** The table of players that PlayerData.GetPlayer reads. */
    const reg: Registry

    predicate Valid()
    {
      abilities.Length0 == 2 && abilities.Length1 == 4 && afflictions.Length0 == 2 && afflictions.Length1 == 5
      && reg.Valid()
    }

    /** Side `s`'s four lists. */
    ghost function SideLists(s: int): (l: Lists)
      requires Valid() && 0 <= s <= 1
      reads abilities
      ensures l.all == abilities[s, ALL] && l.attacks == abilities[s, ATTACKS]
      ensures l.defends == abilities[s, DEFENDS] && l.other == abilities[s, OTHER]
    {
      Lists(abilities[s, ALL], abilities[s, ATTACKS], abilities[s, DEFENDS], abilities[s, OTHER])
    }

    /** The lane's lists are consistent. */
    ghost predicate WellFormed()
      requires Valid()
      reads abilities
    {
      LaneFormed(SideLists(0), SideLists(1))
    }

    /** Side `s`'s five affliction counters. */
    ghost function CountersOf(s: int): (c: seq<int>)
      requires Valid() && 0 <= s <= 1
      reads afflictions
      ensures |c| == 5 && forall k :: 0 <= k < 5 ==> c[k] == afflictions[s, k]
    {
      [afflictions[s, 0], afflictions[s, 1], afflictions[s, 2], afflictions[s, 3], afflictions[s, 4]]
    }

    /** The damage-relevant state of side `s`: its defends, the player in
        slot `s`, its counters. */
    ghost function SideOf(s: int): (x: Side)
      requires Valid() && reg.Ready() && 0 <= s <= 1
      reads abilities, abilities[s, DEFENDS]`currentDef, afflictions, reg.players, (reg.players[s] as PlayerData)`health
      ensures x.Valid()
    {
      Side(CurrentDefs(abilities[s, DEFENDS]), reg.players[s].health, CountersOf(s))
    }

    /** The damage-relevant state of the lane and the two players. */
    ghost function Snapshot(): (a: Arena)
      requires Valid() && reg.Ready()
      reads abilities, abilities[0, DEFENDS]`currentDef, abilities[1, DEFENDS]`currentDef, afflictions
      reads reg.players, (reg.players[0] as PlayerData)`health, (reg.players[1] as PlayerData)`health
      ensures a.Valid() && a.side0 == SideOf(0) && a.side1 == SideOf(1)
    {
      Arena(SideOf(0), SideOf(1))
    }

    /** A side none of whose defends, player or counters changed is as it was. */
    twostate lemma SideUnchanged(s: int)
      requires Valid() && reg.Ready() && old(reg.Ready()) && 0 <= s <= 1
      requires unchanged(abilities) && unchanged(afflictions) && unchanged(reg.players)
      requires forall a :: a in abilities[s, DEFENDS] ==> a.currentDef == old(a.currentDef)
      requires reg.players[s].health == old(reg.players[s].health)
      ensures SideOf(s) == old(SideOf(s))
    {
      DefsKept(abilities[s, DEFENDS]);
    }

    /** Only the defends of side `s` changed. */
    twostate lemma DefendsMoved(s: int)
      requires Valid() && reg.Ready() && old(reg.Ready()) && 0 <= s <= 1
      requires unchanged(abilities) && unchanged(afflictions) && unchanged(reg.players)
      requires forall a :: a in abilities[1 - s, DEFENDS] ==> a.currentDef == old(a.currentDef)
      requires reg.players[0].health == old(reg.players[0].health)
      requires reg.players[1].health == old(reg.players[1].health)
      ensures Snapshot() == old(Snapshot()).With(s, old(SideOf(s)).(defs := CurrentDefs(abilities[s, DEFENDS])))
    {
      SideUnchanged(1 - s);
    }

    /** Start: every list empty; the counters start at 0. */
    constructor (registry: Registry)
      requires registry.Valid()
      ensures this.reg == registry
      ensures Valid() && WellFormed() && fresh(abilities) && fresh(afflictions)
      ensures forall s, k :: 0 <= s < 2 && 0 <= k < 4 ==> abilities[s, k] == []
      ensures forall s, k :: 0 <= s < 2 && 0 <= k < 5 ==> afflictions[s, k] == 0
    {
      reg := registry;
      abilities := new seq<Ability>[2, 4];
      afflictions := new int[2, 5]((_, _) => 0);
      new;
      for i := 0 to abilities.Length0
        invariant forall s, k :: 0 <= s < i && 0 <= k < 4 ==> abilities[s, k] == []
        invariant forall s, k :: 0 <= s < 2 && 0 <= k < 5 ==> afflictions[s, k] == 0
      {
        for j := 0 to abilities.Length1
          invariant forall s, k :: 0 <= s < i && 0 <= k < 4 ==> abilities[s, k] == []
          invariant forall k :: 0 <= k < j ==> abilities[i, k] == []
          invariant forall s, k :: 0 <= s < 2 && 0 <= k < 5 ==> afflictions[s, k] == 0
        {
          abilities[i, j] := [];
        }
      }
    }

    /** CalculatePlayerPriority: the side that acts first. */
    function PlayerPriority(): (p: int)
      ensures 0 <= p <= 1
    {
      0
    }

    /** AddAbility: the side's lists grow as Lists.Add says, so an Attack
        is in OTHER too; adding an ability that is on neither side keeps the
        lane consistent. */
    method AddAbility(player: int, ability: Ability)
      requires Valid() && 0 <= player <= 1
      modifies abilities
      ensures SideLists(player) == old(SideLists(player)).Add(ability)
      ensures SideLists(1 - player) == old(SideLists(1 - player))
      ensures old(WellFormed()) && ability !in old(abilities[0, ALL]) && ability !in old(abilities[1, ALL]) ==> WellFormed()
    {
      ghost var x, y := SideLists(player), SideLists(1 - player);
      abilities[player, ALL] := abilities[player, ALL] + [ability];
      if ability.kind.Attack? {
        abilities[player, ATTACKS] := abilities[player, ATTACKS] + [ability];
      }
      if ability.kind.Defend? {
        abilities[player, DEFENDS] := abilities[player, DEFENDS] + [ability];
      } else {
        abilities[player, OTHER] := abilities[player, OTHER] + [ability];
      }
      assert SideLists(player) == x.Add(ability);
      assert SideLists(1 - player) == y;
      if old(WellFormed()) && ability !in x.all && ability !in y.all {
        AddKeepsFormed(x, y, ability);
      }
    }

    /** RemoveAbility: the first occurrence leaves each of the side's four
        lists; the lane stays consistent and the ability is off the side. */
    method RemoveAbility(player: int, ability: Ability)
      requires Valid() && 0 <= player <= 1
      modifies abilities
      ensures SideLists(player) == old(SideLists(player)).Remove(ability)
      ensures SideLists(1 - player) == old(SideLists(1 - player))
      ensures old(WellFormed()) ==> WellFormed() && ability !in abilities[player, ALL]
    {
      ghost var x, y := SideLists(player), SideLists(1 - player);
      for i := 0 to 4
        invariant forall k :: 0 <= k < i ==> abilities[player, k] == RemoveFirst(old(abilities[player, k]), ability)
        invariant forall k :: i <= k < 4 ==> abilities[player, k] == old(abilities[player, k])
        invariant SideLists(1 - player) == y
      {
        abilities[player, i] := RemoveFirst(abilities[player, i], ability);
      }
      assert SideLists(player) == x.Remove(ability);
      if LaneFormed(x, y) {
        RemoveKeepsFormed(x, y, ability);
      }
    }

    /** ApplyAffliction(player, {key, val}): throws on a bad side or key and
        changes nothing; otherwise updates that one counter. */
    method ApplyAffliction(player: int, key: int, val: int) returns (outcome: Outcome)
      requires Valid()
      modifies afflictions
      ensures !(0 <= player <= 1) ==> outcome == Thrown(BadPlayer(player)) && unchanged(afflictions)
      ensures 0 <= player <= 1 && !(CHOKED <= key <= COVERED) ==>
                outcome == Thrown(BadKey(key)) && unchanged(afflictions)
      ensures 0 <= player <= 1 && CHOKED <= key <= COVERED ==>
                outcome == Done
                && CountersOf(player) == old(CountersOf(player))[key := AfflictionUpdate(key, old(afflictions[player, key]), val)]
                && CountersOf(1 - player) == old(CountersOf(1 - player))
    {
      if player < 0 || player > 1 {
        return Thrown(BadPlayer(player));
      }
      if key < 0 || key > COVERED {
        return Thrown(BadKey(key));
      }
      if key == CHOKED {
        afflictions[player, key] := Max(0, afflictions[player, key] + val);
      } else if key == SLOW || key == FLOODED || key == COVERED {
        if val > 0 {
          afflictions[player, key] := 1;
        } else {
          afflictions[player, key] := 0;
        }
      } else if key == IRRADIATED {
        afflictions[player, key] := Max(0, Min(4, afflictions[player, key] + val));
      }
      outcome := Done;
    }

    /** Only the counters of side `s` changed. */
    twostate lemma CountersMoved(s: int)
      requires Valid() && reg.Ready() && old(reg.Ready()) && 0 <= s <= 1
      requires unchanged(abilities) && unchanged(reg.players)
      requires forall a :: a in abilities[0, DEFENDS] ==> a.currentDef == old(a.currentDef)
      requires forall a :: a in abilities[1, DEFENDS] ==> a.currentDef == old(a.currentDef)
      requires reg.players[0].health == old(reg.players[0].health)
      requires reg.players[1].health == old(reg.players[1].health)
      requires CountersOf(1 - s) == old(CountersOf(1 - s))
      ensures Snapshot() == old(Snapshot()).With(s, old(SideOf(s)).(counters := CountersOf(s)))
    {
      DefsKept(abilities[0, DEFENDS]);
      DefsKept(abilities[1, DEFENDS]);
    }

    /** What combat relies on: the players are registered, each DEFENDS
        list holds Defends only, none twice, and no defend is on both
        sides. */
    ghost predicate CombatReady()
      requires Valid()
      reads abilities, reg.players
    {
      reg.Ready()
      && DefendList(abilities[0, DEFENDS]) && DefendList(abilities[1, DEFENDS])
      && Apart(abilities[0, DEFENDS], abilities[1, DEFENDS])
    }

    lemma DefendsOf(side: int)
      requires Valid() && CombatReady() && 0 <= side <= 1
      ensures DefendList(abilities[side, DEFENDS])
      ensures Apart(abilities[1 - side, DEFENDS], abilities[side, DEFENDS])
    {
    }

    /** A consistent lane with registered players is ready for combat. */
    lemma WellFormedIsCombatReady()
      requires Valid() && WellFormed() && reg.Ready()
      ensures CombatReady()
    {
      NoDupFilter(abilities[0, ALL], IsDefend);
      NoDupFilter(abilities[1, ALL], IsDefend);
      FilterIn(abilities[0, ALL], IsDefend);
      FilterIn(abilities[1, ALL], IsDefend);
    }

    /** TakeDamage(direction, dmg): runs the damage through the side's
        defends in order and gives the player what is left, unless the
        carried amount reached 0 first. */
    method TakeDamage(direction: int, dmg: int)
      requires Valid() && CombatReady() && 0 <= direction <= 1
      modifies abilities[direction, DEFENDS]`currentDef, (reg.players[direction] as PlayerData)`health
      ensures Snapshot() == Hit(old(Snapshot()), direction, dmg)
    {
      var ds := abilities[direction, DEFENDS];
      DefendsOf(direction);
      ghost var a0 := Snapshot();
      ghost var x := SideOf(direction);
      assert a0.Of(direction) == x;
      var carried, stopped := RunDefends(ds, dmg);
      ghost var r := Absorb(x.defs, dmg);
      assert CurrentDefs(ds) == r.defs && reg.players[direction].health == x.health;
      if !stopped {
        reg.GetPlayer(direction).TakeDamage(carried);
        assert CurrentDefs(ds) == r.defs;
      }
      assert SideOf(direction) == HitSide(x, dmg);
      SideUnchanged(1 - direction);
      ghost var b := Snapshot();
      assert b.Of(direction) == SideOf(direction) && b.Of(1 - direction) == SideOf(1 - direction);
      HitTakes(a0, direction, dmg, b);
    }

    /** TakeAfflictionDamage(direction, dmg, {key, val}, element): key -1 is
        plain damage; a defend of the element absorbs the hit and keeps the
        affliction off; otherwise the affliction is applied, then the
        damage. */
    method TakeAfflictionDamage(direction: int, dmg: int, key: int, val: int, element: Element)
      returns (outcome: Outcome)
      requires Valid() && CombatReady() && 0 <= direction <= 1
      modifies abilities[direction, DEFENDS]`currentDef, afflictions, (reg.players[direction] as PlayerData)`health
      ensures var r := AfflictionDamage(old(Snapshot()), direction, dmg, key, val,
                                        MatchIndex(abilities[direction, DEFENDS], element));
              (r.Threw? ==> outcome == Thrown(r.error) && Snapshot() == old(Snapshot()))
              && (r.Landed? ==> outcome == Done && Snapshot() == r.arena)
    {
      if key != -1 {
        var ds := abilities[direction, DEFENDS];
        for k := 0 to |ds|
          invariant forall j :: 0 <= j < k ==> !Matches(ds[j], element)
        {
          if ds[k].IsElement(element) {
            assert MatchIndex(ds, element) == k;
            AbsorbMatching(direction, k, dmg);
            return Done;
          }
        }
        assert MatchIndex(ds, element) == -1;
        outcome := AfflictThenDamage(direction, dmg, key, val);
      } else {
        TakeDamage(direction, dmg);
        outcome := Done;
      }
    }

    /** The matching-defend branch of TakeAfflictionDamage. */
    method AbsorbMatching(direction: int, k: int, dmg: int)
      requires Valid() && CombatReady() && 0 <= direction <= 1 && 0 <= k < |abilities[direction, DEFENDS]|
      modifies abilities[direction, DEFENDS]`currentDef, (reg.players[direction] as PlayerData)`health
      ensures Snapshot() == HitMatching(old(Snapshot()), direction, dmg, k)
    {
      var ds := abilities[direction, DEFENDS];
      DefendsOf(direction);
      ghost var a0 := Snapshot();
      ghost var before := CurrentDefs(ds);
      assert before == a0.Of(direction).defs;
      CurrentDefsAt(ds);
      label Before:
      var over := ds[k].TakeDamage(dmg);
      forall j | 0 <= j < |ds| && j != k
        ensures ds[j].currentDef == old@Before(ds[j].currentDef)
      {
        NoDupDistinct(ds, j, k);
      }
      CurrentDefsAre(ds, before[k := Remaining(before[k], dmg)]);
      DefendsMoved@Before(direction);
      ghost var a1 := Snapshot();
      assert a1 == a0.With(direction, a0.Of(direction).(defs := before[k := Remaining(before[k], dmg)]));
      var carried := dmg - over;
      assert carried == dmg - Overflow(before[k], dmg);
      if carried > 0 {
        TakeDamage(direction, carried);
      }
    }

    /** The branch of TakeAfflictionDamage where no defend matched: apply
        the affliction (which may throw), then deal the damage. */
    method AfflictThenDamage(direction: int, dmg: int, key: int, val: int) returns (outcome: Outcome)
      requires Valid() && CombatReady() && 0 <= direction <= 1
      modifies abilities[direction, DEFENDS]`currentDef, afflictions, (reg.players[direction] as PlayerData)`health
      ensures !(CHOKED <= key <= COVERED) ==> outcome == Thrown(BadKey(key)) && Snapshot() == old(Snapshot())
      ensures CHOKED <= key <= COVERED ==>
                outcome == Done && Snapshot() == Hit(Afflict(old(Snapshot()), direction, key, val), direction, dmg)
    {
      ghost var a0 := Snapshot();
      label Before:
      outcome := ApplyAffliction(direction, key, val);
      if outcome.Thrown? {
        return;
      }
      CountersMoved@Before(direction);
      AfflictOnSide(a0, direction, key, val, CountersOf(direction));
      TakeDamage(direction, dmg);
    }

    /** One side's choke in EnactAfflictions. */
    method Choke(side: int)
      requires Valid() && CombatReady() && 0 <= side <= 1
      modifies afflictions, abilities[side, DEFENDS]`currentDef, (reg.players[side] as PlayerData)`health
      ensures Snapshot() == ChokeStep(old(Snapshot()), side)
    {
      TakeDamage(side, afflictions[side, CHOKED]);
      ghost var a1 := Snapshot();
      label Hit:
      var _ := ApplyAffliction(side, CHOKED, -1);
      CountersMoved@Hit(side);
      AfflictOnSide(a1, side, CHOKED, -1, CountersOf(side));
    }

    /** One side's irradiation in EnactAfflictions, halving the health of
        the player in slot `slot`. */
    method Irradiate(side: int, slot: int)
      requires Valid() && CombatReady() && 0 <= side <= 1 && 0 <= slot <= 1
      modifies abilities[side, DEFENDS]`currentDef, (reg.players[side] as PlayerData)`health
      ensures Snapshot() == IrradiateStep(old(Snapshot()), side, old(Snapshot()).Of(slot).health)
    {
      if afflictions[side, IRRADIATED] == 4 {
        TakeDamage(side, TruncDiv(reg.GetPlayer(slot).health + 1, 2));
      }
    }

    /** EnactAfflictions(player): choke damage and consumption for the
        priority side, then the other; then irradiation damage, read from
        the health of the players in slots 0 and 1. */
    method EnactAfflictions(player: int)
      requires Valid() && CombatReady() && 0 <= player <= 1
      modifies afflictions, abilities[0, DEFENDS]`currentDef, abilities[1, DEFENDS]`currentDef
      modifies (reg.players[0] as PlayerData)`health, (reg.players[1] as PlayerData)`health
      ensures Snapshot() == AfterAfflictions(old(Snapshot()), player)
    {
      var second := 1 - player;
      Choke(player);
      Choke(second);
      Irradiate(player, 0);
      Irradiate(second, 1);
    }

    /** EnactAbilities(player): only the ATTACKS category is enacted. */
    method EnactAbilities(player: int)
      requires Valid() && CombatReady() && 0 <= player <= 1
      modifies abilities[0, DEFENDS]`currentDef, abilities[1, DEFENDS]`currentDef
      modifies (reg.players[0] as PlayerData)`health, (reg.players[1] as PlayerData)`health
      ensures Snapshot() == Volley(old(Snapshot()), player, abilities[0, ATTACKS], abilities[1, ATTACKS])
    {
      EnactCategory(player, ATTACKS);
    }

    /** Midway through H_EnactAllAbilitiesInCategory on the lists l0 and
        l1: the activations `fired` so far have taken the arena from a0 to
        the current one. */
    ghost predicate Enacting(category: int, l0: seq<Ability>, l1: seq<Ability>, a0: Arena, fired: seq<Activation>)
      requires Valid() && reg.Ready() && 0 <= category < 4
      reads abilities, abilities[0, DEFENDS]`currentDef, abilities[1, DEFENDS]`currentDef
      reads reg.players, (reg.players[0] as PlayerData)`health, (reg.players[1] as PlayerData)`health
      reads afflictions
    {
      l0 == abilities[0, category] && l1 == abilities[1, category]
      && a0.Valid() && InRange(fired, l0, l1) && Snapshot() == Fire(a0, fired, l0, l1)
    }

    /** The body of one turn for side `side`: H_EnactAbility on the ability
        under the cursor `idx` of that side's list in `category`, if the
        list reaches that far; the activations fired so far grow by it. */
    method EnactAt(side: int, category: int, idx: nat, ghost l0: seq<Ability>, ghost l1: seq<Ability>,
                   ghost a0: Arena, ghost fired: seq<Activation>) returns (ghost fired': seq<Activation>)
      requires Valid() && CombatReady() && 0 <= side <= 1 && 0 <= category < 4 && Enacting(category, l0, l1, a0, fired)
      modifies abilities[0, DEFENDS]`currentDef, abilities[1, DEFENDS]`currentDef
      modifies (reg.players[0] as PlayerData)`health, (reg.players[1] as PlayerData)`health
      ensures fired' == if idx < |if side == 0 then l0 else l1| then fired + [Activation(side, idx)] else fired
      ensures Enacting(category, l0, l1, a0, fired')
    {
      fired' := fired;
      if idx < |abilities[side, category]| {
        var ability := abilities[side, category][idx];
        EnactAbility(ability, side);
        FireSnoc(a0, fired, Activation(side, idx), l0, l1);
        fired' := fired + [Activation(side, idx)];
      }
    }

    /** H_EnactAllAbilitiesInCategory: the cursor loop of Schedule, enacting
        each ability it reaches. */
    method EnactCategory(player: int, category: int)
      requires Valid() && CombatReady() && 0 <= player <= 1 && 0 <= category < 4
      modifies abilities[0, DEFENDS]`currentDef, abilities[1, DEFENDS]`currentDef
      modifies (reg.players[0] as PlayerData)`health, (reg.players[1] as PlayerData)`health
      ensures Snapshot() == Volley(old(Snapshot()), player, abilities[0, category], abilities[1, category])
    {
      ghost var l0 := abilities[0, category];
      ghost var l1 := abilities[1, category];
      ghost var n0 := |l0|;
      ghost var n1 := |l1|;
      ghost var a0 := Snapshot();
      ghost var fired: seq<Activation> := [];
      var i: nat := player;
      var j: nat := 0;
      while i < |abilities[0, category]| || j < |abilities[1, category]|
        invariant CombatReady() && Enacting(category, l0, l1, a0, fired)
        invariant Pending(n0, n1, player, fired, i, j)
        decreases 2 * (Max(n0, n1) + 1) - i - j
      {
        ScheduleTurn(n0, n1, player, fired, i, j);
        if i <= j {
          fired := EnactAt(0, category, i, l0, l1, a0, fired);
          i := i + 1;
        } else {
          fired := EnactAt(1, category, j, l0, l1, a0, fired);
          j := j + 1;
        }
      }
      ScheduleDone(n0, n1, player, fired, i, j);
    }

    /** H_EnactAbility: an Attack deals its damage to the opposite side;
        nothing else is enacted. */
    method EnactAbility(ability: Ability, side: int)
      requires Valid() && CombatReady() && 0 <= side <= 1
      modifies abilities[0, DEFENDS]`currentDef, abilities[1, DEFENDS]`currentDef
      modifies (reg.players[0] as PlayerData)`health, (reg.players[1] as PlayerData)`health
      ensures Snapshot() == Enact(old(Snapshot()), ability, side)
    {
      if ability.kind.Attack? {
        DealDamage(ability, 1 - side, this);
      }
    }

    /** Where the lifecycle pass over side `plyr` stands once it has
        visited the first k abilities of `orig` (whose lifespans were
        `turns`) with the cursor at i: the visited ones have lost a turn,
        the expired ones among them are gone, the rest are untouched. */
    ghost predicate AgedUpTo(plyr: int, orig: seq<Ability>, turns: seq<int>, k: int, i: int)
      requires Valid() && 0 <= plyr <= 1
      reads abilities, orig`numTurns
    {
      WellFormed() && NoDup(orig) && |turns| == |orig| && 0 <= k <= |orig|
      && abilities[plyr, ALL] == Survivors(orig, turns, k) + orig[k..]
      && i == |Survivors(orig, turns, k)|
      && TurnsOf(orig) == Worn(turns, k)
    }

    /** Before the pass nothing has been visited. */
    lemma AgedNone(plyr: int, orig: seq<Ability>)
      requires Valid() && 0 <= plyr <= 1 && WellFormed() && orig == abilities[plyr, ALL]
      ensures AgedUpTo(plyr, orig, TurnsOf(orig), 0, 0)
    {
      TurnsOfAt(orig);
      assert orig[0..] == orig;
      assert TurnsOf(orig) == Worn(TurnsOf(orig), 0);
    }

    /** Once the cursor has run off the end of ALL, every ability has been
        visited: ALL holds exactly the survivors and each ability lost one
        turn. */
    lemma AgedAll(plyr: int, orig: seq<Ability>, turns: seq<int>, k: int, i: int)
      requires Valid() && 0 <= plyr <= 1 && AgedUpTo(plyr, orig, turns, k, i)
      requires i >= |abilities[plyr, ALL]|
      ensures WellFormed() && abilities[plyr, ALL] == Survivors(orig, turns, |orig|)
      ensures TurnsOf(orig) == Worn(turns, |orig|)
    {
      assert k == |orig|;
      assert orig[k..] == [];
    }

    /** The body of EnactBattle's inner loop: the ability at the cursor
        loses a turn and, if that expires it, is removed from the side's
        four lists and the cursor steps back. */
    method AgeNext(plyr: int, i: int, ghost orig: seq<Ability>, ghost turns: seq<int>, ghost k: int) returns (next: int)
      requires Valid() && 0 <= plyr <= 1 && AgedUpTo(plyr, orig, turns, k, i) && i < |abilities[plyr, ALL]|
      modifies abilities, orig`numTurns
      ensures k < |orig| && AgedUpTo(plyr, orig, turns, k + 1, next + 1)
      ensures SideLists(1 - plyr) == old(SideLists(1 - plyr))
    {
      ghost var cur := abilities[plyr, ALL];
      AgeStep(orig, turns, k, i, cur);
      var ability := abilities[plyr, ALL][i];
      LoseTurn(ability, orig, turns, k);
      next := i;
      if ability.Expired() {
        RemoveAbility(plyr, ability);
        assert abilities[plyr, ALL] == RemoveFirst(cur, ability);
        next := i - 1;
      }
    }

    /** The lifecycle pass for one side (EnactBattle's inner loop): every ability of ALL loses a turn, and each that expires is
        removed from all four lists, the index stepping back over it. */
    method AgeSide(plyr: int)
      requires Valid() && WellFormed() && 0 <= plyr <= 1
      modifies abilities, abilities[plyr, ALL]`numTurns
      ensures WellFormed()
      ensures abilities[plyr, ALL] == Survivors(old(abilities[plyr, ALL]), old(TurnsOf(abilities[plyr, ALL])), |old(abilities[plyr, ALL])|)
      ensures TurnsOf(old(abilities[plyr, ALL])) == Worn(old(TurnsOf(abilities[plyr, ALL])), |old(abilities[plyr, ALL])|)
      ensures SideLists(1 - plyr) == old(SideLists(1 - plyr))
    {
      ghost var orig := abilities[plyr, ALL];
      ghost var turns := TurnsOf(orig);
      AgedNone(plyr, orig);
      ghost var k := 0;
      var i := 0;
      while i < |abilities[plyr, ALL]|
        invariant AgedUpTo(plyr, orig, turns, k, i)
        invariant SideLists(1 - plyr) == old(SideLists(1 - plyr))
        decreases |orig| - k
      {
        i := AgeNext(plyr, i, orig, turns, k);
        i := i + 1;
        k := k + 1;
      }
      AgedAll(plyr, orig, turns, k, i);
    }

    /** Each side's list holds exactly the survivors of `all0`/`all1`
        whose lifespans were `turns0`/`turns1`, in their old order. */
    ghost predicate AgedFrom(all0: seq<Ability>, turns0: seq<int>, all1: seq<Ability>, turns1: seq<int>)
      requires Valid() && |turns0| == |all0| && |turns1| == |all1|
      reads abilities
    {
      abilities[0, ALL] == Survivors(all0, turns0, |all0|) && abilities[1, ALL] == Survivors(all1, turns1, |all1|)
    }

    /** The lifecycle pass of EnactBattle over both sides in turn: on each
        side every ability loses a turn and the expired ones are removed. */
    method AgeAll()
      requires Valid() && WellFormed()
      modifies abilities, abilities[0, ALL]`numTurns, abilities[1, ALL]`numTurns
      ensures WellFormed()
      ensures AgedFrom(old(abilities[0, ALL]), old(TurnsOf(abilities[0, ALL])), old(abilities[1, ALL]), old(TurnsOf(abilities[1, ALL])))
      ensures TurnsOf(old(abilities[0, ALL])) == Worn(old(TurnsOf(abilities[0, ALL])), |old(abilities[0, ALL])|)
      ensures TurnsOf(old(abilities[1, ALL])) == Worn(old(TurnsOf(abilities[1, ALL])), |old(abilities[1, ALL])|)
    {
      ghost var all0, all1 := abilities[0, ALL], abilities[1, ALL];
      ghost var turns0, turns1 := TurnsOf(all0), TurnsOf(all1);
      assert Apart(all0, all1);
      AgeSide(0);
      ghost var surv0 := abilities[0, ALL];
      forall o: Ability | o in all1
        ensures o.numTurns == old(o.numTurns)
      {
        assert o !in all0;
      }
      TurnsKept(all1);
      label Mid:
      AgeSide(1);
      assert abilities[0, ALL] == old@Mid(SideLists(0)).all == surv0;
      forall o: Ability | o in all0
        ensures o.numTurns == old@Mid(o.numTurns)
      {
        assert o !in all1;
      }
      TurnsKept@Mid(all0);
    }

    /** EnactAfflictions then EnactAbilities with the priority side first. */
    method Fight(p: int)
      requires Valid() && WellFormed() && reg.Ready() && p == PlayerPriority()
      modifies afflictions, abilities[0, DEFENDS]`currentDef, abilities[1, DEFENDS]`currentDef
      modifies (reg.players[0] as PlayerData)`health, (reg.players[1] as PlayerData)`health
      ensures Shows(old(Fought()), old(abilities[0, DEFENDS]), old(abilities[1, DEFENDS]))
    {
      WellFormedIsCombatReady();
      ghost var want := Fought();
      EnactAfflictions(p);
      EnactAbilities(p);
      assert Snapshot() == want;
      SnapshotShows();
    }

    /** The lane shows its own snapshot. */
    lemma SnapshotShows()
      requires Valid() && reg.Ready()
      ensures Shows(Snapshot(), abilities[0, DEFENDS], abilities[1, DEFENDS])
    {
    }

    /** The players' health, the counters and the defends `d0` and `d1`
        are those of the arena `a`. */
    ghost predicate Shows(a: Arena, d0: seq<Ability>, d1: seq<Ability>)
      requires Valid() && reg.Ready()
      reads afflictions, d0`currentDef, d1`currentDef
      reads reg.players, (reg.players[0] as PlayerData)`health, (reg.players[1] as PlayerData)`health
    {
      reg.players[0].health == a.side0.health && reg.players[1].health == a.side1.health
      && CountersOf(0) == a.side0.counters && CountersOf(1) == a.side1.counters
      && CurrentDefs(d0) == a.side0.defs && CurrentDefs(d1) == a.side1.defs
    }

    /** What one turn's combat makes of the lane as it stands. */
    ghost function Fought(): (b: Arena)
      requires Valid() && reg.Ready()
      reads abilities, abilities[0, DEFENDS]`currentDef, abilities[1, DEFENDS]`currentDef, afflictions
      reads reg.players, (reg.players[0] as PlayerData)`health, (reg.players[1] as PlayerData)`health
      ensures b.Valid()
    {
      Combat(Snapshot(), PlayerPriority(), abilities[0, ATTACKS], abilities[1, ATTACKS])
    }

    /** AgeAll, which leaves the health, the counters and the defences alone. */
    method AgeKeeping(ghost x: Arena, ghost d0: seq<Ability>, ghost d1: seq<Ability>)
      requires Valid() && WellFormed() && reg.Ready() && Shows(x, d0, d1)
      modifies abilities, abilities[0, ALL]`numTurns, abilities[1, ALL]`numTurns
      ensures WellFormed() && Shows(x, d0, d1)
      ensures AgedFrom(old(abilities[0, ALL]), old(TurnsOf(abilities[0, ALL])), old(abilities[1, ALL]), old(TurnsOf(abilities[1, ALL])))
      ensures TurnsOf(old(abilities[0, ALL])) == Worn(old(TurnsOf(abilities[0, ALL])), |old(abilities[0, ALL])|)
      ensures TurnsOf(old(abilities[1, ALL])) == Worn(old(TurnsOf(abilities[1, ALL])), |old(abilities[1, ALL])|)
    {
      AgeAll();
    }

    /** EnactBattle: afflictions and attacks with the priority side first,
        then the lifecycle pass over both sides: the health, counters and
        defences are what Combat makes of the old lane, every ability that
        was on a side lost exactly one turn, and each side keeps exactly the
        abilities that had more than one turn left. */
    method EnactBattle()
      requires Valid() && WellFormed() && reg.Ready()
      modifies abilities, afflictions, abilities[0, ALL]`numTurns, abilities[1, ALL]`numTurns
      modifies abilities[0, DEFENDS]`currentDef, abilities[1, DEFENDS]`currentDef
      modifies (reg.players[0] as PlayerData)`health, (reg.players[1] as PlayerData)`health
      ensures WellFormed()
      ensures Shows(old(Fought()), old(abilities[0, DEFENDS]), old(abilities[1, DEFENDS]))
      ensures AgedFrom(old(abilities[0, ALL]), old(TurnsOf(abilities[0, ALL])), old(abilities[1, ALL]), old(TurnsOf(abilities[1, ALL])))
      ensures TurnsOf(old(abilities[0, ALL])) == Worn(old(TurnsOf(abilities[0, ALL])), |old(abilities[0, ALL])|)
      ensures TurnsOf(old(abilities[1, ALL])) == Worn(old(TurnsOf(abilities[1, ALL])), |old(abilities[1, ALL])|)
    {
      var playerPriority := PlayerPriority();
      Fight(playerPriority);
      TurnsKept(abilities[0, ALL]);
      TurnsKept(abilities[1, ALL]);
      AgeKeeping(old(Fought()), old(abilities[0, DEFENDS]), old(abilities[1, DEFENDS]));
    }
  }

  /** Attack.DealDamage(direction, field): exactly field.TakeDamage(direction,
      dmg); the Attack itself is not changed. */
  method DealDamage(attack: Ability, direction: int, field: BattleField)
    requires attack.kind.Attack?
    requires field.Valid() && field.CombatReady() && 0 <= direction <= 1
    modifies field.abilities[direction, DEFENDS]`currentDef, (field.reg.players[direction] as PlayerData)`health
    ensures field.Snapshot() == Hit(old(field.Snapshot()), direction, attack.kind.dmg)
  {
    field.TakeDamage(direction, attack.kind.dmg);
  }

  /** The foreach loop of BattleField.TakeDamage: each defend in turn takes
      the carried damage, the carried amount drops by the overflow, and the
      loop stops once it is 0. */
  method RunDefends(ds: seq<Ability>, dmg: int) returns (carried: int, stopped: bool)
    requires DefendList(ds)
    modifies ds`currentDef
    ensures var r := Absorb(old(CurrentDefs(ds)), dmg);
            CurrentDefs(ds) == r.defs && carried == r.carried && stopped == r.stopped
  {
    ghost var orig := CurrentDefs(ds);
    CurrentDefsAt(ds);
    ghost var done: seq<int> := [];
    carried := dmg;
    for k := 0 to |ds|
      invariant |done| == k
      invariant forall j :: 0 <= j < k ==> ds[j].currentDef == done[j]
      invariant forall j :: k <= j < |ds| ==> ds[j].currentDef == orig[j]
      invariant Absorb(orig, dmg) == Join(done, Absorb(orig[k..], carried))
    {
      AbsorbAdvance(orig, dmg, done, k, carried);
      label Before:
      var over := ds[k].TakeDamage(carried);
      forall j | 0 <= j < |ds| && j != k
        ensures ds[j].currentDef == old@Before(ds[j].currentDef)
      {
        NoDupDistinct(ds, j, k);
      }
      done := done + [ds[k].currentDef];
      carried := carried - over;
      if carried == 0 {
        CurrentDefsAre(ds, done + orig[k + 1..]);
        return carried, true;
      }
    }
    assert orig[|ds|..] == [];
    CurrentDefsAre(ds, done);
    stopped := false;
  }
}
