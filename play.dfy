/** Playing a card onto the lane: the card's abilities join its player's
    side of the battle field, in the order FormatAbilities builds them. */
module Play {
  import opened Seqs
  import opened Abilities
  import opened Players
  import opened Lanes

  /** A side after `s` was added to it one ability at a time: ALL gains all
      of `s`, and each category view gains the members of `s` it admits. */
  ghost function Joined(x: Lists, s: seq<Ability>): (l: Lists)
  {
    Lists(x.all + s, x.attacks + Filter(s, IsAttack), x.defends + Filter(s, IsDefend), x.other + Filter(s, IsNotDefend))
  }

  /** One more AddAbility extends the joined side by one ability. */
  lemma JoinedSnoc(x: Lists, s: seq<Ability>, a: Ability)
    ensures Joined(x, s + [a]) == Joined(x, s).Add(a)
  {
    FilterAppend(s, [a], IsAttack);
    FilterAppend(s, [a], IsDefend);
    FilterAppend(s, [a], IsNotDefend);
  }

  /** Adding, one at a time, abilities that are distinct and on neither
      side keeps a consistent lane consistent. */
  lemma {:induction false} JoinedKeepsFormed(x: Lists, y: Lists, s: seq<Ability>)
    requires LaneFormed(x, y) && NoDup(s)
    requires forall a :: a in s ==> a !in x.all && a !in y.all
    ensures LaneFormed(Joined(x, s), y) && LaneFormed(y, Joined(x, s))
  {
    if s != [] {
      var t, a := s[..|s| - 1], s[|s| - 1];
      assert s == t + [a];
      assert NoDup(t) by {
        forall i, j | 0 <= i < j < |t| ensures DistinctAt(t, i, j) {
          assert DistinctAt(s, i, j);
        }
      }
      JoinedKeepsFormed(x, y, t);
      assert a !in t by {
        forall j | 0 <= j < |t| ensures t[j] != a {
          assert DistinctAt(s, j, |s| - 1);
        }
      }
      JoinedSnoc(x, t, a);
      AddKeepsFormed(Joined(x, t), y, a);
    } else {
      assert Joined(x, s) == x;
    }
  }

  /** The foreach loop of PlayCard: the abilities `played` are added to
      `player`'s side one at a time, in order. */
  method AddEach(played: seq<Ability>, player: int, field: BattleField)
    requires field.Valid() && 0 <= player <= 1
    modifies field.abilities
    ensures field.SideLists(player) == Joined(old(field.SideLists(player)), played)
    ensures field.SideLists(1 - player) == old(field.SideLists(1 - player))
  {
    ghost var x0 := field.SideLists(player);
    var i := 0;
    while i < |played|
      invariant 0 <= i <= |played|
      invariant field.SideLists(player) == Joined(x0, played[..i])
      invariant field.SideLists(1 - player) == old(field.SideLists(1 - player))
    {
      JoinedSnoc(x0, played[..i], played[i]);
      field.AddAbility(player, played[i]);
      assert played[..i + 1] == played[..i] + [played[i]];
      i := i + 1;
    }
    assert played[..i] == played;
  }

  /** card.PlayCard(player, field): every ability FormatAbilities builds is
      added to `player`'s side, so each of the side's lists grows by the
      new abilities it admits, in order; the other side is untouched, and a
      consistent lane stays consistent. The abilities played are returned. */
  method PlayCard(card: CardData, player: int, field: BattleField) returns (played: seq<Ability>)
    requires field.Valid() && 0 <= player <= 1
    modifies field.abilities
    ensures |played| == (if card.dmg > 0 then 1 else 0) + (if card.def > 0 then 1 else 0)
    ensures forall a :: a in played ==> fresh(a) && a.numTurns == card.duration
    ensures card.dmg > 0 ==> played[0].kind == Kind.Attack(card.dmg)
    ensures card.def > 0 ==> played[|played| - 1].kind == Kind.Defend(card.def, card.element)
                             && played[|played| - 1].currentDef == card.def
    ensures card.dmg <= 0 ==> forall a :: a in played ==> !a.kind.Attack?
    ensures card.def <= 0 ==> forall a :: a in played ==> !a.kind.Defend?
    ensures field.SideLists(player) == Joined(old(field.SideLists(player)), played)
    ensures field.SideLists(1 - player) == old(field.SideLists(1 - player))
    ensures old(field.WellFormed()) ==> field.WellFormed()
  {
    ghost var x0, y := field.SideLists(player), field.SideLists(1 - player);
    assert forall b :: b in x0.all + y.all ==> allocated(b);
    played := card.FormatAbilities();
    assert forall a :: a in played ==> a !in x0.all && a !in y.all;
    AddEach(played, player, field);
    if old(field.WellFormed()) {
      JoinedKeepsFormed(x0, y, played);
    }
  }
}
