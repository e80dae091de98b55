/** Player bookkeeping (PlayerData) and card data (CardData).
    The two C# classes refer to each other (a card knows its owner, a player
    holds piles of cards), so they share one module. The static two-slot
    player table of PlayerData becomes an explicit Registry object. */
module Players {
  import opened Common
  import opened Seqs
  import opened Abilities

  /** Which lane a card was dragged onto; the C# code keeps a BattleField reference. */
  type LaneId = nat

  /** CardData.Type */
  datatype CardType = AttackCard | DefendCard | SkillCard

  /** PlayerData.TakeDamage: health drops by min(health, dmg). */
  function DamagedHealth(health: int, dmg: int): (h: int)
    ensures 0 <= dmg ==> 0 <= h
    ensures 0 <= dmg ==> h <= Max(health, 0)
    ensures 0 <= health && 0 <= dmg ==> h == Max(0, health - dmg)
  {
    health - Min(health, dmg)
  }

  /** Mana after a card is dragged from `from` to `to` (AttemptPlayCard):
      placing an off-lane card costs its mana cost when the player can pay,
      lifting an on-lane card off refunds it, anything else is free. */
  function ManaAfterMove(mana: int, cost: int, from: Option<LaneId>, to: Option<LaneId>): (m: int)
    ensures from.None? && to.Some? && cost <= mana ==> m == mana - cost
    ensures from.Some? && to.None? ==> m == mana + cost
    ensures !(from.None? && to.Some? && cost <= mana) && !(from.Some? && to.None?) ==> m == mana
    ensures 0 <= mana && 0 <= cost ==> 0 <= m
  {
    match (from, to)
    case (Some(_), None) => mana + cost
    case (None, Some(_)) => if cost <= mana then mana - cost else mana
    case _ => mana
  }

  /** Where the card sits after the same drag. */
  function LocationAfterMove(mana: int, cost: int, from: Option<LaneId>, to: Option<LaneId>): (loc: Option<LaneId>)
    ensures to.None? ==> loc.None?
    ensures from.Some? && to.Some? ==> loc == to
    ensures from.None? && to.Some? ==> (loc == to <==> cost <= mana) && (loc.None? <==> mana < cost)
  {
    if to.None? then None
    else if from.Some? || cost <= mana then to
    else None
  }

  /** A pile is its top card on what lies under it. */
  lemma LastSplit<T>(s: seq<T>)
    requires s != []
    ensures s == s[..|s| - 1] + [s[|s| - 1]]
    ensures multiset(s) == multiset(s[..|s| - 1]) + multiset{s[|s| - 1]}
  {
    assert s == s[..|s| - 1] + [s[|s| - 1]];
  }

  /** Drawing the top card keeps the cards of the pile and the hand. */
  lemma TopDrawn<T>(pile: seq<T>, hand: seq<T>)
    requires pile != []
    ensures multiset(pile[..|pile| - 1]) + multiset(hand + [pile[|pile| - 1]]) == multiset(pile) + multiset(hand)
    ensures multiset(pile[..|pile| - 1]) + multiset{pile[|pile| - 1]} == multiset(pile)
  {
    LastSplit(pile);
  }

  /** Dragging a card onto a lane and straight back off leaves mana where it was. */
  lemma PlaceThenLiftRestoresMana(mana: int, cost: int, lane: LaneId)
    ensures var placed := LocationAfterMove(mana, cost, None, Some(lane));
            var m1 := ManaAfterMove(mana, cost, None, Some(lane));
            ManaAfterMove(m1, cost, placed, None) == mana
            && LocationAfterMove(m1, cost, placed, None) == None
  {
  }

  /** MathA.Shuffle, a random reordering: the model admits any reordering. */
  method Shuffle(pile: seq<CardData>) returns (shuffled: seq<CardData>)
    ensures multiset(shuffled) == multiset(pile)
  {
    shuffled := pile;
    shuffled :| multiset(shuffled) == multiset(pile);
  }

  class CardData {
    const name: string
    const description: string
    const cardType: CardType
    const element: Element
    const manaCost: int
    /** Damage per turn; 0 when the card does not attack. */
    const dmg: int
    /** Defence per turn; 0 when the card does not defend. */
    const def: int
    /** Turns its abilities stay on a lane. */
    const duration: int
    const skill: int
    var owner: PlayerData?
    /** The lane the card has been dragged onto, if any (getPlayLocation). */
    var playLocation: Option<LaneId>

    constructor (name: string, description: string, cardType: CardType, element: Element,
                 manaCost: int, dmg: int, def: int, duration: int, skill: int)
      ensures this.name == name && this.description == description && this.cardType == cardType
      ensures this.element == element && this.manaCost == manaCost && this.dmg == dmg
      ensures this.def == def && this.duration == duration && this.skill == skill
      ensures owner == null && playLocation == None
    {
      this.name := name;
      this.description := description;
      this.cardType := cardType;
      this.element := element;
      this.manaCost := manaCost;
      this.dmg := dmg;
      this.def := def;
      this.duration := duration;
      this.skill := skill;
      owner := null;
      playLocation := None;
    }

    /** The nine values a card is built from agree. */
    predicate SameData(other: CardData)
    {
      name == other.name && description == other.description && cardType == other.cardType
      && element == other.element && manaCost == other.manaCost && dmg == other.dmg
      && def == other.def && duration == other.duration && skill == other.skill
    }

    /** clone: a new card with the same nine values and no owner. */
    method Clone() returns (copy: CardData)
      ensures fresh(copy)
      ensures copy.SameData(this)
      ensures copy.owner == null && copy.playLocation == None
    {
      copy := new CardData(name, description, cardType, element, manaCost, dmg, def, duration, skill);
    }

    method SetOwner(o: PlayerData?)
      modifies this`owner
      ensures GetOwner() == o
    {
      owner := o;
    }

    /** getOwner */
    function GetOwner(): (o: PlayerData?)
      reads this
      ensures o == owner
    {
      owner
    }

    /** setPlayLoation */
    method SetPlayLocation(loc: Option<LaneId>)
      modifies this`playLocation
      ensures playLocation == loc
    {
      playLocation := loc;
    }

    /** FormatAbilities: an Attack when dmg > 0, then a Defend when def > 0,
        each fresh and lasting `duration` turns; `skill` adds nothing yet. */
    method FormatAbilities() returns (abilities: seq<Ability>)
      ensures |abilities| == (if dmg > 0 then 1 else 0) + (if def > 0 then 1 else 0)
      ensures forall a :: a in abilities ==> fresh(a) && a.numTurns == duration
      ensures NoDup(abilities)
      ensures dmg > 0 ==> abilities[0].kind == Kind.Attack(dmg)
      ensures def > 0 ==> abilities[|abilities| - 1].kind == Kind.Defend(def, element)
                          && abilities[|abilities| - 1].currentDef == def
      ensures dmg <= 0 ==> forall a :: a in abilities ==> !a.kind.Attack?
      ensures def <= 0 ==> forall a :: a in abilities ==> !a.kind.Defend?
    {
      abilities := [];
      if dmg > 0 {
        var attack := new Ability.Attack(dmg, duration);
        abilities := abilities + [attack];
      }
      if def > 0 {
        var defend := new Ability.Defend(def, element, duration);
        abilities := abilities + [defend];
      }
      // skill > 0: no ability is built for skills yet
    }
  }

  class PlayerData {
    var deck: seq<CardData>
    var drawPile: seq<CardData>
    var hand: seq<CardData>
    var discard: seq<CardData>
    var health: int
    const maxHealth: int
    var mana: int
    /** Whether this is the player whose cards are being dragged. */
    var currentPlayer: bool

    /** new PlayerData(hp): registers itself in the first free slot, else slot 1. */
    constructor (hp: int, registry: Registry)
      requires registry.Valid()
      modifies registry.players
      ensures health == hp && maxHealth == hp && mana == 3 && !currentPlayer
      ensures deck == [] && drawPile == [] && hand == [] && discard == []
      ensures old(registry.players[0]) == null ==>
                registry.players[0] == this && registry.players[1] == old(registry.players[1])
      ensures old(registry.players[0]) != null ==>
                registry.players[0] == old(registry.players[0]) && registry.players[1] == this
      ensures registry.players[0] != registry.players[1]
    {
      deck := [];
      drawPile := [];
      hand := [];
      discard := [];
      health := hp;
      maxHealth := hp;
      mana := 3;
      currentPlayer := false;
      new;
      if registry.players[0] == null {
        registry.players[0] := this;
      } else {
        registry.players[1] := this;
      }
    }

    /** isAlive: the player has health left. */
    predicate IsAlive()
      reads this
      ensures IsAlive() <==> health >= 1
    {
      health > 0
    }

    /** isInHand: hand.Contains(card), some position of the hand holds it. */
    predicate IsInHand(card: CardData)
      reads this
      ensures IsInHand(card) <==> exists i :: 0 <= i < |hand| && hand[i] == card
    {
      card in hand
    }

    /** hasMana: val is at most the player's mana. */
    predicate HasMana(val: int)
      reads this
      ensures HasMana(val) <==> val <= mana
    {
      mana >= val
    }

    /** changeMana: spends `val` (a negative `val` refunds). */
    method ChangeMana(val: int)
      modifies this`mana
      ensures mana == old(mana) - val
    {
      mana := mana - val;
    }

    method SetMana(val: int)
      modifies this`mana
      ensures mana == val
    {
      mana := val;
    }

    /** Every card the player holds outside the deck, as one multiset. */
    ghost function InPlay(): multiset<CardData>
      reads this
    {
      multiset(drawPile) + multiset(hand) + multiset(discard)
    }

    /** Moves the whole discard pile onto the draw pile, one card at a time
        from its top, then shuffles the draw pile. */
    method ShuffleDiscardIntoDraw()
      modifies this`drawPile, this`discard
      ensures discard == []
      ensures multiset(drawPile) == old(multiset(drawPile) + multiset(discard))
    {
      while |discard| > 0
        invariant multiset(drawPile) + multiset(discard) == old(multiset(drawPile) + multiset(discard))
      {
        var card := discard[|discard| - 1];
        drawPile := drawPile + [card];
        assert discard == discard[..|discard| - 1] + [card];
        discard := discard[..|discard| - 1];
      }
      drawPile := Shuffle(drawPile);
    }

    /** Takes the top (last) card of the draw pile into the hand, refilling
        the draw pile from the discard pile first when it is empty. */
    method DrawCard()
      modifies this`drawPile, this`hand, this`discard
      ensures InPlay() == old(InPlay())
      ensures old(drawPile) == [] && old(discard) == [] ==>
                drawPile == [] && hand == old(hand) && discard == []
      ensures old(drawPile) != [] ==>
                drawPile == old(drawPile)[..|old(drawPile)| - 1]
                && hand == old(hand) + [old(drawPile)[|old(drawPile)| - 1]]
                && discard == old(discard)
      ensures old(drawPile) == [] && old(discard) != [] ==>
                discard == [] && |hand| == |old(hand)| + 1 && hand[..|old(hand)|] == old(hand)
                && multiset(drawPile) + multiset{hand[|hand| - 1]} == old(multiset(discard))
    {
      if |drawPile| == 0 {
        ShuffleDiscardIntoDraw();
      }
      if |drawPile| != 0 {
        TakeTop();
      }
    }

    /** The last three steps of DrawCard: the top card of the draw pile
        goes to the end of the hand. */
    method TakeTop()
      requires drawPile != []
      modifies this`drawPile, this`hand
      ensures drawPile == old(drawPile[..|drawPile| - 1]) && hand == old(hand + [drawPile[|drawPile| - 1]])
      ensures multiset(drawPile) + multiset(hand) == old(multiset(drawPile) + multiset(hand))
      ensures multiset(drawPile) + multiset{hand[|hand| - 1]} == old(multiset(drawPile))
    {
      TopDrawn(drawPile, hand);
      var card := drawPile[|drawPile| - 1];
      drawPile := drawPile[..|drawPile| - 1];
      hand := hand + [card];
    }

    /** Starts a match: the draw pile is a shuffled copy of the deck, the hand
        and the discard pile are empty. */
    method PrepareCards()
      modifies this`drawPile, this`hand, this`discard
      ensures hand == [] && discard == []
      ensures multiset(drawPile) == multiset(deck)
    {
      drawPile := [];
      hand := [];
      discard := [];
      for k := 0 to |deck|
        invariant drawPile == deck[..k]
        invariant hand == [] && discard == []
      {
        drawPile := drawPile + [deck[k]];
      }
      assert deck[..|deck|] == deck;
      drawPile := Shuffle(drawPile);
    }

    /** Called when the player drops `card` on a lane (`field` is that lane)
        or off every lane (`field` is None). */
    method AttemptPlayCard(field: Option<LaneId>, card: CardData)
      modifies this`mana, card`playLocation
      ensures mana == ManaAfterMove(old(mana), card.manaCost, old(card.playLocation), field)
      ensures card.playLocation == LocationAfterMove(old(mana), card.manaCost, old(card.playLocation), field)
    {
      if field.None? {
        if card.playLocation.Some? {
          ChangeMana(-1 * card.manaCost);
          card.SetPlayLocation(None);
        }
      } else {
        if card.playLocation.None? {
          if HasMana(card.manaCost) {
            card.SetPlayLocation(field);
            ChangeMana(card.manaCost);
          }
        } else {
          card.SetPlayLocation(field);
        }
      }
    }

    /** Moves `card` from the hand (its first occurrence, if any) to the top
        of the discard pile and takes it off any lane. */
    method DiscardCard(card: CardData)
      modifies this`hand, this`discard, card`playLocation
      ensures hand == RemoveFirst(old(hand), card)
      ensures discard == old(discard) + [card]
      ensures card.playLocation == None
    {
      card.SetPlayLocation(None);
      hand := RemoveFirst(hand, card);
      discard := discard + [card];
    }

    /** Discards the hand front to back. */
    method DiscardHand()
      modifies this`hand, this`discard, hand
      ensures hand == []
      ensures discard == old(discard) + old(hand)
      ensures forall c :: c in old(hand) ==> c.playLocation == None
      ensures forall c: CardData :: c in old(hand) ==> c.owner == old(c.owner)
    {
      while |hand| > 0
        invariant |old(discard)| <= |discard|
        invariant old(hand) == discard[|old(discard)|..] + hand
        invariant discard[..|old(discard)|] == old(discard)
        invariant forall c :: c in discard[|old(discard)|..] ==> c.playLocation == None
        invariant forall c: CardData :: c in old(hand) ==> c.owner == old(c.owner)
      {
        ghost var done := discard[|old(discard)|..];
        var top := hand[0];
        assert top in old(hand);
        DiscardCard(top);
        assert discard[|old(discard)|..] == done + [top];
      }
    }

    /** Nothing but `currentPlayer` differs from the earlier state. */
    twostate predicate SameExceptCurrent()
      reads this
    {
      deck == old(deck) && drawPile == old(drawPile) && hand == old(hand) && discard == old(discard)
      && health == old(health) && mana == old(mana)
    }

    /** Nothing but `health` differs from the earlier state. */
    twostate predicate SameExceptHealth()
      reads this
    {
      deck == old(deck) && drawPile == old(drawPile) && hand == old(hand) && discard == old(discard)
      && mana == old(mana) && currentPlayer == old(currentPlayer)
    }

    /** Loses min(health, dmg) health; the health bar is not modelled. */
    method TakeDamage(dmg: int)
      modifies this`health
      ensures health == DamagedHealth(old(health), dmg)
      ensures IsAlive() <==> dmg < old(health)
    {
      health := health - Min(health, dmg);
    }

    /** Adds an owned copy of `card` to the deck. */
    method AddToDeck(card: CardData)
      modifies this`deck
      ensures |deck| == |old(deck)| + 1 && deck[..|old(deck)|] == old(deck)
      ensures fresh(deck[|deck| - 1])
      ensures deck[|deck| - 1].SameData(card) && deck[|deck| - 1].owner == this
    {
      var copy := card.Clone();
      copy.SetOwner(this);
      deck := deck + [copy];
    }
  }

  /** The two player slots (PlayerData.players). */
  class Registry {
    const players: array<PlayerData?>

    constructor ()
      ensures Valid() && fresh(players)
      ensures players[0] == null && players[1] == null
    {
      players := new PlayerData?[2](_ => null);
    }

    predicate Valid()
    {
      players.Length == 2
    }

    /** Both slots are filled, by different players. */
    predicate Ready()
      reads players
    {
      Valid() && players[0] != null && players[1] != null && players[0] != players[1]
    }

    /** GetPlayer: null outside 0..1. */
    function GetPlayer(n: int): (p: PlayerData?)
      requires Valid()
      reads players
      ensures !(0 <= n <= 1) ==> p == null
      ensures 0 <= n <= 1 ==> p == players[n]
    {
      if n < 0 || n > 1 then null else players[n]
    }

    /** getID: 0 for the player in slot 0, 1 for anyone else. */
    function IdOf(p: PlayerData): (id: int)
      requires Valid()
      reads players
      ensures id == 0 <==> p == players[0]
      ensures id == 0 || id == 1
    {
      if p == players[0] then 0 else 1
    }

    /** SetControllingPlayer: exactly the player in slot `index` is current. */
    method SetControllingPlayer(index: int)
      requires Ready()
      modifies players[0], players[1]
      ensures players[0].currentPlayer <==> index == 0
      ensures players[1].currentPlayer <==> index == 1
      ensures players[0].SameExceptCurrent() && players[1].SameExceptCurrent()
    {
      for i := 0 to players.Length
        invariant forall k :: 0 <= k < i ==> (players[k].currentPlayer <==> k == index)
        invariant players[0].SameExceptCurrent() && players[1].SameExceptCurrent()
      {
        if i == index {
          players[i].currentPlayer := true;
        } else {
          players[i].currentPlayer := false;
        }
      }
    }
  }
}
