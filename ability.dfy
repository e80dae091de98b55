/** Timed lane effects (Ability, Ability.Attack, Ability.Defend).
    The C# subclasses become one class whose constant `kind` carries the
    variant's fixed data; the two fields the C# code mutates in place, the
    remaining lifespan and a Defend's current defence, are `var` fields. */
module Abilities {
  import opened Common

  /** Which variant an ability is, with the data the variant never changes. */
  datatype Kind =
    | Plain
    | Attack(dmg: int)
    | Defend(maxDef: int, element: Element)

  /** Defence left after a Defend with `cur` points absorbs what it can of `dmg`. */
  function Remaining(cur: int, dmg: int): (left: int)
    ensures 0 <= cur && 0 <= dmg ==> left <= cur
    ensures 0 <= cur ==> 0 <= left
    ensures 0 <= dmg <= cur ==> left == cur - dmg
    ensures 0 <= cur <= dmg ==> left == 0
  {
    cur - Min(cur, dmg)
  }

  /** What Defend.TakeDamage returns: the part of `dmg` it could not absorb. */
  function Overflow(cur: int, dmg: int): (over: int)
    ensures 0 <= cur && 0 <= dmg ==> 0 <= over <= dmg
    ensures 0 <= cur && 0 <= dmg ==> over == Max(0, dmg - cur)
    ensures (cur - Remaining(cur, dmg)) + over == dmg
  {
    dmg - Min(cur, dmg)
  }

  class Ability {
    const kind: Kind
    /** Turns left on the field (numTurns). */
    var numTurns: int
    /** A Defend's defence left this turn; 0 for the other variants. */
    var currentDef: int

    /** new Ability(lifespan) */
    constructor Plain(lifespan: int)
      ensures kind == Kind.Plain && numTurns == lifespan && currentDef == 0
    {
      kind := Kind.Plain;
      numTurns := lifespan;
      currentDef := 0;
    }

    /** new Ability.Attack(dmg, _, lifespan) */
    constructor Attack(dmg: int, lifespan: int)
      ensures kind == Kind.Attack(dmg) && numTurns == lifespan && currentDef == 0
    {
      kind := Kind.Attack(dmg);
      numTurns := lifespan;
      currentDef := 0;
    }

    /** new Ability.Defend(def, element, lifespan): starts at full defence. */
    constructor Defend(def: int, element: Element, lifespan: int)
      ensures kind == Kind.Defend(def, element) && numTurns == lifespan
      ensures currentDef == kind.maxDef == def
    {
      kind := Kind.Defend(def, element);
      numTurns := lifespan;
      currentDef := def;
    }

    /** One turn passes; there is no floor at zero. */
    method DecrementTurns()
      modifies this`numTurns
      ensures numTurns == old(numTurns) - 1
      ensures Expired() <==> old(numTurns) <= 1
    {
      numTurns := numTurns - 1;
    }

    /** getExpired: no whole turn is left. */
    predicate Expired()
      reads this
      ensures Expired() <==> numTurns < 1
    {
      numTurns <= 0
    }

    /** getLifeSpan: the turns left, none of them once the ability has expired. */
    function LifeSpan(): (turns: int)
      reads this
      ensures turns == numTurns
      ensures Expired() <==> turns <= 0
    {
      numTurns
    }

    /** getValue: what a representation of the ability displays. */
    function Value(): (v: int)
      reads this
      ensures kind.Plain? ==> v == 0
      ensures kind.Attack? ==> v == kind.dmg
      ensures kind.Defend? ==> v == currentDef
    {
      match kind
      case Plain => 0
      case Attack(d) => d
      case Defend(_, _) => currentDef
    }

    /** Defend.isElement: whether the defence is of element `e`. */
    predicate IsElement(e: Element)
      requires kind.Defend?
      ensures IsElement(e) <==> kind.element == e
    {
      kind.element == e
    }

    /** Defend.TakeDamage: absorbs min(currentDef, dmg) and returns the rest. */
    method TakeDamage(dmg: int) returns (overflow: int)
      requires kind.Defend?
      modifies this`currentDef
      ensures currentDef == Remaining(old(currentDef), dmg)
      ensures overflow == Overflow(old(currentDef), dmg)
      ensures 0 <= old(currentDef) && 0 <= dmg ==> currentDef <= old(currentDef)
    {
      var diff := Min(currentDef, dmg);
      currentDef := currentDef - diff;
      overflow := dmg - diff;
    }
  }

  /** A Defend never rises above where it started while the damage it takes is
      not negative: 0 <= currentDef <= maxDef holds after any such hits. */
  lemma {:induction false} DefendStaysInRange(maxDef: int, hits: seq<int>)
    requires 0 <= maxDef
    requires forall k :: 0 <= k < |hits| ==> 0 <= hits[k]
    ensures 0 <= AfterHits(maxDef, hits) <= maxDef
  {
    if hits != [] {
      DefendStaysInRange(maxDef, hits[..|hits| - 1]);
    }
  }

  /** Defence left after a fresh Defend takes the given hits in order. */
  function AfterHits(start: int, hits: seq<int>): (def: int)
  {
    if hits == [] then start
    else Remaining(AfterHits(start, hits[..|hits| - 1]), hits[|hits| - 1])
  }
}
