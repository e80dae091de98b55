# Card battler core, modelled in Dafny

This project models the rules engine of a two-player card battler. Players
drag cards onto lanes. A lane (`BattleField`) holds each side's timed
abilities: Attacks, which deal damage each turn, and Defends, which soak
damage up. Each side also has five affliction counters: choked, slow,
irradiated, flooded and covered. Once per turn a lane enacts its battle in
three steps:

1. The afflictions hurt the players.
2. The attacks fire, alternating between the sides.
3. Every ability loses a turn, and the expired ones leave the lane.

`PlayerData` keeps each player's piles of cards, health and mana. `CardData`
turns a played card into abilities. The `Sequencer` runs timed presentation
events, one queue after another, frame by frame.

The model has eight files:

- `common.dfy` (module `Common`): the card elements, `Option`, and
  `Mathf.Min`/`Mathf.Max` and C#'s truncating division on integers.
- `seqs.dfy` (`Seqs`): `List<T>.Remove` as `RemoveFirst`, filtered views of
  a list, and a "no element twice" predicate, with their lemmas.
- `ability.dfy` (`Abilities`): the `Ability` class. Its C# subclasses become
  a constant `kind`. The mutable lifespan and the current defence are
  fields.
- `players.dfy` (`Players`): the `CardData` and `PlayerData` classes. The
  static two-slot player table becomes a `Registry` object.
- `lanerules.dfy` (`LaneRules`): the lane's rules stated as functions on
  values. An `Arena` holds each side's defence values, player health and
  counters. These functions define how damage runs through the defends,
  how afflictions update, the alternating attack schedule, and one turn's
  combat. The lemmas about them live here too.
- `battlefield.dfy` (`Lanes`): the `BattleField` class. Its 2 x 4 grid of
  ability lists and its 2 x 5 grid of counters are updated in place. Every
  combat method is proved to leave the lane and the players exactly as the
  matching `LaneRules` function says, and the lifecycle pass to remove
  exactly the expired abilities after taking one turn off every ability.
- `play.dfy` (`Play`): `CardData.PlayCard`, which adds a card's abilities
  to one side of a lane.
- `sequencer.dfy` (`Sequencing`): the `Sequencer` with its queue and its
  enacting list, its events, and the frame-by-frame `Update`.

## Where the code behaves unexpectedly

The model follows the code. Where the code behaves differently from what
its comments say or a reader would expect, the difference is proved about
the model:

- **Defends are never refreshed.** A Defend starts at full defence. No turn
  restores it, so emptied defence stays empty (`EmptyDefendBlocks`).
- **Attacks hit directly.** `Attack.DealDamage` calls
  `BattleField.TakeDamage` at once. The damage runs through no queued
  events (`Lanes.DealDamage`).
- **The amount carried on is what the defend absorbed.** The defend loop
  in `BattleField.TakeDamage` subtracts the defend's overflow from the
  damage, so the amount passed to the next defend is what the current one
  absorbed, not what got through. Two defends of 2 and 5 hit for 4: the
  first empties, the second drops to 3, and the player still loses 2
  (`TwoDefendsExample`). The pass stops only when the carried amount reaches
  0, so an empty defend at the front blocks every later hit on its side
  (`EmptyDefendBlocks`). When the pass does reach the player, the player
  loses the smallest of the damage and the defence values
  (`AbsorbReachesPlayer`).
- **A matching Defend is hit twice.** In `TakeAfflictionDamage`, a defend of
  the hit's element absorbs the damage. Then the absorbed amount, not the
  remainder, is dealt again through all the defends. So a matching defend
  of 5 hit for 3 ends at 0, and the player still loses 2
  (`MatchingDefendAbsorbsTwice`).
- **Irradiation reads the players in slots 0 and 1.** `EnactAfflictions`
  halves the health of the players in slots 0 and 1, not of the side
  being irradiated. The priority is always 0, so the two readings agree
  (`PriorityZeroIrradiatesOwnHealth`). With priority 1 they would differ
  (`PriorityOneIrradiatesFromSlotZero`).
- **Only attacks are enacted.** `EnactAbilities` runs the ATTACKS category
  only.
- **Side 0's cursor starts at the priority.** The comment on
  `EnactCategory` (BattleField.cs:113-115) promises each player's first
  ability in turn, from the first player's first. In the cursor loop,
  however, `i = player`. With priority 1, side 0's first attack would never fire
  (`PriorityOneSkipsFirstAttack`). With the actual priority 0, each attack
  fires exactly once, alternating between the sides
  (`PriorityZeroFiresEachOnceInOrder`, `ThreeAgainstTwo`).
- **An Attack is also filed under OTHER.** The comment on the ability grid
  (BattleField.cs:19) names slot 3 "skills", but `AddAbility` puts
  everything that is not a Defend into that OTHER list, Attacks included
  (`Lists.Add`).
- **The card's lane is not declared in `CardData`.**
  `PlayerData.AttemptPlayCard` and `DiscardCard` call `getPlayLocation` and
  `setPlayLoation` on a card, but `CardData.cs` declares neither. The model
  gives `CardData` a `playLocation` field, which holds the lane a card was
  dragged onto, or `None`.
- **`FormatAbilities` builds its abilities with mismatched arguments.** It
  passes the card's element where `Ability.Attack` expects an affliction
  array, and where `Ability.Defend` expects a byte. The model builds an
  Attack without an affliction and a Defend with the card's element.
- **The dead branch in `Sequencer.Update`.** The comment on
  `runSubsequentTime` (Sequencer.cs:132-135) promises that the last
  enacting event advances the queue once its time passes that mark, so
  that events overlap. The branch that advances the queue from inside the
  loop tests `i == enacting.Count`, which cannot hold
  inside a loop that runs while `i < enacting.Count`. The model keeps the
  test and proves that it never holds.

## Model

| member | source | states |
|---|---|---|
| Common.Min | Assets/Scripts/BattleField.cs:239 | result is at most both arguments and equals one of them |
| Common.Max | Assets/Scripts/BattleField.cs:232 | result is at least both arguments and equals one of them |
| Common.TruncDiv | Assets/Scripts/BattleField.cs:106 | C# division by a positive divisor: the quotient rounds toward zero, so for a non-negative dividend q*b <= a < q*b + b and for a negative one q*b - b < a <= q*b, with q never on the other side of 0 |
| Seqs.RemoveFirst | Assets/Scripts/BattleField.cs:65 | List.Remove: absent element leaves the list unchanged, present one shortens it by one, nothing new appears |
| Seqs.RemoveFirstMultiset | Assets/Scripts/BattleField.cs:65 | exactly one occurrence of the element goes |
| Seqs.FilterRemoveFirst | Assets/Scripts/BattleField.cs:63-67 | removing from a category view is removing from ALL and then filtering |
| Abilities.Remaining | Assets/Scripts/Ability.cs:69-75 | defence left after a hit is never negative and never above what it was; it is cur - dmg when the hit fits and 0 otherwise |
| Abilities.Overflow | Assets/Scripts/Ability.cs:69-75 | the returned overflow is max(0, dmg - cur), lies in 0..dmg, and absorbed plus overflow equals the damage |
| Abilities.Ability.Plain | Assets/Scripts/Ability.cs:15-17 | a plain ability with the given lifespan |
| Abilities.Ability.Attack | Assets/Scripts/Ability.cs:40-43 | an Attack of the given damage and lifespan |
| Abilities.Ability.Defend | Assets/Scripts/Ability.cs:62-67 | a Defend starts at full defence with its element and lifespan |
| Abilities.Ability.DecrementTurns | Assets/Scripts/Ability.cs:19-25 | one turn fewer, with no floor; expired exactly when at most one turn was left |
| Abilities.Ability.Expired | Assets/Scripts/Ability.cs:23-25 | expired exactly when no whole turn is left |
| Abilities.Ability.LifeSpan | Assets/Scripts/Ability.cs:27-29 | the turns left; zero or fewer exactly when the ability has expired |
| Abilities.Ability.IsElement | Assets/Scripts/Ability.cs:77-79 | true exactly when the Defend's element is the one asked about |
| Abilities.Ability.Value | Assets/Scripts/Ability.cs:31-33 | base 0, an Attack's damage (lines 49-52), a Defend's current defence (lines 81-84) |
| Abilities.Ability.TakeDamage | Assets/Scripts/Ability.cs:69-75 | the defence drops to Remaining and the overflow is returned; defence never rises |
| Abilities.DefendStaysInRange | Assets/Scripts/Ability.cs:62-75 | under any non-negative hits a Defend stays within 0..maxDef |
| Players.DamagedHealth | Assets/Scripts/PlayerData.cs:297-299 | non-negative damage never takes health below 0 or above its old value; it is max(0, health - dmg) |
| Players.ManaAfterMove | Assets/Scripts/PlayerData.cs:246-269 | onto a lane from the hand costs the mana cost if affordable, off a lane refunds it, other moves are free; mana stays non-negative |
| Players.LocationAfterMove | Assets/Scripts/PlayerData.cs:246-269 | off every lane means no lane; lane to lane moves; hand to lane lands exactly when the mana suffices |
| Players.PlaceThenLiftRestoresMana | Assets/Scripts/PlayerData.cs:246-269 | dragging a card onto a lane and back off restores the mana and leaves the card off the lanes |
| Players.TopDrawn | Assets/Scripts/PlayerData.cs:209-211 | moving the top card to the hand keeps the cards of pile and hand together |
| Players.Shuffle | Assets/Scripts/PlayerData.cs:223 | the shuffled pile is a permutation of the pile |
| Players.CardData.constructor | Assets/Scripts/CardData.cs:145-155 | the card holds the nine given values, no owner and no lane |
| Players.CardData.Clone | Assets/Scripts/CardData.cs:162-164 | a fresh card with the same nine values, no owner |
| Players.CardData.SetOwner | Assets/Scripts/CardData.cs:106-108 | the owner read back is the one set |
| Players.CardData.GetOwner | Assets/Scripts/CardData.cs:114 | the card's owner field |
| Players.CardData.SetPlayLocation | Assets/Scripts/PlayerData.cs:252 | the lane read back is the one set |
| Players.CardData.FormatAbilities | Assets/Scripts/CardData.cs:213-227 | an Attack exactly when dmg > 0, first; then a Defend exactly when def > 0; all fresh, distinct and lasting duration turns |
| Players.PlayerData.constructor | Assets/Scripts/PlayerData.cs:176-191 | health and max health hp, mana 3, empty piles; takes slot 0 when free, otherwise slot 1 |
| Players.PlayerData.ChangeMana | Assets/Scripts/PlayerData.cs:129-134 | mana drops by val, a negative val refunds |
| Players.PlayerData.SetMana | Assets/Scripts/PlayerData.cs:139-144 | mana becomes val |
| Players.PlayerData.ShuffleDiscardIntoDraw | Assets/Scripts/PlayerData.cs:217-224 | discard empties and the draw pile holds its old cards plus the discarded ones |
| Players.PlayerData.DrawCard | Assets/Scripts/PlayerData.cs:203-212 | the top of the draw pile moves to the end of the hand, after a refill from the discard when empty; no card is gained or lost |
| Players.PlayerData.TakeTop | Assets/Scripts/PlayerData.cs:209-211 | the last card of the draw pile moves to the end of the hand |
| Players.PlayerData.PrepareCards | Assets/Scripts/PlayerData.cs:229-238 | hand and discard empty, the draw pile a permutation of the deck |
| Players.PlayerData.AttemptPlayCard | Assets/Scripts/PlayerData.cs:246-269 | new mana is ManaAfterMove and the card's lane is LocationAfterMove of the old state |
| Players.PlayerData.DiscardCard | Assets/Scripts/PlayerData.cs:276-281 | the card leaves the hand (first occurrence), tops the discard and leaves any lane |
| Players.PlayerData.DiscardHand | Assets/Scripts/PlayerData.cs:287-289 | the hand empties onto the discard in order, each card off its lane, owners unchanged |
| Players.PlayerData.TakeDamage | Assets/Scripts/PlayerData.cs:297-301 | health becomes DamagedHealth of the old health; the player is still alive exactly when the damage was below the old health |
| Players.PlayerData.IsAlive | Assets/Scripts/PlayerData.cs:106-108 | alive exactly when at least one point of health is left |
| Players.PlayerData.IsInHand | Assets/Scripts/PlayerData.cs:114-116 | as List.Contains: true exactly when some position of the hand holds the card |
| Players.PlayerData.HasMana | Assets/Scripts/PlayerData.cs:122-124 | true exactly when val is at most the player's mana |
| Players.PlayerData.AddToDeck | Assets/Scripts/PlayerData.cs:306-310 | the deck grows by one fresh copy of the card, owned by this player |
| Players.Registry.constructor | Assets/Scripts/PlayerData.cs:18 | both slots empty |
| Players.Registry.GetPlayer | Assets/Scripts/PlayerData.cs:27-30 | null outside 0..1, otherwise the player in that slot |
| Players.Registry.IdOf | Assets/Scripts/PlayerData.cs:156-159 | 0 exactly for the player in slot 0, 1 for anyone else |
| Players.Registry.SetControllingPlayer | Assets/Scripts/PlayerData.cs:38-47 | exactly the player in slot index is current; nothing else changes |
| LaneRules.AfflictionUpdate | Assets/Scripts/BattleField.cs:231-240 | choke adds and floors at 0; slow, flooded and covered become 1 exactly when val > 0; irradiation adds and clamps to 0..4 |
| LaneRules.FlagIgnoresOldValue | Assets/Scripts/BattleField.cs:234-237 | a flag counter's new value does not depend on its old one |
| LaneRules.IrradiationStaysInRange | Assets/Scripts/BattleField.cs:238-240 | any sequence of irradiation updates stays in 0..4 |
| LaneRules.ChokeNeverNegative | Assets/Scripts/BattleField.cs:231-233 | any sequence of choke updates stays non-negative |
| LaneRules.AbsorbStep | Assets/Scripts/BattleField.cs:180-183 | one defend takes the carried amount, which drops by its overflow; the pass stops at 0 |
| LaneRules.AbsorbReachesPlayer | Assets/Scripts/BattleField.cs:179-185 | the pass stops short of the player exactly when there is a defend and the smallest of the damage and the defence values is 0; otherwise the player loses that smallest value, never more than the damage |
| LaneRules.AbsorbDefsClosedForm | Assets/Scripts/BattleField.cs:180-183 | the k-th defend absorbs from the smallest of the damage and the earlier defence values, and keeps its value when that is 0 |
| LaneRules.TwoDefendsExample | Assets/Scripts/BattleField.cs:180-184 | defends 2 and 5 hit for 4 end at 0 and 3 and let 2 through |
| LaneRules.EmptyDefendBlocks | Assets/Scripts/BattleField.cs:180-183 | an empty defend at the front stops every hit and changes no defence |
| LaneRules.HitSide | Assets/Scripts/BattleField.cs:179-185 | the side's defences are those of the pass; counters unchanged |
| LaneRules.Hit | Assets/Scripts/BattleField.cs:179-185 | the hit side is HitSide of it, the other side untouched |
| LaneRules.AfflictSide | Assets/Scripts/BattleField.cs:216-241 | only the key's counter changes, by AfflictionUpdate; defences and health unchanged |
| LaneRules.Afflict | Assets/Scripts/BattleField.cs:216-241 | the afflicted side is AfflictSide of it, the other side untouched |
| LaneRules.AfflictionsConsumeOneChoke | Assets/Scripts/BattleField.cs:100-104 | after the affliction step each side has one choke fewer, never below 0, and no other counter moved |
| LaneRules.HalfUp | Assets/Scripts/BattleField.cs:106 | ceil(h / 2) |
| LaneRules.HitHealthStaysNonNegative | Assets/Scripts/BattleField.cs:179-185 | non-negative damage never takes a player below 0 |
| LaneRules.PriorityZeroIrradiatesOwnHealth | Assets/Scripts/BattleField.cs:106-108 | with priority 0 the fixed-slot code equals the own-health reading |
| LaneRules.PriorityOneIrradiatesFromSlotZero | Assets/Scripts/BattleField.cs:106-108 | with priority 1, side 1 at 2 health is irradiated by half of slot 0's 10 and dies, where the own-health reading leaves it 1 |
| LaneRules.ScheduleBounds | Assets/Scripts/BattleField.cs:140-162 | the cursor loop fires only in-range abilities from the cursors on |
| LaneRules.ScheduleTurn | Assets/Scripts/BattleField.cs:143-161 | one iteration fires side 0's i-th when i <= j, side 1's j-th otherwise, if in range, and moves that cursor |
| LaneRules.ScheduleDone | Assets/Scripts/BattleField.cs:140 | when both cursors are past their lists the whole schedule has fired |
| LaneRules.ScheduleIsRounds | Assets/Scripts/BattleField.cs:136-163 | from level cursors the loop fires round by round, side 0 first |
| LaneRules.RoundsPerSide | Assets/Scripts/BattleField.cs:112-118 | each side's activations, taken alone, are its whole list once, in order |
| LaneRules.PriorityZeroFiresEachOnceInOrder | Assets/Scripts/BattleField.cs:136-163 | with priority 0 every attack fires exactly once, alternating, each side in order |
| LaneRules.ThreeAgainstTwo | Assets/Scripts/BattleField.cs:136-163 | attacks A, B, C against X, Y fire as A, X, B, Y, C |
| LaneRules.PriorityOneSkipsFirstAttack | Assets/Scripts/BattleField.cs:137-148 | with priority 1 side 0's first attack never fires |
| LaneRules.Enact | Assets/Scripts/BattleField.cs:170-172 | only an Attack does anything, and only to the opposite side's defends and health |
| LaneRules.Volley | Assets/Scripts/BattleField.cs:136-163 | firing the schedule leaves both sides' counters alone |
| LaneRules.HitMatching | Assets/Scripts/BattleField.cs:195-201 | the matching defend's hit touches only its side's defences and health |
| LaneRules.MatchIndex | Assets/Scripts/BattleField.cs:194-195 | -1 exactly when no defend has the element, otherwise the first that does |
| LaneRules.AfflictionDamage | Assets/Scripts/BattleField.cs:192-208 | throws exactly on a bad key with no matching defend; key -1 is a plain hit; a matching defend keeps the counters; otherwise afflict then hit; the other side untouched |
| LaneRules.MatchingDefendAbsorbsTwice | Assets/Scripts/BattleField.cs:194-201 | a matching defend of 5 hit for 3 ends at 0 and the player loses 2 |
| Lanes.AddKeepsFormed | Assets/Scripts/BattleField.cs:51-56 | adding an ability on neither side keeps the views consistent and the sides apart |
| Lanes.RemoveKeepsFormed | Assets/Scripts/BattleField.cs:63-67 | removing keeps the views consistent and takes the ability off the side |
| Lanes.BattleField.constructor | Assets/Scripts/BattleField.cs:248-254 | every list empty, every counter 0, the lane consistent |
| Lanes.BattleField.PlayerPriority | Assets/Scripts/BattleField.cs:40-42 | a side index, 0 or 1 |
| Lanes.BattleField.AddAbility | Assets/Scripts/BattleField.cs:51-56 | ALL grows by the ability, ATTACKS if an Attack, DEFENDS if a Defend, else OTHER; the other side unchanged; a consistent lane stays consistent when the ability is on neither side |
| Lanes.BattleField.RemoveAbility | Assets/Scripts/BattleField.cs:63-67 | the first occurrence leaves each of the four lists; other side unchanged; the ability is gone from a consistent lane |
| Lanes.BattleField.ApplyAffliction | Assets/Scripts/BattleField.cs:216-241 | throws on a bad side or key changing nothing; otherwise exactly that counter becomes AfflictionUpdate |
| Lanes.BattleField.WellFormedIsCombatReady | Assets/Scripts/BattleField.cs:17-19 | a consistent lane's DEFENDS lists hold distinct Defends, none on both sides |
| Lanes.BattleField.TakeDamage | Assets/Scripts/BattleField.cs:179-185 | the lane and players end as Hit of the old snapshot |
| Lanes.RunDefends | Assets/Scripts/BattleField.cs:180-183 | the defences, the carried amount and the early stop are those of Absorb |
| Lanes.BattleField.TakeAfflictionDamage | Assets/Scripts/BattleField.cs:192-208 | the lane ends as AfflictionDamage says, or throws exactly as it says with nothing changed |
| Lanes.BattleField.AbsorbMatching | Assets/Scripts/BattleField.cs:195-201 | the lane ends as HitMatching says |
| Lanes.BattleField.AfflictThenDamage | Assets/Scripts/BattleField.cs:204-207 | a bad key throws with nothing changed; otherwise Afflict then Hit |
| Lanes.BattleField.Choke | Assets/Scripts/BattleField.cs:100-104 | the lane ends as ChokeStep says |
| Lanes.BattleField.Irradiate | Assets/Scripts/BattleField.cs:106-108 | the lane ends as IrradiateStep with the health of the given slot |
| Lanes.BattleField.EnactAfflictions | Assets/Scripts/BattleField.cs:97-110 | the lane ends as AfterAfflictions says |
| Lanes.BattleField.EnactAbilities | Assets/Scripts/BattleField.cs:118-129 | the lane ends as Volley over the two ATTACKS lists |
| Lanes.BattleField.EnactCategory | Assets/Scripts/BattleField.cs:136-163 | the lane ends as Volley over the category's two lists |
| Lanes.BattleField.EnactAt | Assets/Scripts/BattleField.cs:143-161 | one turn fires the ability under the cursor when in range, extending the fired schedule by it |
| Lanes.BattleField.EnactAbility | Assets/Scripts/BattleField.cs:170-172 | the lane ends as Enact says |
| Lanes.DealDamage | Assets/Scripts/Ability.cs:45-47 | the lane ends as Hit by the attack's damage |
| Lanes.LoseTurn | Assets/Scripts/BattleField.cs:82-83 | the k-th ability loses a turn, the others keep theirs; expired exactly when at most one turn was left |
| Lanes.AgeStep | Assets/Scripts/BattleField.cs:80-88 | removing an expired ability at the cursor, or passing a survivor, keeps the list as survivors followed by unvisited |
| Lanes.BattleField.AgeNext | Assets/Scripts/BattleField.cs:81-87 | one iteration of the lifecycle loop keeps the lifecycle invariant, the other side unchanged |
| Lanes.BattleField.AgeSide | Assets/Scripts/BattleField.cs:80-88 | the side's ALL becomes exactly its abilities with more than one turn left, in order; each lost one turn; consistency kept |
| Lanes.BattleField.AgeAll | Assets/Scripts/BattleField.cs:79-89 | the lifecycle pass on both sides, as AgeSide on each |
| Lanes.BattleField.Fight | Assets/Scripts/BattleField.cs:73-77 | health, counters and defences end as Combat of the old lane |
| Lanes.BattleField.EnactBattle | Assets/Scripts/BattleField.cs:72-91 | health, counters and defences end as Combat of the old lane; every ability that was on a side lost exactly one turn (Worn); each side keeps exactly its survivors; consistency kept |
| Play.JoinedKeepsFormed | Assets/Scripts/CardData.cs:202-204 | adding fresh distinct abilities one by one keeps the lane consistent |
| Play.AddEach | Assets/Scripts/CardData.cs:202-204 | the foreach loop: every list of the player's side grows by the given abilities it admits, in order; the other side unchanged |
| Play.PlayCard | Assets/Scripts/CardData.cs:199-207 | an Attack of the card's damage when dmg > 0, first, and a Defend at full defence of the card's def and element when def > 0, each fresh and lasting duration turns, join the player's side in order; the other side unchanged; a consistent lane stays consistent, because the abilities are fresh |
| Sequencing.Event.constructor | Assets/Scripts/Sequencer/Sequencer.cs:148-152 | time 0 with the given lifespan and run-subsequent time |
| Sequencing.Event.Lasting | Assets/Scripts/Sequencer/Sequencer.cs:158 | the run-subsequent time equals the lifespan |
| Sequencing.Event.Delay | Assets/Scripts/Sequencer/Sequencer.cs:203-205 | a delay event lasts the delay and does nothing |
| Sequencing.Event.Instant | Assets/Scripts/Sequencer/Sequencer.cs:226-228 | an instant event has lifespan 0 |
| Sequencing.Event.BeyondMaxTime | Assets/Scripts/Sequencer/Sequencer.cs:180-182 | the event has lived at least its lifespan |
| Sequencing.Event.BeyondRunSubsequentTime | Assets/Scripts/Sequencer/Sequencer.cs:187-189 | the event has lived at least its run-subsequent time |
| Sequencing.Event.Progress | Assets/Scripts/Sequencer/Sequencer.cs:171-174 | the action runs and time advances by dt |
| Sequencing.InstantRunsOnce | Assets/Scripts/Sequencer/Sequencer.cs:226-228 | iterating RunAt's one-frame rule (FramesToRetire), an instant event retires after exactly its first frame; UpdateFrames proves Update follows that rule |
| Sequencing.DelayRetiresOnceDue | Assets/Scripts/Sequencer/Sequencer.cs:203-205 | iterating RunAt's one-frame rule (FramesToRetire), a delay event retires in the first frame by whose end the delay has passed |
| Sequencing.RetiresAtFirstReach | Assets/Scripts/Sequencer/Sequencer.cs:171-182 | iterating RunAt's one-frame rule (FramesToRetire), an event retires after n frames exactly when its time first reaches its lifespan in the n-th |
| Sequencing.AddedFront | Assets/Scripts/Sequencer/Sequencer.cs:38-41 | the event goes first into an empty queue, otherwise second; nothing else moves |
| Sequencing.AddedFrontThenRemoved | Assets/Scripts/Sequencer/Sequencer.cs:38-58 | AddFront then Remove of a new event restores the queue |
| Sequencing.AliveIsSurvivors | Assets/Scripts/Sequencer/Sequencer.cs:180-182 | the events short of their lifespan are the survivors of their times |
| Sequencing.Started | Assets/Scripts/Sequencer/Sequencer.cs:77-79 | the enacting list, or the head of the queue when nothing is enacting |
| Sequencing.ArrangedStep | Assets/Scripts/Sequencer/Sequencer.cs:88-91 | halting an expired event in place, or passing a live one, keeps the list as survivors followed by unhandled |
| Sequencing.Sequencer.constructor | Assets/Scripts/Sequencer/Sequencer.cs:15-21 | queue and enacting list empty |
| Sequencing.Sequencer.Add | Assets/Scripts/Sequencer/Sequencer.cs:27-29 | the event joins the back of the queue |
| Sequencing.Sequencer.AddFront | Assets/Scripts/Sequencer/Sequencer.cs:38-41 | the queue becomes AddedFront of the old queue |
| Sequencing.Sequencer.Halt | Assets/Scripts/Sequencer/Sequencer.cs:48-50 | the first occurrence leaves the enacting list |
| Sequencing.Sequencer.Remove | Assets/Scripts/Sequencer/Sequencer.cs:56-58 | the first occurrence leaves the queue |
| Sequencing.Sequencer.AdvanceQueue | Assets/Scripts/Sequencer/Sequencer.cs:63-69 | the head of a non-empty queue moves to the end of the enacting list; no event gained or lost |
| Sequencing.Sequencer.InterpolateAndWait | Assets/Scripts/Sequencer/Sequencer.cs:108-111 | an instant move then a delay of the travel time join the back of the queue |
| Sequencing.Sequencer.RunAt | Assets/Scripts/Sequencer/Sequencer.cs:83-91 | the event at i acts and ages by dt; if past its lifespan it is halted and the cursor stays, else the cursor moves on |
| Sequencing.Sequencer.HandleNext | Assets/Scripts/Sequencer/Sequencer.cs:82-92 | one loop iteration handles one more started event |
| Sequencing.Sequencer.RunAll | Assets/Scripts/Sequencer/Sequencer.cs:82-92 | over distinct events the loop leaves exactly the survivors of their new times, each aged by dt, and the trace grown by their actions in order |
| Sequencing.Sequencer.RunEnacting | Assets/Scripts/Sequencer/Sequencer.cs:81-93 | every enacting event acts once in order and ages by dt; exactly the events within their lifespan remain |
| Sequencing.Sequencer.Update | Assets/Scripts/Sequencer/Sequencer.cs:75-94 | the queue advances only when nothing was enacting; only the started events change, so a waiting event keeps its time; the started events act once, in order, age by dt, and only those within their lifespan remain |
| Sequencing.Sequencer.UpdateAlone | Assets/Scripts/Sequencer/Sequencer.cs:75-94 | with one event enacting, a frame ages it by dt and it leaves exactly when that brings it to its lifespan; the queue waits |
| Sequencing.Sequencer.UpdateFrames | Assets/Scripts/Sequencer/Sequencer.cs:75-94 | Update over successive frames: the only enacting event leaves after exactly the number of frames FramesToRetire counts, or stays when it outlasts them |

## Left out

- Lanes.BattleField.AddAbility: a `List` becomes a `seq`, so the model does not capture list identity or aliasing between lists; the lists of one lane are distinct array cells.
- Lanes.BattleField.TakeDamage: an unregistered player is a null reference in the source; the model requires both slots filled (`Registry.Ready`).
- Lanes.BattleField.TakeDamage: a side outside 0..1 is an array index error in the source; the model requires a side in range.
- Lanes.BattleField.AddAbility: a side outside 0..1 is an array index error in the source; the model requires a side in range.
- Lanes.BattleField.RemoveAbility: a side outside 0..1 is an array index error in the source; the model requires a side in range.
- Lanes.BattleField.TakeAfflictionDamage: a side outside 0..1 is an array index error in the source; the model requires a side in range.
- Lanes.BattleField.TakeAfflictionDamage: the affliction is passed as its key and amount rather than a two-element array.
- Lanes.BattleField.EnactBattle: it requires a consistent lane. RemoveAbility and the combat methods keep one; AddAbility keeps one only for an ability on neither side, which holds for its one caller PlayCard because that adds fresh abilities.
- Abilities.Ability.Attack: the Attack's affliction array and element are left out. `FormatAbilities` passes the element where the affliction array belongs, and no enacted code reads either field.
- Abilities.Ability.Defend: the element is a card `Element` rather than a byte, because that is what `FormatAbilities` passes.
- Players.PlayerData.constructor: the parameterless overload, which means a 30 hp player, is not modelled separately.
- Players.PlayerData.TakeDamage: a null health bar throws in the source; the health bar is not modelled.
- Players.Registry.SetControllingPlayer: it requires both slots filled (`Registry.Ready`); with a slot empty the source throws a null reference at `players[i].currentPlayer`, and that error path is not modelled.
- Players.PlayerData.ChangeMana: the on-screen mana display is not modelled; the same holds for SetMana and SetControllingPlayer.
- Players.Shuffle: the randomness of MathA.Shuffle is not modelled; the shuffle may return any permutation of the pile.
- Players.CardData.constructor: the physical card, its creation, its destruction, ToString and the getters other than getOwner are presentation and are not modelled.
- Play.PlayCard: it is a module-level method that returns the abilities played, so that their freshness can be stated; the physical card is not destroyed, because physical cards are not modelled.
- Sequencing.Event.constructor: times are real numbers, not 32-bit floats, so rounding is not modelled.
- Sequencing.Event.Progress: DoAction is an external effect. The model records it as an identifier appended to the trace. The message, animation, interpolation and method events differ only in that effect, so they are instant events with different identifiers, and an action never calls back into the Sequencer (a MethodEvent delegate that called `Add` or `Halt` during `Update` is not modelled).
- Sequencing.Sequencer.Update: the frame time `Time.deltaTime` is a parameter. The exact per-event clauses hold when the started events are distinct, because Halt removes only a first occurrence. The static lists are fields of one Sequencer object.
- Lanes.BattleField.TakeDamage: it requires each DEFENDS list to hold distinct Defends, none on both sides. A consistent lane guarantees this. PlayCard keeps the lane consistent; AddAbility does so for an ability on neither side.
- BattleField.getMouseIn, PlayerData.GetPlayers, getHand, setHealthBar and the other plain getters are screen or accessor code and are left out.
