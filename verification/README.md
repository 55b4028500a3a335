# Mob brain, player stats and input edges — a Dafny model

This project models three pieces of per-frame game logic from a real-time 2D game:

- **The mob brain** (`mob_brain.dfy`) runs once per frame for each mob. Its checks run in a fixed order:
  1. Knockback: when a fresh stun arrives, it emits a one-shot impulse.
  2. Hit grace: a recent hit pauses the mob.
  3. Attack: when the player is within reach on both axes, it drives a timed attack.
  4. Pursuit: otherwise it pushes the mob toward the player.

  Every frame ends with exactly one force command. Physics calls are modelled as `Command` values that the tick returns.
- **The attack sequencer** (`attack_sequencer.dfy`). In the source it is a generator that is resumed once per frame. Here it is an explicit phase machine: `WaitWindup(start)`, `WaitResolution(commitAt)`, `Done`. `Tick(now)` reports `Waiting`, `Commit` or `Finished(damageApplied)`.
- **Player stats and targeting** (`player_state.dfy`):
  - clamped juice and health arithmetic (gaining juice, recharging, taking damage);
  - the priority rule that picks the current target;
  - the add and remove operations on the range lists.
- **Input edge detection** (`controls.dfy`) turns each input's level signal into an `active` level and one-frame `pressed` and `released` edges.

All state is held in immutable records, and every operation is a pure function. Time is an integer `now` in milliseconds, passed as a parameter. Health, juice, positions and velocities are `real`.

Some of the code's behaviour is easy to misread. The model does what the code does:
- **Reach is a box, not a disc.** The reach test checks each axis separately: `|dx| <= r` and `|dy| <= r`. It does not use Euclidean distance. `ReachIsBoxNotDisc` shows a standard mob two units away on both axes counts as in range.
- **The resolution wait is 250 ms.** Every attack is started with a 250 ms resolution wait, not 100 ms.
- **A committed attack is only resumed while the player is in reach.** Out of reach, a committed sequencer is kept but not advanced. If the mob comes back more than 300 ms after the commit, the damage is stale and is discarded.
- **A knockback frame also emits a force.** On a knockback frame, the impulse is followed by a zero force, because the force call at the end of the frame runs on every branch.
- **Finishing clears the "initiated" flag.** It is the pending flag that is cleared on commit.

## Model

| member | source | states |
|---|---|---|
| AttackSequencer.Start | game/src/client/game/components/Mob/hooks/brain.ts:18-23 | A new sequencer waits in its wind-up from the creation time, with the given wind-up, resolution and damage |
| AttackSequencer.Tick | game/src/client/game/components/Mob/hooks/brain.ts:18-44 | Commit iff waiting in the wind-up and `now >= start + windup`; after a commit the sequencer waits from `now`; Finished iff resolution elapsed (`now >= commitAt + hitDuration`) or already done; damage applied iff the resolution is within 300 ms of the commit; waiting changes nothing |
| AttackSequencer.Run | game/src/client/game/components/Mob/hooks/brain.ts:125-143 | An owner that drops the sequencer when it finishes sees at most one event per frame, and a Finished event only as the last one |
| AttackSequencer.CommitAtMostOnce | game/src/client/game/components/Mob/hooks/brain.ts:25-32 | Over any run the commit is reported at most once, and never from the resolution wait |
| AttackSequencer.CommitWhenDue | game/src/client/game/components/Mob/hooks/brain.ts:25-32 | The commit comes at the first resumption with `now >= start + windup`; every earlier resumption reports nothing |
| AttackSequencer.ResolutionTiming | game/src/client/game/components/Mob/hooks/brain.ts:34-43 | From the resolution wait, a finish happens only at `now >= commitAt + hitDuration`, all earlier resumptions were too early, and damage is applied iff `now <= commitAt + 300` |
| AttackSequencer.StandardAttackTimeline | game/src/client/game/components/Mob/hooks/brain.ts:18-44 | A standard attack that is resumed on time commits at 250 ms and deals damage at 500 ms. Resumed 310 ms after its commit, it finishes without damage |
| AttackSequencer.FinishFollowsCommit | game/src/client/game/components/Mob/hooks/brain.ts:23-43 | From a fresh sequencer, every finish is preceded by a commit made after the wind-up; the finish is at least the resolution time after that commit; it carries damage iff it is within 300 ms of the commit |
| MobBrain.InRange | game/src/client/game/components/Mob/hooks/brain.ts:100-108 | In range iff both axis offsets lie in `[-r, r]`, with `r` 3 for the large variant and 2 otherwise |
| MobBrain.ReachIsBoxNotDisc | game/src/client/game/components/Mob/hooks/brain.ts:103-107 | (2, 2) is in a standard mob's reach although its Euclidean distance exceeds 2; 2.01 on one axis is out |
| MobBrain.Engage | game/src/client/game/components/Mob/hooks/brain.ts:109-144 | With no sequencer, one is started iff the cooldown (1500 ms), pending, initiated and invincibility checks pass; it has wind-up 500/250, resolution 250 and damage 2/0.5. On commit: `lastAttacked := now`, pending cleared, initiated set. On finish: the sequencer is dropped, initiated is cleared, `lastHitBy := id` only if it was null or not in range, and damage is dealt iff the finish is timely. Player and targets change only when an attack finishes. A frame on which a running sequencer only waits, and no new attack may start, changes nothing. The flag invariant is kept |
| MobBrain.Disengage | game/src/client/game/components/Mob/hooks/brain.ts:145-150 | Pending is cleared; the sequencer is dropped exactly when its attack was never initiated, and otherwise kept unchanged; nothing else changes |
| MobBrain.Toward | game/src/client/game/components/Mob/hooks/brain.ts:152-161 | The per-axis direction is -1, 0 or 1; it is 0 iff level with the player and 1 iff the player is further along |
| MobBrain.PursuitVelocity | game/src/client/game/components/Mob/hooks/brain.ts:152-171 | Each axis is the sign toward the player, times `DIAGONAL` iff both signs are nonzero, times 20 for the large variant |
| MobBrain.PursuitHeadsToPlayer | game/src/client/game/components/Mob/hooks/brain.ts:152-166 | With a positive diagonal factor, each velocity axis is positive iff the player is ahead on that axis and negative iff behind |
| MobBrain.DiagonalIsCompensated | game/src/client/game/components/Mob/hooks/brain.ts:163-171 | For a diagonal factor in (0, 1), diagonal motion has equal axis magnitudes equal to the factor times the straight speed, and is strictly slower per axis |
| MobBrain.Tick | game/src/client/game/components/Mob/hooks/brain.ts:78-188 | Exactly one force, last, equal to 300 times the recorded velocity. An impulse of `attackVector * 150` at the mob's position precedes it iff stunned with an unhandled hit id, and that id is then marked. Hit ids change only then. On a knockback the mob changes only by that mark, a zero recorded velocity and the mirrored position, and player and targets are kept. The mirrored position is written. Player and targets change only in the attack branch |
| MobBrain.TickKeepsValid | game/src/client/game/components/Mob/hooks/brain.ts:109-150 | A frame keeps "pending iff in wind-up, initiated iff committed, no finished sequencer kept" |
| MobBrain.StandStill | game/src/client/game/components/Mob/hooks/brain.ts:96-180 | In the hit-grace case (and for non-attack goals), the force is zero and the attack state, player and targets are unchanged |
| MobBrain.EngageStandsStill | game/src/client/game/components/Mob/hooks/brain.ts:105-180 | In reach, the frame's effects are those of `Engage` and the force is zero |
| MobBrain.PursueTowardPlayer | game/src/client/game/components/Mob/hooks/brain.ts:145-183 | Out of reach, the frame emits exactly one force of 300 times the pursuit velocity, clears pending, keeps only a committed sequencer, and leaves player and targets alone. Nothing else about the mob changes: `lastAttacked`, the initiated flag and the handled hits are kept, and only the recorded velocity and the mirrored position are written |
| MobBrain.KnockbackOncePerHit | game/src/client/game/components/Mob/hooks/brain.ts:87-95 | Over any run of frames, each hit id is knocked back at most once, and never if it was handled before the run |
| MobBrain.KnockbackMarksHit | game/src/client/game/components/Mob/hooks/brain.ts:87-95 | A frame never forgets a handled hit id, and a knockback marks an id that was unhandled before it |
| MobBrain.Spawn | game/src/client/game/components/Mob/hooks/brain.ts:55-75 | A mounted mob has no attack, both flags clear, no handled hits and zero recorded velocity, and satisfies the flag invariant |
| MobBrain.ValidAlongRun | game/src/client/game/components/Mob/hooks/brain.ts:78-188 | The flag invariant holds after any run of frames |
| PlayerState.IncreaseJuice | game/src/client/state/player.ts:9-17 | No change when juice is at least 100; otherwise only juice changes, to `juice + amount` capped at 100, never above 100; the bounds are kept for non-negative amounts |
| PlayerState.CanRecharge | game/src/client/state/player.ts:45-57 | Holds iff juice is at least 50 and, when health is checked, health is below its maximum |
| PlayerState.CanRechargeSnapshot | game/src/client/state/player.ts:59-63 | The hook agrees with the health-checking form |
| PlayerState.Recharge | game/src/client/state/player.ts:65-84 | Full health gives `HealthFull` and juice below 50 gives `NoJuice`, both without changes. Otherwise juice drops by 50 and health rises by 1, capped at the maximum. Juice and health bounds are kept |
| PlayerState.FullHealthBlocksRecharge | game/src/client/state/player.ts:45-57 | At full health (health at least its maximum) the health-checking test fails, the juice-only test is the 50-juice test alone, and a recharge reports `HealthFull` without changing anything |
| PlayerState.InitialPlayerIsValid | game/src/client/state/player.ts:3-43 | The stores start within bounds, at full health and full juice, where no recharge is allowed |
| PlayerState.InitialTargetsAreCalm | game/src/client/state/player.ts:99-115 | The target store starts with no target and out of combat |
| PlayerState.DealDamage | game/src/client/state/player.ts:86-97 | A no-op when invincible. Otherwise health becomes `health - damage` floored at 0, `lastDamaged := now`, the pre-recharge is cancelled, and nothing else changes |
| PlayerState.TargetedEnemy | game/src/client/state/player.ts:117-123 | `lastAttacked` if it is set and in range, else null |
| PlayerState.Target | game/src/client/state/player.ts:135-156 | Priority: targeted enemy; else, if attack range is non-empty, `lastHitBy` when in attack range, otherwise its first element; else the first focused mob; else null. The result is always null or in one of the lists |
| PlayerState.HasTarget | game/src/client/state/player.ts:158-161 | Holds iff some rung of the priority rule applies |
| PlayerState.InCombat | game/src/client/state/player.ts:163-167 | Holds iff there is a target or the close-range list is non-empty |
| PlayerState.IndexOf | game/src/client/state/player.ts:169-174 | The first position of the id, or -1 exactly when it is absent |
| PlayerState.RemoveFirst | game/src/client/state/player.ts:169-174 | No-op when absent. Otherwise removes exactly the first occurrence, keeping the order of the rest; as a multiset, one copy is removed |
| PlayerState.RemoveFirstMatchesSpec | game/src/client/state/player.ts:169-174 | The index-and-splice removal equals an element-by-element removal of the first match |
| PlayerState.AddThenRemove | game/src/client/state/player.ts:176-185 | Appending an absent id and removing it gives the list back |
| PlayerState.AddDuplicateThenRemove | game/src/client/state/player.ts:198-206 | Appending does not de-duplicate: removing then takes the earlier copy and keeps the appended one |
| PlayerState.RemoveFromInRange | game/src/client/state/player.ts:169-174 | The in-range list loses its first occurrence of the id; other fields are unchanged |
| PlayerState.AddToFocusedRange | game/src/client/state/player.ts:176-178 | The focused list gains the id at its end, with no de-duplication; other fields are unchanged |
| PlayerState.RemoveFromFocusedRange | game/src/client/state/player.ts:180-185 | The focused list loses its first occurrence of the id; other fields are unchanged |
| PlayerState.AddToCloseRange | game/src/client/state/player.ts:187-189 | The close-range list gains the id at its end; other fields are unchanged |
| PlayerState.RemoveFromCloseRange | game/src/client/state/player.ts:191-196 | The close-range list loses its first occurrence of the id; other fields are unchanged |
| PlayerState.AddToAttackRange | game/src/client/state/player.ts:198-200 | The attack-range list gains the id at its end; other fields are unchanged |
| PlayerState.RemoveFromAttackRange | game/src/client/state/player.ts:202-207 | The attack-range list loses its first occurrence of the id; other fields are unchanged |
| Controls.AnyKeyDown | game/src/client/game/components/Player/hooks/controls.ts:20-24 | Holds iff some bound key is held down |
| Controls.Signal | game/src/client/game/components/Player/hooks/controls.ts:16-24 | The level is the raw value if defined, OR any bound key held |
| Controls.Step | game/src/client/game/components/Player/hooks/controls.ts:25-41 | `active` becomes the level. Rising edge: pressed set, released cleared. Held: pressed cleared. Falling edge: only released set. Idle: released cleared. "pressed implies active, released implies not active" is kept, and from such a state the flags are exactly the rising and falling edges |
| Controls.Frame | game/src/client/game/components/Player/hooks/controls.ts:15-42 | Every input is stepped on its own; the set of inputs is unchanged |
| Controls.Trace | game/src/client/game/components/Player/hooks/controls.ts:14-43 | A run over n frames yields n states; each is the previous one stepped by that frame's held keys, and every state keeps the bindings and the raw value |
| Controls.EdgesAlongTrace | game/src/client/game/components/Player/hooks/controls.ts:25-41 | Along any run from a state where `pressed` implies `active` and `released` implies not `active`, `active` is each frame's level, and `pressed`/`released` are set exactly at its rising/falling edges |
| Controls.NeverBothEdges | game/src/client/game/components/Player/hooks/controls.ts:25-41 | Under the step's invariant, `pressed` and `released` are never both set |
| Controls.EdgesLastOneFrame | game/src/client/game/components/Player/hooks/controls.ts:30-40 | A raised edge flag is cleared on the next frame, whatever the input does |

## Left out

- The stun timer effect (`brain.ts:190-207`) runs on a `setTimeout`, so it is asynchronous. The stun flag, the last hit id and the attack vector are inputs to each frame (`Percept`).
- The physics engine calls (`applyLinearImpulse`, `applyForceToCenter`) belong to a foreign library. They become `Command` values. The source reuses one module-level vector for every mob's force; the model gives each command its own value.
- `DIAGONAL` comes from a utility file that is not part of this model. It is the parameter `diagonal`; the diagonal lemmas assume it lies in (0, 1).
- The `coroutine` helper is not part of this model. Each call is taken to resume the generator once.
- The generator reads the clock on its first resumption. That resumption happens in the frame that creates it, so `Start` takes that frame's `now`.
- After the generator has returned, the model's `Tick` on `Done` reports `Finished(false)`, matching a finished generator. The brain never resumes it, because it drops the sequencer.
- The mob variants and AI goals come from files that are not part of this model. The model has `Large`/`Standard` and `Attack`/`Idle`; every non-attack goal does nothing here.
- The clock reads become the parameter `now`. The key-state query becomes a set of held keys. Reactive-store plumbing (snapshots, proxies, subscriptions) becomes plain records. The "use" hooks are pure functions of those records.
- Numbers are exact reals and integers. IEEE floating-point rounding is not modelled.
- The physics worker message plumbing, the camera smoothing, the health and wall rendering, and the language-model response client are outside this core.
- `EnemiesInRange` and `EnemiesInCloseRange` are one-line emptiness tests, kept as predicates without a contract.
