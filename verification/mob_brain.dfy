/** One mob's per-frame decision. Checks run in a fixed order: knockback when a
    fresh stun arrives, then the hit-grace pause, then attacking when the player
    is within reach, otherwise pursuit. Every frame ends with exactly one force
    command; physics calls are emitted as command values. */
module MobBrain {
  import opened Common
  import AttackSequencer
  import PlayerState

  datatype Variant = Large | Standard

  datatype Goal = Attack | Idle

  /** A hit this recent (ms) pauses the mob. */
  const HitGrace: int := 500
  /** Time (ms) after the last commit before a new attack may start. */
  const AttackCooldown: int := 1500
  const KnockbackScale: real := 150.0
  const ForceScale: real := 300.0
  const LargeSpeedScale: real := 20.0
  /** The resolution duration every attack is started with. */
  const HitDuration: nat := 250

  /** Per-axis reach: 3 for the large variant, 2 otherwise. */
  function Reach(v: Variant): real
  {
    if v == Large then 3.0 else 2.0
  }

  function Windup(v: Variant): nat
  {
    if v == Large then 500 else 250
  }

  function Damage(v: Variant): real
  {
    if v == Large then 2.0 else 0.5
  }

  /** A physics call, as the value the tick hands to the body. */
  datatype Command =
    | ApplyImpulse(impulse: Vec, point: Vec)
    | ApplyForce(force: Vec)

  /** The brain's own state plus the fields of the mob's health manager and
      mob record that the brain writes. `hits` holds the hit ids whose
      knockback has been applied. */
  datatype Mob = Mob(
    id: int,
    variant: Variant,
    goal: Goal,
    attackInitiated: bool,
    attackPending: bool,
    attack: Option<AttackSequencer.Sequencer>,
    hits: set<int>,
    lastAttacked: int,
    prevVel: Vec,
    x: real,
    y: real)

  /** What the frame reads from outside the brain: the clock, the mob's and the
      player's positions, and the health manager fields written by hits. */
  datatype Percept = Percept(
    now: nat,
    pos: Vec,
    playerPos: Vec,
    stunned: bool,
    lastHit: int,
    attackVector: Vec)

  datatype Engagement = Engagement(mob: Mob, player: PlayerState.Player, targets: PlayerState.Targets)

  datatype Outcome = Outcome(
    mob: Mob,
    player: PlayerState.Player,
    targets: PlayerState.Targets,
    commands: seq<Command>)

  /** The attack flags agree with the stored sequencer: pending means it is in
      its wind-up, initiated means it has committed, and no finished sequencer
      is kept. */
  predicate Valid(m: Mob)
  {
    match m.attack
    case None => !m.attackPending && !m.attackInitiated
    case Some(s) =>
      && (m.attackPending <==> s.phase.WaitWindup?)
      && (m.attackInitiated <==> s.phase.WaitResolution?)
      && !s.phase.Done?
  }

  /** Within reach on each axis separately (a box, not a disc). */
  function InRange(v: Variant, pos: Vec, playerPos: Vec): (r: bool)
    ensures r <==> -Reach(v) <= pos.x - playerPos.x <= Reach(v)
                   && -Reach(v) <= pos.y - playerPos.y <= Reach(v)
  {
    Abs(pos.x - playerPos.x) <= Reach(v) && Abs(pos.y - playerPos.y) <= Reach(v)
  }

  predicate CanStartAttack(m: Mob, now: int, playerInvincible: bool)
  {
    m.lastAttacked < now - AttackCooldown && !m.attackPending && !m.attackInitiated && !playerInvincible
  }

  /** The attack branch, taken when the player is within reach: maybe start a
      sequencer, then resume the one there is. */
  function Engage(m: Mob, now: nat, player: PlayerState.Player, targets: PlayerState.Targets): (r: Engagement)
    ensures Valid(m) ==> Valid(r.mob)
    ensures r.mob == m.(attackInitiated := r.mob.attackInitiated, attackPending := r.mob.attackPending,
                        attack := r.mob.attack, lastAttacked := r.mob.lastAttacked)
    // a sequencer is started exactly when the cooldown and flags allow it
    ensures Valid(m) && m.attack.None? ==> (r.mob.attack.Some? <==> CanStartAttack(m, now, player.invincible))
    ensures CanStartAttack(m, now, player.invincible) ==>
              && r.mob.attackPending
              && r.mob.attack == Some(AttackSequencer.Sequencer(Windup(m.variant), HitDuration, Damage(m.variant),
                                                                AttackSequencer.WaitWindup(now)))
              && r.player == player && r.targets == targets
    // commit
    ensures m.attack.Some? && m.attack.value.phase.WaitWindup? && !CanStartAttack(m, now, player.invincible)
            && now >= m.attack.value.phase.start + m.attack.value.windup ==>
              && r.mob.lastAttacked == now && !r.mob.attackPending && r.mob.attackInitiated
              && r.mob.attack == Some(m.attack.value.(phase := AttackSequencer.WaitResolution(now)))
    ensures r.mob.lastAttacked != m.lastAttacked ==> r.mob.lastAttacked == now && r.mob.attackInitiated
    // finish
    ensures m.attack.Some? && m.attack.value.phase.WaitResolution? && !CanStartAttack(m, now, player.invincible)
            && now >= m.attack.value.phase.commitAt + m.attack.value.hitDuration ==>
              && r.mob.attack.None? && !r.mob.attackInitiated
              && r.mob.attackPending == m.attackPending
              && r.targets == targets.(lastHitBy := r.targets.lastHitBy)
              && (targets.lastHitBy.None? || targets.lastHitBy.value !in targets.inRange ==> r.targets.lastHitBy == Some(m.id))
              && (targets.lastHitBy.Some? && targets.lastHitBy.value in targets.inRange ==> r.targets == targets)
              && (now <= m.attack.value.phase.commitAt + AttackSequencer.StaleAfter ==>
                    r.player == PlayerState.DealDamage(player, m.attack.value.damage, now))
              && (now > m.attack.value.phase.commitAt + AttackSequencer.StaleAfter ==> r.player == player)
    // a frame on which the sequencer only waits keeps it, the flags and the commit time
    ensures m.attack.Some? && !CanStartAttack(m, now, player.invincible)
            && AttackSequencer.Tick(m.attack.value, now).event.Waiting? ==>
              r == Engagement(m, player, targets)
    // the player's state and the targets change only when an attack finishes
    ensures Valid(m) && (r.player != player || r.targets != targets) ==>
              m.attack.Some? && m.attack.value.phase.WaitResolution? && r.mob.attack.None?
  {
    var m1 :=
      if CanStartAttack(m, now, player.invincible) then
        m.(attackPending := true,
           attack := Some(AttackSequencer.Start(Windup(m.variant), HitDuration, Damage(m.variant), now)))
      else m;
    match m1.attack
    case None => Engagement(m1, player, targets)
    case Some(s) =>
      var st := AttackSequencer.Tick(s, now);
      var m2 :=
        if st.event == AttackSequencer.Commit then
          m1.(lastAttacked := now, attackPending := false, attackInitiated := true, attack := Some(st.next))
        else m1.(attack := Some(st.next));
      if st.event.Finished? then
        Engagement(
          m2.(attackInitiated := false, attack := None),
          if st.event.damageApplied then PlayerState.DealDamage(player, s.damage, now) else player,
          if targets.lastHitBy.None? || targets.lastHitBy.value !in targets.inRange
          then targets.(lastHitBy := Some(m.id))
          else targets)
      else Engagement(m2, player, targets)
  }

  /** The player is out of reach: no attack is pending any more, an uncommitted
      sequencer is dropped and a committed one is kept. */
  function Disengage(m: Mob): (r: Mob)
    ensures !r.attackPending
    ensures Valid(m) ==> Valid(r)
    ensures Valid(m) ==> (r.attack.Some? <==> m.attack.Some? && m.attack.value.phase.WaitResolution?)
    ensures r.attack.Some? ==> r.attack == m.attack
    // only a sequencer whose attack was never initiated is dropped
    ensures r.attack.None? <==> m.attack.None? || !m.attackInitiated
    ensures r == m.(attackPending := false, attack := r.attack)
  {
    m.(attackPending := false,
       attack := if m.attack.Some? && !m.attackInitiated then None else m.attack)
  }

  /** -1, 0 or 1: the direction along one axis from `from` toward `to`. */
  function Toward(from: real, to: real): (r: real)
    ensures r == -1.0 || r == 0.0 || r == 1.0
    ensures r == 0.0 <==> from == to
    ensures r == 1.0 <==> from < to
  {
    if from > to then -1.0 else if from < to then 1.0 else 0.0
  }

  /** The factor applied to the per-axis signs: `diagonal` when the mob moves on
      both axes, times 20 for the large variant. */
  function SpeedFactor(v: Variant, pos: Vec, playerPos: Vec, diagonal: real): real
  {
    (if pos.x != playerPos.x && pos.y != playerPos.y then diagonal else 1.0)
    * (if v == Large then LargeSpeedScale else 1.0)
  }

  /** The pursuit velocity: the sign toward the player on each axis, scaled by
      `diagonal` when moving on both axes, and by 20 for the large variant. */
  function PursuitVelocity(v: Variant, pos: Vec, playerPos: Vec, diagonal: real): (vel: Vec)
    ensures vel == Scale(Vec(Toward(pos.x, playerPos.x), Toward(pos.y, playerPos.y)),
                         SpeedFactor(v, pos, playerPos, diagonal))
  {
    var xVel := Toward(pos.x, playerPos.x);
    var yVel := Toward(pos.y, playerPos.y);
    var d := if xVel != 0.0 && yVel != 0.0 then Vec(xVel * diagonal, yVel * diagonal) else Vec(xVel, yVel);
    if v == Large then Scale(d, LargeSpeedScale) else d
  }

  /** With a positive diagonal factor the mob heads toward the player on each
      axis and stands still on an axis where it is level with the player. */
  lemma PursuitHeadsToPlayer(v: Variant, pos: Vec, playerPos: Vec, diagonal: real)
    requires 0.0 < diagonal
    ensures var vel := PursuitVelocity(v, pos, playerPos, diagonal);
            && (vel.x > 0.0 <==> pos.x < playerPos.x) && (vel.x < 0.0 <==> pos.x > playerPos.x)
            && (vel.y > 0.0 <==> pos.y < playerPos.y) && (vel.y < 0.0 <==> pos.y > playerPos.y)
  {
    var f := SpeedFactor(v, pos, playerPos, diagonal);
    assert f > 0.0;
  }

  /** With a diagonal factor in (0, 1), moving on both axes is slower per axis
      than moving along one axis, and equally fast on both. */
  lemma DiagonalIsCompensated(v: Variant, pos: Vec, playerPos: Vec, diagonal: real)
    requires 0.0 < diagonal < 1.0
    requires pos.x != playerPos.x && pos.y != playerPos.y
    ensures var vel := PursuitVelocity(v, pos, playerPos, diagonal);
            var straight := if v == Large then LargeSpeedScale else 1.0;
            && Abs(vel.x) == Abs(vel.y) == diagonal * straight
            && Abs(vel.x) < straight
  {
    var straight := if v == Large then LargeSpeedScale else 1.0;
    assert SpeedFactor(v, pos, playerPos, diagonal) == diagonal * straight;
    assert diagonal * straight < straight;
  }

  /** Records the chosen velocity and the mirrored position and emits the
      frame's single force, preceded by the knockback impulse if there is one. */
  function Emit(m: Mob, pos: Vec, vel: Vec, player: PlayerState.Player, targets: PlayerState.Targets,
                impulse: Option<Vec>): Outcome
  {
    var force := ApplyForce(Scale(vel, ForceScale));
    Outcome(m.(prevVel := vel, x := pos.x, y := pos.y), player, targets,
            if impulse.Some? then [ApplyImpulse(impulse.value, pos), force] else [force])
  }

  predicate Knockback(m: Mob, p: Percept)
  {
    p.stunned && p.lastHit !in m.hits
  }

  predicate InGrace(m: Mob, p: Percept)
  {
    !Knockback(m, p) && p.lastHit > p.now - HitGrace
  }

  predicate Engaging(m: Mob, p: Percept)
  {
    !Knockback(m, p) && !InGrace(m, p) && m.goal == Attack && InRange(m.variant, p.pos, p.playerPos)
  }

  predicate Pursuing(m: Mob, p: Percept)
  {
    !Knockback(m, p) && !InGrace(m, p) && m.goal == Attack && !InRange(m.variant, p.pos, p.playerPos)
  }

  /** One frame of the mob's brain. */
  function Tick(m: Mob, p: Percept, diagonal: real, player: PlayerState.Player, targets: PlayerState.Targets)
    : (r: Outcome)
    ensures r.mob.id == m.id && r.mob.variant == m.variant && r.mob.goal == m.goal
    // the mirrored position
    ensures r.mob.x == p.pos.x && r.mob.y == p.pos.y
    // exactly one force, last, equal to 300 times the recorded velocity
    ensures 1 <= |r.commands| <= 2
    ensures r.commands[|r.commands| - 1] == ApplyForce(Scale(r.mob.prevVel, ForceScale))
    // knockback: one impulse per fresh hit id, which is then marked
    ensures |r.commands| == 2 <==> Knockback(m, p)
    ensures Knockback(m, p) ==>
              && r.commands[0] == ApplyImpulse(Scale(p.attackVector, KnockbackScale), p.pos)
              && r.mob.hits == m.hits + {p.lastHit}
              && r.mob.prevVel == Zero
    ensures Knockback(m, p) ==>
              r.mob == m.(hits := m.hits + {p.lastHit}, prevVel := Zero, x := p.pos.x, y := p.pos.y)
              && r.player == player && r.targets == targets
    ensures !Knockback(m, p) ==> r.mob.hits == m.hits
    // only the attack branch touches the player or the targets
    ensures (r.player != player || r.targets != targets) ==> Engaging(m, p)
  {
    if Knockback(m, p) then
      Emit(m.(hits := m.hits + {p.lastHit}), p.pos, Zero, player, targets,
           Some(Scale(p.attackVector, KnockbackScale)))
    else if InGrace(m, p) then
      Emit(m, p.pos, Zero, player, targets, None)
    else if m.goal == Attack then
      if InRange(m.variant, p.pos, p.playerPos) then
        var e := Engage(m, p.now, player, targets);
        Emit(e.mob, p.pos, Zero, e.player, e.targets, None)
      else
        Emit(Disengage(m), p.pos, PursuitVelocity(m.variant, p.pos, p.playerPos, diagonal), player, targets, None)
    else
      Emit(m, p.pos, Zero, player, targets, None)
  }

  /** A frame keeps the attack flags consistent with the sequencer. */
  lemma TickKeepsValid(m: Mob, p: Percept, diagonal: real, player: PlayerState.Player, targets: PlayerState.Targets)
    requires Valid(m)
    ensures Valid(Tick(m, p, diagonal, player, targets).mob)
  {
    if Engaging(m, p) {
      assert Valid(Engage(m, p.now, player, targets).mob);
    } else if Pursuing(m, p) {
      assert Valid(Disengage(m));
    }
  }

  /** Hit grace, and any goal other than attacking: no motion, and the attack
      state, the player and the targets are left as they were. */
  lemma StandStill(m: Mob, p: Percept, diagonal: real, player: PlayerState.Player, targets: PlayerState.Targets)
    requires InGrace(m, p) || (!Knockback(m, p) && m.goal != Attack)
    ensures var r := Tick(m, p, diagonal, player, targets);
            && r.mob == m.(prevVel := Zero, x := p.pos.x, y := p.pos.y)
            && r.player == player && r.targets == targets
            && r.commands == [ApplyForce(Zero)]
  {
  }

  /** In reach, the mob does not move; the attack itself is `Engage`. */
  lemma EngageStandsStill(m: Mob, p: Percept, diagonal: real, player: PlayerState.Player, targets: PlayerState.Targets)
    requires Engaging(m, p)
    ensures Tick(m, p, diagonal, player, targets)
            == Outcome(Engage(m, p.now, player, targets).mob.(prevVel := Zero, x := p.pos.x, y := p.pos.y),
                       Engage(m, p.now, player, targets).player,
                       Engage(m, p.now, player, targets).targets,
                       [ApplyForce(Zero)])
  {
    var e := Engage(m, p.now, player, targets);
    assert Scale(Zero, ForceScale) == Zero;
    assert Tick(m, p, diagonal, player, targets) == Emit(e.mob, p.pos, Zero, e.player, e.targets, None);
  }

  /** Out of reach, the mob gives up a pending attack, keeps a committed one,
      and pushes toward the player with 300 times the pursuit velocity. */
  lemma PursueTowardPlayer(m: Mob, p: Percept, diagonal: real, player: PlayerState.Player, targets: PlayerState.Targets)
    requires Pursuing(m, p)
    ensures var r := Tick(m, p, diagonal, player, targets);
            && r.mob.prevVel == PursuitVelocity(m.variant, p.pos, p.playerPos, diagonal)
            && r.mob == Disengage(m).(prevVel := r.mob.prevVel, x := p.pos.x, y := p.pos.y)
            && r.mob.lastAttacked == m.lastAttacked && r.mob.attackInitiated == m.attackInitiated
            && r.commands == [ApplyForce(Scale(r.mob.prevVel, ForceScale))]
            && !r.mob.attackPending
            && (r.mob.attack.Some? ==> r.mob.attack == m.attack)
            && (Valid(m) ==> (r.mob.attack.Some? <==> m.attack.Some? && m.attack.value.phase.WaitResolution?))
            && r.player == player && r.targets == targets
  {
    var vel := PursuitVelocity(m.variant, p.pos, p.playerPos, diagonal);
    assert Tick(m, p, diagonal, player, targets) == Emit(Disengage(m), p.pos, vel, player, targets, None);
  }

  /** The hit ids knocked back over a run of frames, in order. */
  function KnockedBack(m: Mob, ps: seq<Percept>, diagonal: real,
                       player: PlayerState.Player, targets: PlayerState.Targets): seq<int>
    decreases |ps|
  {
    if |ps| == 0 then []
    else
      var r := Tick(m, ps[0], diagonal, player, targets);
      (if |r.commands| == 2 then [ps[0].lastHit] else []) + KnockedBack(r.mob, ps[1..], diagonal, r.player, r.targets)
  }

  /** Prepending at most one id that was not handled before but is handled now
      to a duplicate-free list of ids not handled now keeps the list free of
      duplicates and of ids handled before. */
  lemma PrependFreshId(head: seq<int>, rest: seq<int>, before: set<int>, after: set<int>)
    requires |head| <= 1 && before <= after
    requires forall i :: 0 <= i < |head| ==> head[i] !in before && head[i] in after
    requires forall i :: 0 <= i < |rest| ==> rest[i] !in after
    requires forall i, j :: 0 <= i < j < |rest| ==> rest[i] != rest[j]
    ensures forall i :: 0 <= i < |head + rest| ==> (head + rest)[i] !in before
    ensures forall i, j :: 0 <= i < j < |head + rest| ==> (head + rest)[i] != (head + rest)[j]
  {
    var ids := head + rest;
    forall i | 0 <= i < |ids|
      ensures ids[i] !in before
    {
      if i >= |head| {
        assert ids[i] == rest[i - |head|];
      }
    }
    forall i, j | 0 <= i < j < |ids|
      ensures ids[i] != ids[j]
    {
      assert ids[j] == rest[j - |head|];
      if i >= |head| {
        assert ids[i] == rest[i - |head|];
      }
    }
  }

  /** One frame only adds to the handled hits, and a knockback marks a hit
      that had not been handled before. */
  lemma KnockbackMarksHit(m: Mob, p: Percept, diagonal: real,
                          player: PlayerState.Player, targets: PlayerState.Targets)
    ensures m.hits <= Tick(m, p, diagonal, player, targets).mob.hits
    ensures |Tick(m, p, diagonal, player, targets).commands| == 2 ==>
              p.lastHit !in m.hits && p.lastHit in Tick(m, p, diagonal, player, targets).mob.hits
  {
  }

  /** Over any run of frames a hit id is knocked back at most once, and never
      if it had already been handled before the run. */
  lemma {:induction false} KnockbackOncePerHit(m: Mob, ps: seq<Percept>, diagonal: real,
                                               player: PlayerState.Player, targets: PlayerState.Targets)
    ensures forall i :: 0 <= i < |KnockedBack(m, ps, diagonal, player, targets)| ==>
              KnockedBack(m, ps, diagonal, player, targets)[i] !in m.hits
    ensures forall i, j :: 0 <= i < j < |KnockedBack(m, ps, diagonal, player, targets)| ==>
              KnockedBack(m, ps, diagonal, player, targets)[i] != KnockedBack(m, ps, diagonal, player, targets)[j]
    decreases |ps|
  {
    if |ps| > 0 {
      var r := Tick(m, ps[0], diagonal, player, targets);
      var head := if |r.commands| == 2 then [ps[0].lastHit] else [];
      var rest := KnockedBack(r.mob, ps[1..], diagonal, r.player, r.targets);
      assert KnockedBack(m, ps, diagonal, player, targets) == head + rest;
      KnockbackMarksHit(m, ps[0], diagonal, player, targets);
      KnockbackOncePerHit(r.mob, ps[1..], diagonal, r.player, r.targets);
      PrependFreshId(head, rest, m.hits, r.mob.hits);
    }
  }

  /** A freshly mounted mob: no attack under way, no hit handled, standing still
      at its spawn position. `lastAttacked` is whatever the health manager holds. */
  function Spawn(id: int, variant: Variant, goal: Goal, lastAttacked: int, pos: Vec): (m: Mob)
    ensures Valid(m)
    ensures m.attack.None? && m.hits == {} && m.prevVel == Zero
    ensures m.id == id && m.variant == variant && m.goal == goal && m.lastAttacked == lastAttacked
  {
    Mob(id, variant, goal, false, false, None, {}, lastAttacked, Zero, pos.x, pos.y)
  }

  /** The attack flags stay consistent with the sequencer over any run of frames. */
  lemma {:induction false} ValidAlongRun(m: Mob, ps: seq<Percept>, diagonal: real,
                                         player: PlayerState.Player, targets: PlayerState.Targets)
    requires Valid(m)
    ensures Valid(RunMob(m, ps, diagonal, player, targets))
    decreases |ps|
  {
    if |ps| > 0 {
      var r := Tick(m, ps[0], diagonal, player, targets);
      TickKeepsValid(m, ps[0], diagonal, player, targets);
      ValidAlongRun(r.mob, ps[1..], diagonal, r.player, r.targets);
    }
  }

  /** The mob after a run of frames. */
  function RunMob(m: Mob, ps: seq<Percept>, diagonal: real,
                  player: PlayerState.Player, targets: PlayerState.Targets): Mob
    decreases |ps|
  {
    if |ps| == 0 then m
    else
      var r := Tick(m, ps[0], diagonal, player, targets);
      RunMob(r.mob, ps[1..], diagonal, r.player, r.targets)
  }

  /** The reach is a box: a standard mob two units away on both axes is in
      range although its Euclidean distance exceeds two. */
  lemma ReachIsBoxNotDisc()
    ensures InRange(Standard, Vec(2.0, 2.0), Vec(0.0, 0.0))
    ensures 2.0 * 2.0 + 2.0 * 2.0 > Reach(Standard) * Reach(Standard)
    ensures !InRange(Standard, Vec(2.01, 0.0), Vec(0.0, 0.0))
    ensures InRange(Large, Vec(3.0, -3.0), Vec(0.0, 0.0))
  {
  }
}
