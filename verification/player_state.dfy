/** The player's stats (juice, health, invincibility) and the range lists that
    decide which mob the player is targeting. The source keeps these in global
    reactive stores; here they are plain records and every operation is a total
    function from the old record to the new one. */
module PlayerState {
  import opened Common

  const MaxJuice: real := 100.0
  const JuiceRechargeCost: real := 50.0

  datatype Player = Player(
    juice: real,
    energy: real,
    maxHealth: real,
    health: real,
    lastDamaged: int,
    invincible: bool,
    preRecharging: bool,
    recharging: bool)

  /** The stores' initial contents. */
  const InitialPlayer: Player := Player(100.0, 100.0, 4.0, 4.0, 0, false, false, false)

  /** The player starts within bounds, at full health and with full juice. */
  lemma InitialPlayerIsValid()
    ensures Valid(InitialPlayer) && HasFullHealth(InitialPlayer)
    ensures InitialPlayer.juice == MaxJuice && !CanRecharge(InitialPlayer, true)
  {
  }

  /** The bounds the stat operations keep. */
  predicate Valid(p: Player)
  {
    0.0 <= p.juice && 0.0 <= p.health <= p.maxHealth
  }

  /** Adds `amount` juice unless the tank is already full, never filling past
      the maximum. */
  function IncreaseJuice(p: Player, amount: real): (r: Player)
    ensures p.juice >= MaxJuice ==> r == p
    ensures p.juice < MaxJuice ==> r == p.(juice := r.juice)
    ensures p.juice < MaxJuice ==> r.juice <= MaxJuice
    ensures p.juice < MaxJuice && p.juice + amount <= MaxJuice ==> r.juice == p.juice + amount
    ensures p.juice < MaxJuice && p.juice + amount > MaxJuice ==> r.juice == MaxJuice
    ensures amount >= 0.0 && Valid(p) ==> Valid(r)
  {
    if p.juice >= MaxJuice then p
    else
      var j := p.juice + amount;
      p.(juice := if j > MaxJuice then MaxJuice else j)
  }

  predicate HasFullHealth(p: Player)
  {
    p.health >= p.maxHealth
  }

  /** At full health a recharge is neither allowed nor performed. */
  lemma FullHealthBlocksRecharge(p: Player)
    requires HasFullHealth(p)
    ensures !CanRecharge(p, true) && CanRecharge(p, false) == (p.juice >= JuiceRechargeCost)
    ensures Recharge(p) == RechargeResult(p, HealthFull)
  {
  }

  /** Enough juice for a recharge and, when `checkHealth`, health to restore. */
  function CanRecharge(p: Player, checkHealth: bool): (r: bool)
    ensures r <==> p.juice >= JuiceRechargeCost && (checkHealth ==> p.health < p.maxHealth)
    ensures r ==> CanRecharge(p, false)
  {
    var validJuice := p.juice >= JuiceRechargeCost;
    if checkHealth then validJuice && !HasFullHealth(p) else validJuice
  }

  /** The hook form, read from a snapshot of the stores; it always checks health. */
  function CanRechargeSnapshot(p: Player): (r: bool)
    ensures r == CanRecharge(p, true)
  {
    p.juice >= JuiceRechargeCost && p.health < p.maxHealth
  }

  /** The two early returns of the recharge, which only log a warning. */
  datatype RechargeOutcome = Recharged | HealthFull | NoJuice

  datatype RechargeResult = RechargeResult(player: Player, outcome: RechargeOutcome)

  /** Trades one recharge cost of juice for one point of health. */
  function Recharge(p: Player): (r: RechargeResult)
    ensures r.outcome == HealthFull <==> HasFullHealth(p)
    ensures r.outcome == NoJuice <==> !HasFullHealth(p) && p.juice < JuiceRechargeCost
    ensures r.outcome == Recharged <==> CanRecharge(p, true)
    ensures !r.outcome.Recharged? ==> r.player == p
    ensures r.outcome.Recharged? ==>
              && r.player == p.(juice := r.player.juice, health := r.player.health)
              && r.player.juice == p.juice - JuiceRechargeCost
              && p.health < r.player.health <= p.maxHealth
              && (p.health + 1.0 <= p.maxHealth ==> r.player.health == p.health + 1.0)
              && (p.health + 1.0 > p.maxHealth ==> r.player.health == p.maxHealth)
    ensures Valid(p) ==> Valid(r.player)
  {
    if p.health >= p.maxHealth then RechargeResult(p, HealthFull)
    else if !CanRecharge(p, true) then RechargeResult(p, NoJuice)
    else
      var j := p.juice - JuiceRechargeCost;
      var h := p.health + 1.0;
      RechargeResult(
        p.(juice := if j < 0.0 then 0.0 else j,
           health := if h > p.maxHealth then p.maxHealth else h),
        Recharged)
  }

  /** Takes `damage` off the player's health at time `now` unless invincible;
      health bottoms out at zero and a pending recharge is interrupted. */
  function DealDamage(p: Player, damage: real, now: int): (r: Player)
    ensures p.invincible ==> r == p
    ensures !p.invincible ==>
              && r == p.(health := r.health, lastDamaged := now, preRecharging := false)
              && r.health >= 0.0
              && (p.health - damage >= 0.0 ==> r.health == p.health - damage)
              && (p.health - damage < 0.0 ==> r.health == 0.0)
    ensures damage >= 0.0 && Valid(p) ==> Valid(r)
  {
    if p.invincible then p
    else
      var h := p.health - damage;
      p.(health := if h < 0.0 then 0.0 else h, lastDamaged := now, preRecharging := false)
  }

  // ---------------------------------------------------------------- targets

  /** Mob identifiers grouped by their distance to the player, kept by explicit
      add and remove calls, plus the attribution fields. */
  datatype Targets = Targets(
    attackRange: seq<int>,
    closeRange: seq<int>,
    inRange: seq<int>,
    focusedInRange: seq<int>,
    targetId: Option<int>,
    lastAttacked: Option<int>,
    lastHitBy: Option<int>)

  const InitialTargets: Targets := Targets([], [], [], [], None, None, None)

  /** The target store starts with nothing targeted and out of combat. */
  lemma InitialTargetsAreCalm()
    ensures Target(InitialTargets).None? && !InCombat(InitialTargets)
  {
  }

  /** The mob the player last attacked, provided it is still in range. */
  function TargetedEnemy(t: Targets): (r: Option<int>)
    ensures r.Some? <==> t.lastAttacked.Some? && t.lastAttacked.value in t.inRange
    ensures r.Some? ==> r == t.lastAttacked
  {
    if t.lastAttacked.Some? && t.lastAttacked.value in t.inRange then t.lastAttacked else None
  }

  /** The current target: the last attacked mob if still in range, else the mob
      that last hit the player if it is in attack range, else the first mob in
      attack range, else the first focused mob. */
  function Target(t: Targets): (r: Option<int>)
    ensures r.Some? ==> r.value in t.inRange || r.value in t.attackRange || r.value in t.focusedInRange
    ensures r.None? <==> TargetedEnemy(t).None? && |t.attackRange| == 0 && |t.focusedInRange| == 0
    ensures TargetedEnemy(t).Some? ==> r == TargetedEnemy(t)
    ensures TargetedEnemy(t).None? && |t.attackRange| > 0 ==>
              r.Some? && r.value in t.attackRange
              && (t.lastHitBy.Some? && t.lastHitBy.value in t.attackRange ==> r == t.lastHitBy)
              && (t.lastHitBy.None? || t.lastHitBy.value !in t.attackRange ==> r.value == t.attackRange[0])
    ensures TargetedEnemy(t).None? && |t.attackRange| == 0 && |t.focusedInRange| > 0 ==>
              r == Some(t.focusedInRange[0])
  {
    if t.lastAttacked.Some? && t.lastAttacked.value in t.inRange then t.lastAttacked
    else if |t.attackRange| > 0 then
      if t.lastHitBy.Some? && t.lastHitBy.value in t.attackRange then t.lastHitBy
      else Some(t.attackRange[0])
    else if |t.focusedInRange| > 0 then Some(t.focusedInRange[0])
    else None
  }

  function HasTarget(t: Targets): (r: bool)
    ensures r <==> (t.lastAttacked.Some? && t.lastAttacked.value in t.inRange)
                   || |t.attackRange| > 0 || |t.focusedInRange| > 0
  {
    Target(t).Some?
  }

  /** In combat: something is targeted or some mob is in close range. */
  function InCombat(t: Targets): (r: bool)
    ensures r <==> (t.lastAttacked.Some? && t.lastAttacked.value in t.inRange)
                   || |t.attackRange| > 0 || |t.focusedInRange| > 0 || |t.closeRange| > 0
  {
    Target(t).Some? || |t.closeRange| > 0
  }

  predicate EnemiesInRange(t: Targets)
  {
    |t.inRange| > 0
  }

  predicate EnemiesInCloseRange(t: Targets)
  {
    |t.closeRange| > 0
  }

  // ------------------------------------------------------------ range lists

  /** The position of the first `x` in `s`, or -1 (the semantics of `indexOf`). */
  function IndexOf(s: seq<int>, x: int): (i: int)
    ensures -1 <= i < |s|
    ensures i == -1 <==> x !in s
    ensures 0 <= i ==> s[i] == x && forall k :: 0 <= k < i ==> s[k] != x
  {
    if |s| == 0 then -1
    else if s[0] == x then 0
    else
      var j := IndexOf(s[1..], x);
      if j < 0 then -1 else j + 1
  }

  /** `indexOf` followed by `splice(index, 1)` when found. */
  function RemoveFirst(s: seq<int>, x: int): (r: seq<int>)
    ensures x !in s ==> r == s
    ensures x in s ==> exists i :: 0 <= i < |s| && s[i] == x && (forall k :: 0 <= k < i ==> s[k] != x) && r == s[..i] + s[i + 1..]
    ensures multiset(r) == multiset(s) - multiset{x}
  {
    var i := IndexOf(s, x);
    if i >= 0 then
      assert s == s[..i] + [s[i]] + s[i + 1..];
      s[..i] + s[i + 1..]
    else s
  }

  /** An independent, element-by-element definition of removing the first occurrence. */
  function RemoveFirstSpec(s: seq<int>, x: int): seq<int>
  {
    if |s| == 0 then []
    else if s[0] == x then s[1..]
    else [s[0]] + RemoveFirstSpec(s[1..], x)
  }

  /** The first occurrence is the only index holding `x` with no `x` before it. */
  lemma IndexOfAt(s: seq<int>, x: int, k: nat)
    requires k < |s| && s[k] == x && forall j :: 0 <= j < k ==> s[j] != x
    ensures IndexOf(s, x) == k
  {
  }

  /** Removal passes over a head that differs from `x`. */
  lemma RemoveFirstCons(s: seq<int>, x: int)
    requires |s| > 0 && s[0] != x
    ensures RemoveFirst(s, x) == [s[0]] + RemoveFirst(s[1..], x)
  {
    var t := s[1..];
    var j := IndexOf(t, x);
    if j >= 0 {
      IndexOfAt(s, x, j + 1);
      calc {
        RemoveFirst(s, x);
        s[..j + 1] + s[j + 2..];
        { assert s[..j + 1] == [s[0]] + t[..j]; assert s[j + 2..] == t[j + 1..]; }
        [s[0]] + (t[..j] + t[j + 1..]);
      }
    } else {
      assert s == [s[0]] + t;
    }
  }

  lemma {:induction false} RemoveFirstMatchesSpec(s: seq<int>, x: int)
    ensures RemoveFirst(s, x) == RemoveFirstSpec(s, x)
  {
    if |s| == 0 {
    } else if s[0] == x {
      IndexOfAt(s, x, 0);
      assert s[..0] + s[1..] == s[1..];
    } else {
      RemoveFirstMatchesSpec(s[1..], x);
      RemoveFirstCons(s, x);
    }
  }

  /** Appending an id that was absent and then removing it gives the list back. */
  lemma AddThenRemove(s: seq<int>, x: int)
    requires x !in s
    ensures RemoveFirst(s + [x], x) == s
  {
    assert (s + [x])[..|s|] == s;
    IndexOfAt(s + [x], x, |s|);
  }

  /** Appending an id that is already present adds a duplicate; a removal then
      takes out the earlier occurrence and keeps the appended one. */
  lemma AddDuplicateThenRemove(s: seq<int>, x: int)
    requires x in s
    ensures RemoveFirst(s + [x], x) == RemoveFirst(s, x) + [x]
  {
    var i := IndexOf(s, x);
    assert (s + [x])[..i] == s[..i];
    IndexOfAt(s + [x], x, i);
    assert (s + [x])[i + 1..] == s[i + 1..] + [x];
  }

  function RemoveFromInRange(t: Targets, id: int): (r: Targets)
    ensures r == t.(inRange := r.inRange)
    ensures r.inRange == RemoveFirst(t.inRange, id)
  {
    t.(inRange := RemoveFirst(t.inRange, id))
  }

  function AddToFocusedRange(t: Targets, id: int): (r: Targets)
    ensures r == t.(focusedInRange := r.focusedInRange)
    ensures |r.focusedInRange| == |t.focusedInRange| + 1
    ensures r.focusedInRange[..|t.focusedInRange|] == t.focusedInRange
    ensures r.focusedInRange[|t.focusedInRange|] == id
  {
    t.(focusedInRange := t.focusedInRange + [id])
  }

  function RemoveFromFocusedRange(t: Targets, id: int): (r: Targets)
    ensures r == t.(focusedInRange := r.focusedInRange)
    ensures r.focusedInRange == RemoveFirst(t.focusedInRange, id)
  {
    t.(focusedInRange := RemoveFirst(t.focusedInRange, id))
  }

  function AddToCloseRange(t: Targets, id: int): (r: Targets)
    ensures r == t.(closeRange := r.closeRange)
    ensures |r.closeRange| == |t.closeRange| + 1
    ensures r.closeRange[..|t.closeRange|] == t.closeRange
    ensures r.closeRange[|t.closeRange|] == id
  {
    t.(closeRange := t.closeRange + [id])
  }

  function RemoveFromCloseRange(t: Targets, id: int): (r: Targets)
    ensures r == t.(closeRange := r.closeRange)
    ensures r.closeRange == RemoveFirst(t.closeRange, id)
  {
    t.(closeRange := RemoveFirst(t.closeRange, id))
  }

  function AddToAttackRange(t: Targets, id: int): (r: Targets)
    ensures r == t.(attackRange := r.attackRange)
    ensures |r.attackRange| == |t.attackRange| + 1
    ensures r.attackRange[..|t.attackRange|] == t.attackRange
    ensures r.attackRange[|t.attackRange|] == id
  {
    t.(attackRange := t.attackRange + [id])
  }

  function RemoveFromAttackRange(t: Targets, id: int): (r: Targets)
    ensures r == t.(attackRange := r.attackRange)
    ensures r.attackRange == RemoveFirst(t.attackRange, id)
  {
    t.(attackRange := RemoveFirst(t.attackRange, id))
  }
}
