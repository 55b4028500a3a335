/** The mob's attack timer. In the source it is a generator that is resumed once
    per frame; here the generator's suspension point is an explicit phase, and one
    resumption is one call of `Tick`. */
module AttackSequencer {

  /** A resolution later than this many ms after the commit is stale and deals no damage. */
  const StaleAfter: int := 300

  /** Where the generator is suspended: in the wind-up wait loop (the generator
      started at `start`), in the resolution wait loop (it committed at
      `commitAt`), or returned. */
  datatype Phase = WaitWindup(start: int) | WaitResolution(commitAt: int) | Done

  datatype Sequencer = Sequencer(windup: nat, hitDuration: nat, damage: real, phase: Phase)

  /** What one resumption reports: `yield null`, `yield true`, or the generator
      returning, with whether it called into the damage routine. */
  datatype Event = Waiting | Commit | Finished(damageApplied: bool)

  datatype Step = Step(next: Sequencer, event: Event)

  /** The generator reads its start time on its first resumption, which happens
      in the same frame it is created, so the start time is the creation time. */
  function Start(windup: nat, hitDuration: nat, damage: real, now: int): (s: Sequencer)
    ensures s.phase.WaitWindup? && s.phase.start == now
    ensures s.windup == windup && s.hitDuration == hitDuration && s.damage == damage
  {
    Sequencer(windup, hitDuration, damage, WaitWindup(now))
  }

  /** One resumption of the generator at time `now`. */
  function Tick(s: Sequencer, now: int): (r: Step)
    // the parameters never change
    ensures r.next.windup == s.windup && r.next.hitDuration == s.hitDuration && r.next.damage == s.damage
    // commit exactly when the wind-up has elapsed, and only from the wind-up wait
    ensures r.event == Commit <==> s.phase.WaitWindup? && now >= s.phase.start + s.windup
    ensures r.event == Commit ==> r.next.phase == WaitResolution(now)
    // finish only once the resolution has elapsed (or when already returned)
    ensures r.event.Finished? <==>
              s.phase.Done? || (s.phase.WaitResolution? && now >= s.phase.commitAt + s.hitDuration)
    ensures r.event.Finished? ==> r.next.phase.Done?
    // damage lands only on a timely resolution
    ensures (r.event.Finished? && r.event.damageApplied) <==>
              s.phase.WaitResolution? && s.phase.commitAt + s.hitDuration <= now <= s.phase.commitAt + StaleAfter
    // waiting leaves the generator where it was
    ensures r.event.Waiting? ==> r.next == s
  {
    match s.phase
    case WaitWindup(start) =>
      if start > now - s.windup then Step(s, Waiting)
      else Step(s.(phase := WaitResolution(now)), Commit)
    case WaitResolution(commitAt) =>
      if commitAt > now - s.hitDuration then Step(s, Waiting)
      else Step(s.(phase := Done), Finished(now <= commitAt + StaleAfter))
    case Done =>
      Step(s, Finished(false))
  }

  /** The events seen by an owner that resumes the sequencer at each of `times`
      and drops it as soon as it has returned. */
  function Run(s: Sequencer, times: seq<int>): (events: seq<Event>)
    ensures |events| <= |times|
    // a Finished event, if any, is the last one the owner sees
    ensures forall i :: 0 <= i < |events| - 1 ==> !events[i].Finished?
    decreases |times|
  {
    if |times| == 0 || s.phase.Done? then []
    else
      var st := Tick(s, times[0]);
      [st.event] + Run(st.next, times[1..])
  }

  /** The commit is reported at most once over any run. */
  lemma {:induction false} CommitAtMostOnce(s: Sequencer, times: seq<int>)
    ensures multiset(Run(s, times))[Commit] <= (if s.phase.WaitWindup? then 1 else 0)
    decreases |times|
  {
    if |times| == 0 || s.phase.Done? {
    } else {
      var st := Tick(s, times[0]);
      CommitAtMostOnce(st.next, times[1..]);
      assert Run(s, times) == [st.event] + Run(st.next, times[1..]);
      assert multiset(Run(s, times)) == multiset{st.event} + multiset(Run(st.next, times[1..]));
    }
  }

  /** The commit is reported as soon as a resumption happens at or after
      `start + windup`, and every earlier resumption reports nothing. */
  lemma {:induction false} CommitWhenDue(s: Sequencer, times: seq<int>, k: nat)
    requires s.phase.WaitWindup?
    requires k < |times| && times[k] >= s.phase.start + s.windup
    requires forall j :: 0 <= j < k ==> times[j] < s.phase.start + s.windup
    ensures k < |Run(s, times)| && Run(s, times)[k] == Commit
    ensures forall j :: 0 <= j < k ==> Run(s, times)[j] == Waiting
    decreases k
  {
    var st := Tick(s, times[0]);
    assert Run(s, times) == [st.event] + Run(st.next, times[1..]);
    if k > 0 {
      assert st.next == s;
      CommitWhenDue(s, times[1..], k - 1);
    }
  }

  /** Started in the resolution wait, the run finishes only at a resumption at
      least `hitDuration` after the commit, every earlier resumption is too early,
      and damage is applied exactly when that resumption is not stale. */
  lemma {:induction false} ResolutionTiming(s: Sequencer, times: seq<int>, i: nat)
    requires s.phase.WaitResolution?
    requires i < |Run(s, times)| && Run(s, times)[i].Finished?
    ensures times[i] >= s.phase.commitAt + s.hitDuration
    ensures Run(s, times)[i].damageApplied <==> times[i] <= s.phase.commitAt + StaleAfter
    ensures forall j :: 0 <= j < i ==> times[j] < s.phase.commitAt + s.hitDuration
    decreases i
  {
    var st := Tick(s, times[0]);
    assert Run(s, times) == [st.event] + Run(st.next, times[1..]);
    if i > 0 {
      assert !st.event.Finished?;
      assert st.next == s;
      ResolutionTiming(s, times[1..], i - 1);
    }
  }

  /** From a fresh sequencer, every Finished event is preceded by the one commit,
      which came after the wind-up; the finish comes at least `hitDuration` after
      the commit, and carries damage exactly when it is within the staleness window. */
  lemma {:induction false} FinishFollowsCommit(s: Sequencer, times: seq<int>, i: nat)
    requires s.phase.WaitWindup?
    requires i < |Run(s, times)| && Run(s, times)[i].Finished?
    ensures exists c :: 0 <= c < i && Run(s, times)[c] == Commit
              && times[c] >= s.phase.start + s.windup
              && times[i] >= times[c] + s.hitDuration
              && (Run(s, times)[i].damageApplied <==> times[i] <= times[c] + StaleAfter)
    decreases i
  {
    var st := Tick(s, times[0]);
    var rest := Run(st.next, times[1..]);
    assert Run(s, times) == [st.event] + rest;
    assert i > 0;
    if st.event == Commit {
      ResolutionTiming(st.next, times[1..], i - 1);
      assert Run(s, times)[0] == Commit;
    } else {
      assert st.next == s;
      FinishFollowsCommit(s, times[1..], i - 1);
      var c :| 0 <= c < i - 1 && rest[c] == Commit
              && times[1..][c] >= s.phase.start + s.windup
              && times[1..][i - 1] >= times[1..][c] + s.hitDuration
              && (rest[i - 1].damageApplied <==> times[1..][i - 1] <= times[1..][c] + StaleAfter);
      assert Run(s, times)[c + 1] == Commit;
    }
  }

  /** A standard mob's attack (wind-up 250 ms, resolution 250 ms) resumed on
      time lands its damage; resumed 310 ms after the commit it is stale. */
  lemma StandardAttackTimeline()
    ensures Run(Start(250, 250, 0.5, 0), [0, 100, 250, 400, 500])
            == [Waiting, Waiting, Commit, Waiting, Finished(true)]
    ensures Run(Start(250, 250, 0.5, 0), [0, 250, 560, 600])
            == [Waiting, Commit, Finished(false)]
  {
  }
}
