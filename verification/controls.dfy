/** Input edge detection. Each frame, every input's level signal (its raw value
    if it has one, or any bound key held down) is turned into an `active` level
    plus one-frame `pressed` and `released` edges. */
module Controls {
  import opened Common

  type Key = string

  datatype Input = Input(
    keys: seq<Key>,
    raw: Option<bool>,
    active: bool,
    pressed: bool,
    released: bool)

  /** Some key bound to the input is held down. */
  function AnyKeyDown(keys: seq<Key>, down: set<Key>): (r: bool)
    ensures r <==> exists i :: 0 <= i < |keys| && keys[i] in down
  {
    if |keys| == 0 then false
    else if keys[0] in down then true
    else
      var r := AnyKeyDown(keys[1..], down);
      assert r <==> exists i :: 1 <= i < |keys| && keys[i] in down by {
        if r {
          var i :| 0 <= i < |keys[1..]| && keys[1..][i] in down;
          assert keys[i + 1] in down;
        }
      }
      r
  }

  /** The combined level: the raw value if defined, overridden to true by any held key. */
  function Signal(inp: Input, down: set<Key>): (r: bool)
    ensures r <==> inp.raw == Some(true) || exists i :: 0 <= i < |inp.keys| && inp.keys[i] in down
  {
    var fromRaw := if inp.raw.Some? then inp.raw.value else false;
    fromRaw || AnyKeyDown(inp.keys, down)
  }

  /** An edge flag is only ever raised on the matching level. */
  predicate Consistent(inp: Input)
  {
    (inp.pressed ==> inp.active) && (inp.released ==> !inp.active)
  }

  /** One frame for one input. */
  function Step(inp: Input, down: set<Key>): (r: Input)
    ensures r.keys == inp.keys && r.raw == inp.raw
    ensures r.active == Signal(inp, down)
    // rising edge
    ensures !inp.active && r.active ==> r.pressed && !r.released
    // held
    ensures inp.active && r.active ==> !r.pressed && r.released == inp.released
    // falling edge
    ensures inp.active && !r.active ==> !r.pressed && r.released
    // idle
    ensures !inp.active && !r.active ==> !r.released && r.pressed == inp.pressed
    ensures Consistent(inp) ==> Consistent(r)
    // from a consistent state, the flags are exactly the edges of the level
    ensures Consistent(inp) ==> (r.pressed <==> !inp.active && r.active)
    ensures Consistent(inp) ==> (r.released <==> inp.active && !r.active)
  {
    var pressed := Signal(inp, down);
    if pressed then
      if !inp.active then inp.(active := true, pressed := true, released := false)
      else if inp.pressed then inp.(pressed := false)
      else inp
    else
      if inp.active then inp.(active := false, pressed := false, released := true)
      else if inp.released then inp.(released := false)
      else inp
  }

  /** One frame for every input; each is updated on its own. */
  function Frame<K>(inputs: map<K, Input>, down: set<Key>): (r: map<K, Input>)
    ensures r.Keys == inputs.Keys
    ensures forall k :: k in inputs ==> r[k] == Step(inputs[k], down)
  {
    map k | k in inputs :: Step(inputs[k], down)
  }

  /** The states an input goes through over a run of frames. */
  function Trace(inp: Input, downs: seq<set<Key>>): (states: seq<Input>)
    ensures |states| == |downs|
    // the bindings and the raw value are never changed by a frame
    ensures forall i :: 0 <= i < |states| ==> states[i].keys == inp.keys && states[i].raw == inp.raw
    // each frame steps the state left by the one before
    ensures |states| > 0 ==> states[0] == Step(inp, downs[0])
    ensures forall i :: 0 < i < |states| ==> states[i] == Step(states[i - 1], downs[i])
    decreases |downs|
  {
    if |downs| == 0 then []
    else
      var next := Step(inp, downs[0]);
      var rest := Trace(next, downs[1..]);
      assert forall i :: 1 < i < |downs| ==> rest[i - 1] == Step(rest[i - 2], downs[i]);
      [next] + rest
  }

  /** Along any run from a consistent state, `pressed` is up at frame `i` exactly
      when the level rose at that frame, and `released` exactly when it fell. */
  lemma {:induction false} EdgesAlongTrace(inp: Input, downs: seq<set<Key>>, i: nat)
    requires Consistent(inp)
    requires i < |downs|
    ensures var prev := if i == 0 then inp.active else Signal(inp, downs[i - 1]);
            var now := Signal(inp, downs[i]);
            && Trace(inp, downs)[i].active == now
            && (Trace(inp, downs)[i].pressed <==> !prev && now)
            && (Trace(inp, downs)[i].released <==> prev && !now)
    decreases i
  {
    var next := Step(inp, downs[0]);
    assert Trace(inp, downs) == [next] + Trace(next, downs[1..]);
    if i > 0 {
      EdgesAlongTrace(next, downs[1..], i - 1);
      assert Signal(next, downs[i]) == Signal(inp, downs[i]);
      if i > 1 {
        assert Signal(next, downs[i - 1]) == Signal(inp, downs[i - 1]);
      }
    }
  }

  /** Each edge flag lasts a single frame, whatever happens next. */
  lemma EdgesLastOneFrame(inp: Input, d1: set<Key>, d2: set<Key>)
    requires Consistent(inp)
    ensures Step(inp, d1).pressed ==> !Step(Step(inp, d1), d2).pressed
    ensures Step(inp, d1).released ==> !Step(Step(inp, d1), d2).released
  {
  }

  /** A consistent input never shows both edges at once. */
  lemma NeverBothEdges(inp: Input)
    requires Consistent(inp)
    ensures !(inp.pressed && inp.released)
  {
  }
}
