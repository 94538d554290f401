/** The spark particles of the closing slide, reduced to what the frame
    step decides on: remaining life and per-frame decay. Positions and
    drawing are cosmetic and are not modelled. */
module Sparks {

  /** A value returned by the host's uniform random source: a real in [0, 1). */
  type Draw = r: real | 0.0 <= r < 1.0 witness 0.0

  /** A frame spawns a spark when its draw is below this. */
  const SpawnChance: real := 0.3
  /** Smallest decay a spark can get, and the width of the decay range. */
  const MinDecay: real := 0.005
  const DecaySpread: real := 0.01

  datatype Spark = Spark(life: real, decay: real)

  predicate Spawns(roll: Draw) {
    roll < SpawnChance
  }

  /** The spark constructor: full life, decay drawn from [0.005, 0.015). */
  function NewSpark(roll: Draw): (s: Spark)
    ensures s.life == 1.0
    ensures MinDecay <= s.decay < MinDecay + DecaySpread
  {
    Spark(1.0, roll * DecaySpread + MinDecay)
  }

  /** One update of a spark: life drops by its own decay. */
  function Update(s: Spark): Spark {
    s.(life := s.life - s.decay)
  }

  /** The filter on remaining life: keeps the sparks with positive life. */
  function Alive(ss: seq<Spark>): (r: seq<Spark>)
    ensures |r| <= |ss|
    ensures forall k :: 0 <= k < |r| ==> r[k].life > 0.0
  {
    if ss == [] then []
    else if ss[0].life > 0.0 then [ss[0]] + Alive(ss[1..])
    else Alive(ss[1..])
  }

  /** Every spark of the list updated once, in place. */
  function UpdateAll(ss: seq<Spark>): seq<Spark> {
    seq(|ss|, k requires 0 <= k < |ss| => Update(ss[k]))
  }

  /** The list before the filter: a new spark appended when the roll says so. */
  function Spawned(ss: seq<Spark>, spawnRoll: Draw, decayRoll: Draw): seq<Spark> {
    if Spawns(spawnRoll) then ss + [NewSpark(decayRoll)] else ss
  }

  /** One frame of the spark loop: spawn, then filter, then update the survivors. */
  function Frame(ss: seq<Spark>, spawnRoll: Draw, decayRoll: Draw): seq<Spark> {
    UpdateAll(Alive(Spawned(ss, spawnRoll, decayRoll)))
  }

  /** What every spark in the list satisfies at the end of a frame: its decay
      is in range and the life it had before its last update was in (0, 1].
      Its current life may already be zero or below. */
  predicate Live(s: Spark) {
    MinDecay <= s.decay < MinDecay + DecaySpread && 0.0 < s.life + s.decay <= 1.0
  }

  predicate AllLive(ss: seq<Spark>) {
    forall k :: 0 <= k < |ss| ==> Live(ss[k])
  }

  lemma UpdateLowersLife(s: Spark)
    requires MinDecay <= s.decay
    ensures Update(s).decay == s.decay
    ensures s.life - Update(s).life == s.decay
    ensures Update(s).life < s.life
  {
  }

  lemma LiveLifeBounds(s: Spark)
    requires Live(s)
    ensures -(MinDecay + DecaySpread) < s.life < 1.0
  {
  }

  /** The filter keeps exactly the sparks with positive life. */
  lemma {:induction false} AliveKeepsExactly(ss: seq<Spark>, x: Spark)
    ensures x in Alive(ss) <==> x in ss && x.life > 0.0
  {
    if ss != [] {
      AliveKeepsExactly(ss[1..], x);
      assert ss == [ss[0]] + ss[1..];
    }
  }

  /** The filter distributes over concatenation; with the one-element case
      this says it keeps the survivors in their original order. */
  lemma {:induction false} AliveAppend(a: seq<Spark>, b: seq<Spark>)
    ensures Alive(a + b) == Alive(a) + Alive(b)
  {
    if a == [] {
      assert a + b == b;
    } else {
      assert (a + b)[0] == a[0];
      assert (a + b)[1..] == a[1..] + b;
      AliveAppend(a[1..], b);
    }
  }

  lemma AliveSingle(x: Spark)
    ensures Alive([x]) == if x.life > 0.0 then [x] else []
  {
    assert [x][1..] == [];
  }

  /** The filter changes nothing exactly when every spark is alive. */
  lemma {:induction false} AliveIdentityIff(ss: seq<Spark>)
    ensures Alive(ss) == ss <==> forall k :: 0 <= k < |ss| ==> ss[k].life > 0.0
  {
    if ss != [] {
      AliveIdentityIff(ss[1..]);
      if ss[0].life > 0.0 {
        assert forall k :: 1 <= k < |ss| ==> ss[k] == ss[1..][k - 1];
        assert Alive(ss) == ss <==> Alive(ss[1..]) == ss[1..];
      } else {
        assert |Alive(ss)| < |ss|;
      }
    }
  }

  lemma AliveIdempotent(ss: seq<Spark>)
    ensures Alive(Alive(ss)) == Alive(ss)
  {
    AliveIdentityIff(Alive(ss));
  }

  lemma UpdateAllAppend(a: seq<Spark>, b: seq<Spark>)
    ensures UpdateAll(a + b) == UpdateAll(a) + UpdateAll(b)
  {
  }

  /** A frame updates the older survivors and then, if one was spawned, the
      new spark: a spark whose life is no longer positive contributes nothing. */
  lemma FrameDecomposes(ss: seq<Spark>, spawnRoll: Draw, decayRoll: Draw)
    ensures Frame(ss, spawnRoll, decayRoll)
         == UpdateAll(Alive(ss)) + (if Spawns(spawnRoll) then [Update(NewSpark(decayRoll))] else [])
  {
    if Spawns(spawnRoll) {
      AliveAppend(ss, [NewSpark(decayRoll)]);
      AliveSingle(NewSpark(decayRoll));
      UpdateAllAppend(Alive(ss), [NewSpark(decayRoll)]);
    }
  }

  /** Every spark at the end of a frame is the update of a spark that was alive
      before it: life lowered by exactly its own decay. */
  lemma FrameLowersLife(ss: seq<Spark>, spawnRoll: Draw, decayRoll: Draw, k: nat)
    requires AllLive(ss)
    requires k < |Frame(ss, spawnRoll, decayRoll)|
    ensures var before := Alive(Spawned(ss, spawnRoll, decayRoll))[k];
            var after := Frame(ss, spawnRoll, decayRoll)[k];
            before.life > 0.0 && after.decay == before.decay &&
            after.life == before.life - before.decay && after.life < before.life
  {
    var pre := Spawned(ss, spawnRoll, decayRoll);
    var before := Alive(pre)[k];
    AliveKeepsExactly(pre, before);
    assert before in pre;
    var j :| 0 <= j < |pre| && pre[j] == before;
    if j < |ss| {
      assert Live(ss[j]);
    }
  }

  /** The frame step keeps Live on every spark of the list. */
  lemma FramePreservesLive(ss: seq<Spark>, spawnRoll: Draw, decayRoll: Draw)
    requires AllLive(ss)
    ensures AllLive(Frame(ss, spawnRoll, decayRoll))
  {
    var pre := Spawned(ss, spawnRoll, decayRoll);
    forall k | 0 <= k < |Frame(ss, spawnRoll, decayRoll)|
      ensures Live(Frame(ss, spawnRoll, decayRoll)[k])
    {
      var before := Alive(pre)[k];
      AliveKeepsExactly(pre, before);
      var j :| 0 <= j < |pre| && pre[j] == before;
      // before the update its life was positive and at most 1
      assert MinDecay <= before.decay < MinDecay + DecaySpread && before.life <= 1.0 by {
        if j < |ss| { assert Live(ss[j]); }
      }
    }
  }

  /** A spark can end a frame with no life left; it is gone after the next frame. */
  lemma ExpiredSurvivorLeavesNextFrame()
    ensures var s := Spark(0.01, 0.01);
            Live(s) &&
            Frame([s], 0.5, 0.0) == [Spark(0.0, 0.01)] &&
            Frame(Frame([s], 0.5, 0.0), 0.5, 0.0) == []
  {
    var s := Spark(0.01, 0.01);
    AliveSingle(s);
    AliveSingle(Spark(0.0, 0.01));
  }
}
