/**
 * The scene of one level as an object whose event handlers update its
 * fields in place. Each handler is proved to leave the scene in the state
 * the matching function of GameRules computes from the state before, so
 * every lemma of GameRules about runs of events holds of the scene too.
 */
module Scene {
  import opened RopeNames
  import opened GameRules

  class GameScene {
    /** Whether one gesture may cut more than one rope (a build-time switch of the game). */
    const canCutMultipleRopesAtOnce: bool

    var levelOver: bool
    var ropeCut: bool
    /** Whether the prize's physics body is dynamic. */
    var prizeDynamic: bool
    /** The scene's child nodes; a node's identity is its index. */
    var children: seq<Node>
    var crocodile: nat
    var prize: nat
    /** The level transitions requested so far, each presented one time unit after the request. */
    var scheduled: seq<Style>

    /** The scene's state as a value. */
    function Snapshot(): State
      reads this
    {
      State(levelOver, ropeCut, prizeDynamic, children, crocodile, prize, scheduled)
    }

    /** The scene is set up and has requested a transition exactly when its level is over. */
    ghost predicate Valid()
      reads this
    {
      && LevelInv(Snapshot())
      && prize < |children| && crocodile < |children| && prize != crocodile
    }

    /**
     * A new level: the scene is created and set up, with segmentCounts[i]
     * the number of nodes the i-th entry of the rope data adds.
     */
    constructor (canCutMultipleRopesAtOnce: bool, prizeIsDynamicsOnStart: bool, segmentCounts: seq<nat>)
      ensures Valid()
      ensures this.canCutMultipleRopesAtOnce == canCutMultipleRopesAtOnce
      ensures Snapshot() == Initial(prizeIsDynamicsOnStart, segmentCounts)
    {
      this.canCutMultipleRopesAtOnce := canCutMultipleRopesAtOnce;
      levelOver, ropeCut, prizeDynamic := false, false, false;
      children, crocodile, prize, scheduled := [], 0, 0, [];
      new;
      SetUpScenery();
      SetUpPrize(prizeIsDynamicsOnStart);
      SetUpRopes(segmentCounts);
      SetUpCrocodile();
      assert children == [Unnamed, Unnamed, Unnamed] + Segments(segmentCounts) + [Unnamed];
    }

    /** Adds the background and the water. */
    method SetUpScenery()
      modifies this
      ensures Snapshot() == old(Snapshot()).(children := old(children) + [Unnamed, Unnamed])
    {
      children := children + [Unnamed];
      children := children + [Unnamed];
    }

    /** Adds the prize, whose body starts dynamic or not as the switch says. */
    method SetUpPrize(prizeIsDynamicsOnStart: bool)
      modifies this
      ensures Snapshot() == old(Snapshot()).(children := old(children) + [Unnamed],
                                             prize := |old(children)|,
                                             prizeDynamic := prizeIsDynamicsOnStart)
    {
      prize := |children|;
      prizeDynamic := prizeIsDynamicsOnStart;
      children := children + [Unnamed];
    }

    /** Adds one rope per entry of the rope data, rope i named by the decimal rendering of i. */
    method SetUpRopes(segmentCounts: seq<nat>)
      modifies this
      ensures Snapshot() == old(Snapshot()).(children := old(children) + Segments(segmentCounts))
    {
      for i := 0 to |segmentCounts|
        invariant Snapshot() == old(Snapshot()).(children := old(children) + Segments(segmentCounts[..i]))
      {
        assert segmentCounts[..i + 1][..i] == segmentCounts[..i];
        children := children + RopeSegments(i, segmentCounts[i]);
      }
      assert segmentCounts[..|segmentCounts|] == segmentCounts;
    }

    /** Adds the crocodile. */
    method SetUpCrocodile()
      modifies this
      ensures Snapshot() == old(Snapshot()).(children := old(children) + [Unnamed],
                                             crocodile := |old(children)|)
    {
      crocodile := |children|;
      children := children + [Unnamed];
    }

    /** A finger touches down: a new gesture, which may cut again. */
    method TouchesBegan()
      requires Valid()
      modifies this
      ensures Valid()
      ensures Snapshot() == Began(old(Snapshot()))
    {
      ropeCut := false;
    }

    /** Resolves one body the ray cast reports, the body of node `hit`. */
    method CheckIfRopeCut(hit: nat)
      requires hit < |children|
      modifies this
      ensures Snapshot() == CutWith(old(Snapshot()), canCutMultipleRopesAtOnce, hit)
    {
      if ropeCut && !canCutMultipleRopesAtOnce {
        return;
      }
      var name := children[hit].name;
      if name.Some? {
        prizeDynamic := true;
        children := children[hit := children[hit].(status := Removed)];
        // every remaining child carrying the rope's name starts its fade-out
        var j := 0;
        while j < |children|
          invariant 0 <= j <= |children| == |old(children)|
          invariant Snapshot().(children := old(children)) == old(Snapshot()).(prizeDynamic := true)
          invariant forall k :: 0 <= k < j ==>
                      children[k] == AfterCut(old(children)[k], k == hit, name.value)
          invariant forall k :: j <= k < |children| ==>
                      children[k] == if k == hit then old(children)[k].(status := Removed) else old(children)[k]
        {
          if children[j].name == name && children[j].status != Removed {
            children := children[j := children[j].(status := Fading)];
          }
          j := j + 1;
        }
        ropeCut := true;
        assert children == CutChildren(old(children), hit, name.value);
        assert Cuts(old(Snapshot()), canCutMultipleRopesAtOnce, hit);
      }
    }

    /** Resolves, in the order reported, the bodies the ray cast of one touch reports. */
    method CutAlongRay(hits: seq<nat>)
      requires HitsFit(hits, |children|)
      modifies this
      ensures Snapshot() == RayHits(old(Snapshot()), canCutMultipleRopesAtOnce, hits)
    {
      for h := 0 to |hits|
        invariant Snapshot() == RayHits(old(Snapshot()), canCutMultipleRopesAtOnce, hits[..h])
      {
        assert hits[..h + 1][..h] == hits[..h];
        CheckIfRopeCut(hits[h]);
      }
      assert hits[..|hits|] == hits;
    }

    /**
     * The finger moves: for each touch, every body the ray cast from its
     * previous to its current location reports (`touches[t]`), then a
     * particle emitter at the touch.
     */
    method TouchesMoved(touches: seq<seq<nat>>)
      requires Valid()
      requires TouchesFit(touches, |children|)
      modifies this
      ensures Valid()
      ensures Snapshot() == Moved(old(Snapshot()), canCutMultipleRopesAtOnce, touches)
    {
      for t := 0 to |touches|
        invariant Snapshot() == Moved(old(Snapshot()), canCutMultipleRopesAtOnce, touches[..t])
      {
        assert touches[..t + 1][..t] == touches[..t];
        CutAlongRay(touches[t]);
        children := children + [Unnamed];
      }
      assert touches[..|touches|] == touches;
    }

    /** Requests the next level, to be presented with the given transition. */
    method SwitchToNewGame(transition: Style)
      modifies this
      ensures Snapshot() == old(Snapshot()).(scheduled := old(scheduled) + [transition])
    {
      scheduled := scheduled + [transition];
    }

    /** A frame update, with the prize at height prizeY and `draw` the random generator's output. */
    method Update(prizeY: real, draw: nat)
      requires Valid()
      modifies this
      ensures Valid()
      ensures Snapshot() == Updated(old(Snapshot()), prizeY, draw)
    {
      if levelOver {
        return;
      }
      if prizeY <= 0.0 {
        levelOver := true;
        var transitions := RandomStyles;
        var randomIndex := UniformBelow(|transitions|, draw);
        SwitchToNewGame(transitions[randomIndex]);
      }
    }

    /** Two bodies, those of nodes a and b, begin to touch. */
    method DidBeginContact(a: nat, b: nat)
      requires Valid()
      modifies this
      ensures Valid()
      ensures Snapshot() == Contacted(old(Snapshot()), a, b)
    {
      if levelOver {
        return;
      }
      if (a == crocodile && b == prize) || (a == prize && b == crocodile) {
        levelOver := true;
        SwitchToNewGame(Doorway);
      }
    }

    /** The fade-out run on node j ends with the node's removal from the scene. */
    method FinishFade(j: nat)
      requires Valid()
      requires j < |children|
      modifies this
      ensures Valid()
      ensures Snapshot() == FadeDone(old(Snapshot()), j)
    {
      if children[j].status == Fading {
        children := children[j := children[j].(status := Removed)];
      }
    }
  }
}
