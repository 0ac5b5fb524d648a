/**
 * The game rules of one level, as values: the state the scene keeps,
 * one function per event handler, and the properties of a level's
 * lifetime (a run of events). The class in game_scene.dfy performs the
 * same steps in place and is proved to agree with these functions.
 */
module GameRules {
  import opened RopeNames

  datatype Option<T> = None | Some(value: T)

  /** Where a child node of the scene is in its life. */
  datatype Status =
    | Present   // in the scene
    | Fading    // in the scene, running the fade-out that ends in its removal
    | Removed   // taken out of the scene

  /** A child node of the scene. Rope nodes carry their rope's name; every other node has none. */
  datatype Node = Node(name: Option<string>, status: Status)

  /** Background, water, prize, crocodile and particle emitters: nodes without a name. */
  const Unnamed: Node := Node(None, Present)

  /** The scene transitions a new level can be presented with. */
  datatype Style =
    | DoorsOpenHorizontal | DoorsOpenVertical | DoorsCloseHorizontal | DoorsCloseVertical
    | FlipHorizontal | FlipVertical | MoveInLeft | PushRight | RevealDown
    | CrossFade | FadeDarkGray | Fade
    | Doorway

  /** The twelve transitions a lost level picks from at random, in the order the scene lists them. */
  const RandomStyles: seq<Style> :=
    [ DoorsOpenHorizontal, DoorsOpenVertical, DoorsCloseHorizontal, DoorsCloseVertical,
      FlipHorizontal, FlipVertical, MoveInLeft, PushRight, RevealDown,
      CrossFade, FadeDarkGray, Fade ]

  /**
   * What the game rules read and change. A node is identified by its
   * index in `children`; a removed node keeps its slot. `crocodile` and
   * `prize` are the indices of those two nodes; `scheduled` lists the
   * level transitions requested so far.
   */
  datatype State = State(
    levelOver: bool,
    ropeCut: bool,
    prizeDynamic: bool,
    children: seq<Node>,
    crocodile: nat,
    prize: nat,
    scheduled: seq<Style>)

  // ---------------------------------------------------------------- setup

  /** The nodes rope i adds to the scene, all carrying the rope's name. */
  function RopeSegments(i: nat, count: nat): seq<Node>
  {
    seq(count, _ => Node(Some(Decimal(i)), Present))
  }

  /** The number of nodes all ropes add together. */
  function Total(counts: seq<nat>): nat
  {
    if counts == [] then 0 else Total(counts[..|counts| - 1]) + counts[|counts| - 1]
  }

  /** The nodes of all ropes, rope by rope, where rope i adds counts[i] nodes. */
  function Segments(counts: seq<nat>): (r: seq<Node>)
    ensures |r| == Total(counts)
    ensures forall k :: 0 <= k < |r| ==> r[k].name.Some? && r[k].status == Present
    decreases |counts|
  {
    if counts == [] then []
    else
      Segments(counts[..|counts| - 1]) + RopeSegments(|counts| - 1, counts[|counts| - 1])
  }

  /** Every node the ropes add carries the name of one of the ropes. */
  lemma {:induction false} SegmentNames(counts: seq<nat>, k: nat)
    requires k < |Segments(counts)|
    ensures exists j :: 0 <= j < |counts| && Segments(counts)[k].name == Some(Decimal(j))
    decreases |counts|
  {
    var n := |counts| - 1;
    var prefix := Segments(counts[..n]);
    if k < |prefix| {
      SegmentNames(counts[..n], k);
      var j :| 0 <= j < n && prefix[k].name == Some(Decimal(j));
      assert Segments(counts)[k] == prefix[k];
    } else {
      assert Segments(counts)[k].name == Some(Decimal(n));
    }
  }

  /** The state of a level once the scene is set up: background, water, prize, ropes, crocodile. */
  function Initial(prizeIsDynamicsOnStart: bool, counts: seq<nat>): (s: State)
    ensures !s.levelOver && !s.ropeCut && s.scheduled == []
    ensures s.prizeDynamic == prizeIsDynamicsOnStart
    ensures s.prize < |s.children| && s.crocodile < |s.children| && s.prize != s.crocodile
    ensures s.children[s.prize].name == None && s.children[s.crocodile].name == None
    ensures forall k :: 0 <= k < |s.children| ==> s.children[k].status == Present
  {
    var ropes := Segments(counts);
    State(false, false, prizeIsDynamicsOnStart,
          [Unnamed, Unnamed, Unnamed] + ropes + [Unnamed], 3 + |ropes|, 2, [])
  }

  /** How many of the nodes carry the given name. */
  function NamedCount(cs: seq<Node>, name: string): nat
  {
    if cs == [] then 0
    else NamedCount(cs[..|cs| - 1], name) + (if cs[|cs| - 1].name == Some(name) then 1 else 0)
  }

  lemma {:induction false} NamedCountAppend(a: seq<Node>, b: seq<Node>, name: string)
    ensures NamedCount(a + b, name) == NamedCount(a, name) + NamedCount(b, name)
    decreases |b|
  {
    if b == [] {
      assert a + b == a;
    } else {
      assert (a + b)[..|a + b| - 1] == a + b[..|b| - 1];
      NamedCountAppend(a, b[..|b| - 1], name);
    }
  }

  lemma {:induction false} RopeSegmentsCount(i: nat, count: nat, j: nat)
    ensures NamedCount(RopeSegments(i, count), Decimal(j)) == if i == j then count else 0
    decreases count
  {
    if count > 0 {
      assert RopeSegments(i, count)[..count - 1] == RopeSegments(i, count - 1);
      RopeSegmentsCount(i, count - 1, j);
      if i != j {
        DecimalInjective(i, j);
      }
    }
  }

  /** The name of rope i picks out exactly that rope's nodes: counts[i] of them. */
  lemma {:induction false} SegmentsNamedByRope(counts: seq<nat>, i: nat)
    ensures NamedCount(Segments(counts), Decimal(i)) == if i < |counts| then counts[i] else 0
    decreases |counts|
  {
    if counts != [] {
      var n := |counts| - 1;
      SegmentsNamedByRope(counts[..n], i);
      NamedCountAppend(Segments(counts[..n]), RopeSegments(n, counts[n]), Decimal(i));
      RopeSegmentsCount(n, counts[n], i);
    }
  }

  /** After setup, the nodes named "i" are the counts[i] nodes of rope i and no others. */
  lemma InitialRopeNames(prizeIsDynamicsOnStart: bool, counts: seq<nat>, i: nat)
    ensures NamedCount(Initial(prizeIsDynamicsOnStart, counts).children, Decimal(i))
         == if i < |counts| then counts[i] else 0
  {
    var ropes := Segments(counts);
    var name := Decimal(i);
    SegmentsNamedByRope(counts, i);
    NamedCountAppend([Unnamed, Unnamed, Unnamed], ropes, name);
    NamedCountAppend([Unnamed, Unnamed, Unnamed] + ropes, [Unnamed], name);
    assert NamedCount([Unnamed, Unnamed, Unnamed], name) == 0 by {
      assert [Unnamed, Unnamed, Unnamed][..2] == [Unnamed, Unnamed];
      assert [Unnamed, Unnamed][..1] == [Unnamed];
      assert [Unnamed][..0] == [];
    }
    assert NamedCount([Unnamed], name) == 0 by {
      assert [Unnamed][..0] == [];
    }
  }

  // ------------------------------------------------------------ touches

  /** A new gesture begins: the next hit may cut again. */
  function Began(s: State): (r: State)
    ensures !r.ropeCut
    ensures r.(ropeCut := s.ropeCut) == s
  {
    s.(ropeCut := false)
  }

  /** Whether a hit on node `hit` cuts: the guard lets it through and the node has a name. */
  predicate Cuts(s: State, multi: bool, hit: nat)
    requires hit < |s.children|
  {
    (!s.ropeCut || multi) && s.children[hit].name.Some?
  }

  /** One node after a cut of the rope called `name`: the hit node goes, the rest of the rope fades. */
  function AfterCut(n: Node, isHit: bool, name: string): Node
  {
    if isHit then n.(status := Removed)
    else if n.name == Some(name) && n.status != Removed then n.(status := Fading)
    else n
  }

  function CutChildren(cs: seq<Node>, hit: nat, name: string): (r: seq<Node>)
    requires hit < |cs|
    ensures |r| == |cs|
  {
    seq(|cs|, k requires 0 <= k < |cs| => AfterCut(cs[k], k == hit, name))
  }

  /**
   * A ray hit on node `hit`, with `multi` the switch that allows more than
   * one cut per gesture. A hit cuts only when the guard allows it and the
   * node has a name; then the prize falls and the flag records the cut.
   */
  function CutWith(s: State, multi: bool, hit: nat): (r: State)
    requires hit < |s.children|
    ensures |r.children| == |s.children|
    ensures r.levelOver == s.levelOver && r.scheduled == s.scheduled
    ensures r.crocodile == s.crocodile && r.prize == s.prize
    ensures forall k :: 0 <= k < |s.children| ==> r.children[k].name == s.children[k].name
    ensures forall k :: 0 <= k < |s.children| && s.children[k].status == Removed ==>
              r.children[k].status == Removed
    ensures forall k :: 0 <= k < |s.children| && s.children[k].status != Present ==>
              r.children[k].status != Present
    ensures Cuts(s, multi, hit) ==> r.ropeCut && r.prizeDynamic && r.children[hit].status == Removed
    ensures !Cuts(s, multi, hit) ==> r == s
  {
    if Cuts(s, multi, hit) then
      s.(prizeDynamic := true, ropeCut := true,
         children := CutChildren(s.children, hit, s.children[hit].name.value))
    else s
  }

  /**
   * A cut touches only the rope it hits: every other present node of that
   * rope starts fading, and nodes with another name or none stay as they were.
   */
  lemma CutTouchesOnlyItsRope(s: State, multi: bool, hit: nat, k: nat)
    requires hit < |s.children| && k < |s.children| && k != hit
    requires Cuts(s, multi, hit)
    ensures s.children[k].name != s.children[hit].name ==> CutWith(s, multi, hit).children[k] == s.children[k]
    ensures s.children[k].name == s.children[hit].name ==>
              CutWith(s, multi, hit).children[k].status == (if s.children[k].status == Removed then Removed else Fading)
  {
  }

  /** Every hit of the list names a node of a scene with n children. */
  predicate HitsFit(hits: seq<nat>, n: nat)
  {
    forall k :: 0 <= k < |hits| ==> hits[k] < n
  }

  /** The hits the ray cast of one touch reports, resolved in order. */
  function RayHits(s: State, multi: bool, hits: seq<nat>): (r: State)
    requires HitsFit(hits, |s.children|)
    ensures |r.children| == |s.children|
    ensures r.levelOver == s.levelOver && r.scheduled == s.scheduled
    ensures r.crocodile == s.crocodile && r.prize == s.prize
    ensures s.prizeDynamic ==> r.prizeDynamic
    ensures s.ropeCut ==> r.ropeCut
    ensures forall k :: 0 <= k < |s.children| ==> r.children[k].name == s.children[k].name
    ensures forall k :: 0 <= k < |s.children| && s.children[k].status == Removed ==>
              r.children[k].status == Removed
    ensures forall k :: 0 <= k < |s.children| && s.children[k].status != Present ==>
              r.children[k].status != Present
    decreases |hits|
  {
    if hits == [] then s
    else CutWith(RayHits(s, multi, hits[..|hits| - 1]), multi, hits[|hits| - 1])
  }

  /** How many of the hits cut a rope. */
  function RayCuts(s: State, multi: bool, hits: seq<nat>): nat
    requires HitsFit(hits, |s.children|)
    decreases |hits|
  {
    if hits == [] then 0
    else
      var prefix := hits[..|hits| - 1];
      RayCuts(s, multi, prefix) + (if Cuts(RayHits(s, multi, prefix), multi, hits[|hits| - 1]) then 1 else 0)
  }

  /**
   * With one cut per gesture, the hits of a ray cut at most one rope, and
   * none once the gesture has cut; in either mode the flag afterwards says
   * whether the gesture has cut.
   */
  lemma {:induction false} RayCutsBound(s: State, multi: bool, hits: seq<nat>)
    requires HitsFit(hits, |s.children|)
    ensures RayHits(s, multi, hits).ropeCut == (s.ropeCut || RayCuts(s, multi, hits) > 0)
    ensures RayHits(s, multi, hits).prizeDynamic == (s.prizeDynamic || RayCuts(s, multi, hits) > 0)
    ensures !multi ==> RayCuts(s, multi, hits) <= if s.ropeCut then 0 else 1
    decreases |hits|
  {
    if hits != [] {
      RayCutsBound(s, multi, hits[..|hits| - 1]);
    }
  }

  /** Hits that all land on unnamed nodes change nothing. */
  lemma {:induction false} UnnamedHitsChangeNothing(s: State, multi: bool, hits: seq<nat>)
    requires HitsFit(hits, |s.children|)
    requires forall k :: 0 <= k < |hits| ==> s.children[hits[k]].name == None
    ensures RayHits(s, multi, hits) == s
    decreases |hits|
  {
    if hits != [] {
      UnnamedHitsChangeNothing(s, multi, hits[..|hits| - 1]);
    }
  }

  /**
   * With one cut per gesture and no cut yet, a ray whose first named hit is
   * hits[i] has exactly the effect of cutting that node alone: every other
   * rope it crosses stays as it was.
   */
  lemma {:induction false} FirstCutWins(s: State, hits: seq<nat>, i: nat)
    requires HitsFit(hits, |s.children|)
    requires !s.ropeCut && i < |hits| && s.children[hits[i]].name.Some?
    requires forall k :: 0 <= k < i ==> s.children[hits[k]].name == None
    ensures RayHits(s, false, hits) == CutWith(s, false, hits[i])
    decreases |hits|
  {
    var n := |hits| - 1;
    if n == i {
      assert hits[..n][..i] == hits[..i];
      UnnamedHitsChangeNothing(s, false, hits[..n]);
    } else {
      assert hits[..n][i] == hits[i];
      FirstCutWins(s, hits[..n], i);
    }
  }

  /**
   * When more than one cut per gesture is allowed, every named node the ray
   * hits ends up removed, and every node of each rope it hits is no longer
   * simply present: it is fading or removed.
   */
  lemma {:induction false} MultiCutRemovesEveryNamedHit(s: State, hits: seq<nat>, k: nat)
    requires HitsFit(hits, |s.children|)
    requires k < |hits| && s.children[hits[k]].name.Some?
    ensures RayHits(s, true, hits).children[hits[k]].status == Removed
    ensures forall j :: 0 <= j < |s.children| && s.children[j].name == s.children[hits[k]].name ==>
              RayHits(s, true, hits).children[j].status != Present
    decreases |hits|
  {
    var n := |hits| - 1;
    if k < n {
      assert hits[..n][k] == hits[k];
      MultiCutRemovesEveryNamedHit(s, hits[..n], k);
    } else {
      var before := RayHits(s, true, hits[..n]);
      assert Cuts(before, true, hits[k]);
      forall j | 0 <= j < |s.children| && s.children[j].name == s.children[hits[k]].name
        ensures RayHits(s, true, hits).children[j].status != Present
      {
        if j != hits[k] {
          CutTouchesOnlyItsRope(before, true, hits[k], j);
        }
      }
    }
  }

  /** Every hit of every touch names a node of a scene with n children. */
  predicate TouchesFit(touches: seq<seq<nat>>, n: nat)
  {
    forall t :: 0 <= t < |touches| ==> HitsFit(touches[t], n)
  }

  /**
   * One move of the pointer: for each touch, the hits of its ray cast, and
   * then a particle emitter (an unnamed node) added to the scene.
   */
  function Moved(s: State, multi: bool, touches: seq<seq<nat>>): (r: State)
    requires TouchesFit(touches, |s.children|)
    ensures |r.children| == |s.children| + |touches|
    ensures r.levelOver == s.levelOver && r.scheduled == s.scheduled
    ensures r.crocodile == s.crocodile && r.prize == s.prize
    ensures s.prizeDynamic ==> r.prizeDynamic
    ensures s.ropeCut ==> r.ropeCut
    ensures forall k :: 0 <= k < |s.children| ==> r.children[k].name == s.children[k].name
    decreases |touches|
  {
    if touches == [] then s
    else
      var before := Moved(s, multi, touches[..|touches| - 1]);
      var after := RayHits(before, multi, touches[|touches| - 1]);
      after.(children := after.children + [Unnamed])
  }

  /** How many ropes one move of the pointer cuts. */
  function MovedCuts(s: State, multi: bool, touches: seq<seq<nat>>): nat
    requires TouchesFit(touches, |s.children|)
    decreases |touches|
  {
    if touches == [] then 0
    else
      var prefix := touches[..|touches| - 1];
      MovedCuts(s, multi, prefix) + RayCuts(Moved(s, multi, prefix), multi, touches[|touches| - 1])
  }

  lemma {:induction false} MovedCutsBound(s: State, multi: bool, touches: seq<seq<nat>>)
    requires TouchesFit(touches, |s.children|)
    ensures Moved(s, multi, touches).ropeCut == (s.ropeCut || MovedCuts(s, multi, touches) > 0)
    ensures Moved(s, multi, touches).prizeDynamic == (s.prizeDynamic || MovedCuts(s, multi, touches) > 0)
    ensures !multi ==> MovedCuts(s, multi, touches) <= if s.ropeCut then 0 else 1
    decreases |touches|
  {
    if touches != [] {
      var prefix := touches[..|touches| - 1];
      MovedCutsBound(s, multi, prefix);
      RayCutsBound(Moved(s, multi, prefix), multi, touches[|touches| - 1]);
    }
  }

  // -------------------------------------------------------------- ending

  /** A uniformly random number below `bound`, drawn from the generator's output `draw`. */
  function UniformBelow(bound: nat, draw: nat): (r: nat)
    requires bound > 0
    ensures r < bound
  {
    draw % bound
  }

  /**
   * A frame update with the prize at height prizeY. The level is lost when
   * the prize is at or below the floor; it is then sealed and one of the
   * twelve random transitions is requested.
   */
  function Updated(s: State, prizeY: real, draw: nat): (r: State)
    ensures s.levelOver || prizeY > 0.0 ==> r == s
    ensures !s.levelOver && prizeY <= 0.0 ==>
              && |r.scheduled| == |s.scheduled| + 1
              && r == s.(levelOver := true, scheduled := s.scheduled + [r.scheduled[|s.scheduled|]])
              && r.scheduled[|s.scheduled|] in RandomStyles
  {
    if s.levelOver || prizeY > 0.0 then s
    else s.(levelOver := true,
            scheduled := s.scheduled + [RandomStyles[UniformBelow(|RandomStyles|, draw)]])
  }

  /** Whether a contact pair is the crocodile and the prize, in either order. */
  predicate IsCapture(s: State, a: nat, b: nat)
  {
    (a == s.crocodile && b == s.prize) || (a == s.prize && b == s.crocodile)
  }

  /**
   * A contact between the nodes a and b. The level is won when the pair is
   * the crocodile and the prize; it is then sealed and the doorway
   * transition is requested. Only the level flag and the schedule change.
   */
  function Contacted(s: State, a: nat, b: nat): (r: State)
    ensures r.levelOver == (s.levelOver || IsCapture(s, a, b))
    ensures r.(levelOver := s.levelOver, scheduled := s.scheduled) == s
    ensures !s.levelOver && IsCapture(s, a, b) ==> r.scheduled == s.scheduled + [Doorway]
    ensures s.levelOver || !IsCapture(s, a, b) ==> r == s
  {
    if !s.levelOver && IsCapture(s, a, b) then
      s.(levelOver := true, scheduled := s.scheduled + [Doorway])
    else s
  }

  /** The order in which a contact reports its two bodies does not matter. */
  lemma ContactOrderIrrelevant(s: State, a: nat, b: nat)
    ensures Contacted(s, a, b) == Contacted(s, b, a)
  {
  }

  /** The fade-out of node j ends and removes the node; a node not fading is left alone. */
  function FadeDone(s: State, j: nat): (r: State)
    requires j < |s.children|
    ensures |r.children| == |s.children|
    ensures r.children[j].status == if s.children[j].status == Fading then Removed else s.children[j].status
    ensures r.(children := s.children) == s
    ensures forall k :: 0 <= k < |s.children| && k != j ==> r.children[k] == s.children[k]
    ensures r.children[j].name == s.children[j].name
  {
    if s.children[j].status == Fading then
      s.(children := s.children[j := s.children[j].(status := Removed)])
    else s
  }

  // ---------------------------------------------------- a level's lifetime

  /** The callbacks the engine delivers to a scene. */
  datatype Event =
    | TouchBegan
    | TouchMoved(touches: seq<seq<nat>>)
    | Tick(prizeY: real, draw: nat)
    | ContactBegan(a: nat, b: nat)
    | FadeFinished(node: nat)

  /** The event names only nodes of a scene with n children. */
  predicate EventFits(e: Event, n: nat)
  {
    match e
    case TouchMoved(touches) => TouchesFit(touches, n)
    case FadeFinished(j) => j < n
    case _ => true
  }

  predicate EventsFit(es: seq<Event>, n: nat)
  {
    forall k :: 0 <= k < |es| ==> EventFits(es[k], n)
  }

  lemma EventsFitGrow(es: seq<Event>, n: nat, m: nat)
    requires EventsFit(es, n) && n <= m
    ensures EventsFit(es, m)
  {
    forall k | 0 <= k < |es|
      ensures EventFits(es[k], m)
    {
      if es[k].TouchMoved? {
        var ts := es[k].touches;
        assert forall t, h :: 0 <= t < |ts| && 0 <= h < |ts[t]| ==> ts[t][h] < n;
      }
    }
  }

  function Step(s: State, multi: bool, e: Event): (r: State)
    requires EventFits(e, |s.children|)
    ensures |r.children| >= |s.children|
    ensures r.crocodile == s.crocodile && r.prize == s.prize
  {
    match e
    case TouchBegan => Began(s)
    case TouchMoved(touches) => Moved(s, multi, touches)
    case Tick(prizeY, draw) => Updated(s, prizeY, draw)
    case ContactBegan(a, b) => Contacted(s, a, b)
    case FadeFinished(j) => FadeDone(s, j)
  }

  /** The state after a run of events. */
  function Run(s: State, multi: bool, es: seq<Event>): State
    requires EventsFit(es, |s.children|)
    decreases |es|
  {
    if es == [] then s
    else
      var next := Step(s, multi, es[0]);
      EventsFitGrow(es[1..], |s.children|, |next.children|);
      Run(next, multi, es[1..])
  }

  /** How many ropes a run of events cuts. */
  function RunCuts(s: State, multi: bool, es: seq<Event>): nat
    requires EventsFit(es, |s.children|)
    decreases |es|
  {
    if es == [] then 0
    else
      var next := Step(s, multi, es[0]);
      EventsFitGrow(es[1..], |s.children|, |next.children|);
      (if es[0].TouchMoved? then MovedCuts(s, multi, es[0].touches) else 0) + RunCuts(next, multi, es[1..])
  }

  /** Over any run of events, the prize becomes dynamic only by a cut: the flag is set afterwards exactly when it was set before or the run cut a rope. */
  lemma {:induction false} PrizeDynamicOnlyByCut(s: State, multi: bool, es: seq<Event>)
    requires EventsFit(es, |s.children|)
    ensures Run(s, multi, es).prizeDynamic == (s.prizeDynamic || RunCuts(s, multi, es) > 0)
    decreases |es|
  {
    if es != [] {
      var next := Step(s, multi, es[0]);
      EventsFitGrow(es[1..], |s.children|, |next.children|);
      if es[0].TouchMoved? {
        MovedCutsBound(s, multi, es[0].touches);
      }
      PrizeDynamicOnlyByCut(next, multi, es[1..]);
    }
  }

  /** A level whose prize starts static has a dynamic prize exactly once some rope has been cut. */
  lemma FreshLevelPrizeActivation(counts: seq<nat>, multi: bool, es: seq<Event>)
    requires EventsFit(es, |Initial(false, counts).children|)
    ensures Run(Initial(false, counts), multi, es).prizeDynamic == (RunCuts(Initial(false, counts), multi, es) > 0)
  {
    PrizeDynamicOnlyByCut(Initial(false, counts), multi, es);
  }

  /**
   * With one cut per gesture, the events between two touch-downs cut at
   * most one rope, however many moves and hits they hold.
   */
  lemma {:induction false} OneCutPerGesture(s: State, es: seq<Event>)
    requires EventsFit(es, |s.children|)
    requires forall k :: 0 <= k < |es| ==> !es[k].TouchBegan?
    ensures Run(s, false, es).ropeCut == (s.ropeCut || RunCuts(s, false, es) > 0)
    ensures RunCuts(s, false, es) <= if s.ropeCut then 0 else 1
    decreases |es|
  {
    if es != [] {
      var next := Step(s, false, es[0]);
      EventsFitGrow(es[1..], |s.children|, |next.children|);
      if es[0].TouchMoved? {
        MovedCutsBound(s, false, es[0].touches);
      }
      OneCutPerGesture(next, es[1..]);
    }
  }

  /** A touch-down followed by any events without another touch-down cuts at most one rope. */
  lemma CutsBetweenTouchDowns(s: State, es: seq<Event>)
    requires EventsFit(es, |s.children|)
    requires forall k :: 0 <= k < |es| ==> !es[k].TouchBegan?
    ensures RunCuts(Began(s), false, es) <= 1
  {
    OneCutPerGesture(Began(s), es);
  }

  /** A level has requested a transition exactly when it is over, and then exactly one. */
  predicate LevelInv(s: State)
  {
    |s.scheduled| == if s.levelOver then 1 else 0
  }

  lemma StepKeepsLevelInv(s: State, multi: bool, e: Event)
    requires EventFits(e, |s.children|) && LevelInv(s)
    ensures LevelInv(Step(s, multi, e))
  {
  }

  /** Over a level's whole lifetime at most one transition is requested, and only once it is over. */
  lemma {:induction false} AtMostOneTransition(s: State, multi: bool, es: seq<Event>)
    requires EventsFit(es, |s.children|) && LevelInv(s)
    ensures LevelInv(Run(s, multi, es))
    ensures |Run(s, multi, es).scheduled| <= 1
    decreases |es|
  {
    if es != [] {
      var next := Step(s, multi, es[0]);
      StepKeepsLevelInv(s, multi, es[0]);
      EventsFitGrow(es[1..], |s.children|, |next.children|);
      AtMostOneTransition(next, multi, es[1..]);
    }
  }

  /** A fresh level, whatever happens to it, requests at most one transition. */
  lemma FreshLevelAtMostOneTransition(prizeIsDynamicsOnStart: bool, counts: seq<nat>, multi: bool, es: seq<Event>)
    requires EventsFit(es, |Initial(prizeIsDynamicsOnStart, counts).children|)
    ensures |Run(Initial(prizeIsDynamicsOnStart, counts), multi, es).scheduled| <= 1
  {
    AtMostOneTransition(Initial(prizeIsDynamicsOnStart, counts), multi, es);
  }

  /** Once a level is over it stays over and requests nothing more. */
  lemma {:induction false} SealedAfterConclusion(s: State, multi: bool, es: seq<Event>)
    requires EventsFit(es, |s.children|) && s.levelOver
    ensures Run(s, multi, es).levelOver
    ensures Run(s, multi, es).scheduled == s.scheduled
    decreases |es|
  {
    if es != [] {
      var next := Step(s, multi, es[0]);
      EventsFitGrow(es[1..], |s.children|, |next.children|);
      SealedAfterConclusion(next, multi, es[1..]);
    }
  }

  /** Once the prize is dynamic, nothing makes it static again. */
  lemma {:induction false} PrizeStaysDynamic(s: State, multi: bool, es: seq<Event>)
    requires EventsFit(es, |s.children|) && s.prizeDynamic
    ensures Run(s, multi, es).prizeDynamic
    decreases |es|
  {
    if es != [] {
      var next := Step(s, multi, es[0]);
      EventsFitGrow(es[1..], |s.children|, |next.children|);
      PrizeStaysDynamic(next, multi, es[1..]);
    }
  }

  /**
   * A capture and a fall in the same frame conclude the level once, in
   * either order: the first check to run decides the transition.
   */
  lemma OneConclusionPerFrame(s: State, a: nat, b: nat, prizeY: real, draw: nat)
    requires !s.levelOver && IsCapture(s, a, b) && prizeY <= 0.0
    ensures Updated(Contacted(s, a, b), prizeY, draw).scheduled == s.scheduled + [Doorway]
    ensures var r := Contacted(Updated(s, prizeY, draw), a, b);
            |r.scheduled| == |s.scheduled| + 1 && r.scheduled[|s.scheduled|] in RandomStyles
  {
  }
}
