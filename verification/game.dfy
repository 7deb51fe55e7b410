/** The game's state machine: key events, the per-frame update (walking,
    clamping to the canvas, collecting treats, reaching Edie) and the
    properties that hold along any run of events. */
module GameLogic {
  import opened Types

  datatype Direction = Left | Right

  /** Everything `update` and the key handlers read or write. */
  datatype Game = Game(
    state: GameState,
    playerX: real,
    playerDirection: Direction,
    edieX: real,
    treats: seq<Treat>,
    treatsCollected: int,
    keys: set<string>,
    animFrame: nat,
    playerMoving: bool)

  const StartX: real := 80.0
  const EdieX: real := 650.0
  const TreatCount: nat := 4
  const FirstTreatX: real := 180.0
  const TreatSpacing: real := 120.0
  /** A treat is picked up when the player is closer than this. */
  const PickupRange: real := 30.0
  /** The game is won when the player is closer than this to Edie. */
  const ReachRange: real := 50.0

  function Dist(a: real, b: real): real
  {
    if a < b then b - a else a - b
  }

  function Max(a: real, b: real): real
  {
    if a < b then b else a
  }

  function Min(a: real, b: real): real
  {
    if b < a then b else a
  }

  /** Number of treats already collected. */
  function CountCollected(ts: seq<Treat>): (n: nat)
    ensures n <= |ts|
    ensures n == 0 <==> forall i :: 0 <= i < |ts| ==> !ts[i].collected
  {
    if |ts| == 0 then 0
    else (if ts[0].collected then 1 else 0) + CountCollected(ts[1..])
  }

  /** The four treats laid out by `init`. */
  function InitialTreats(): (ts: seq<Treat>)
    ensures |ts| == TreatCount
    ensures forall i :: 0 <= i < |ts| ==> !ts[i].collected && ts[i].y == GroundY - 15.0
    // evenly spaced, strictly between the player's start and Edie
    ensures ts[0].x == FirstTreatX
    ensures forall i :: 0 < i < |ts| ==> ts[i].x == ts[i - 1].x + TreatSpacing
    ensures forall i :: 0 <= i < |ts| ==> StartX < ts[i].x < EdieX
  {
    seq(TreatCount, i requires 0 <= i < TreatCount => Treat(FirstTreatX + (i as real) * TreatSpacing, GroundY - 15.0, false))
  }

  /** The counter agrees with the flags, and there are always four treats. */
  predicate Consistent(g: Game)
  {
    |g.treats| == TreatCount && g.treatsCollected == CountCollected(g.treats)
  }

  /** The state once `init` has laid out the treats and registered the handlers. */
  function NewGame(): (g: Game)
    ensures Consistent(g)
    ensures g.state == Title && g.treatsCollected == 0 && g.keys == {}
    ensures g.playerX == StartX && g.edieX == EdieX && g.treats == InitialTreats()
    ensures g.playerDirection == Right && g.animFrame == 0 && !g.playerMoving
  {
    Game(Title, StartX, Right, EdieX, InitialTreats(), 0, {}, 0, false)
  }

  /** The keydown handler: remember the key; Enter starts the game from the
      title screen and does nothing else. */
  function KeyDown(g: Game, key: string): (g': Game)
    ensures key in g'.keys && g'.keys - {key} == g.keys - {key}
    ensures g'.state != g.state <==> g.state == Title && key == "Enter"
    ensures g'.state != g.state ==> g'.state == Playing
    ensures g' == g.(keys := g'.keys, state := g'.state)
  {
    var g1 := g.(keys := g.keys + {key});
    if key == "Enter" && g1.state == Title then g1.(state := Playing) else g1
  }

  /** The keyup handler: forget the key. */
  function KeyUp(g: Game, key: string): (g': Game)
    ensures key !in g'.keys && g'.keys + {key} == g.keys + {key}
    ensures g' == g.(keys := g'.keys)
  {
    g.(keys := g.keys - {key})
  }

  predicate HoldsLeft(keys: set<string>)
  {
    "ArrowLeft" in keys || "a" in keys || "A" in keys
  }

  predicate HoldsRight(keys: set<string>)
  {
    "ArrowRight" in keys || "d" in keys || "D" in keys
  }

  /** `Math.max(halfWidth, Math.min(CANVAS_WIDTH - halfWidth, x))`. */
  function Clamp(x: real, halfWidth: real): (r: real)
    ensures halfWidth <= CanvasWidth - halfWidth ==> halfWidth <= r <= CanvasWidth - halfWidth
    ensures halfWidth <= x <= CanvasWidth - halfWidth ==> r == x
    ensures halfWidth > CanvasWidth - halfWidth ==> r == halfWidth
    // an out-of-range position goes to the nearer edge
    ensures halfWidth <= CanvasWidth - halfWidth && x < halfWidth ==> r == halfWidth
    ensures halfWidth <= CanvasWidth - halfWidth && x > CanvasWidth - halfWidth ==> r == CanvasWidth - halfWidth
  {
    Max(halfWidth, Min(CanvasWidth - halfWidth, x))
  }

  /** One pass over the treats, in order, at player position `px`: each
      uncollected treat in range is collected. Returns the new treats and
      how many were collected by this pass. */
  function CollectTreats(ts: seq<Treat>, px: real): (r: (seq<Treat>, nat))
    ensures |r.0| == |ts|
    ensures forall i :: 0 <= i < |ts| ==>
      && r.0[i].x == ts[i].x && r.0[i].y == ts[i].y
      && (r.0[i].collected <==> ts[i].collected || Dist(px, ts[i].x) < PickupRange)
    ensures CountCollected(r.0) == CountCollected(ts) + r.1
  {
    if |ts| == 0 then
      ([], 0)
    else
      var t := ts[0];
      var pick := !t.collected && Dist(px, t.x) < PickupRange;
      var rest := CollectTreats(ts[1..], px);
      var out := [t.(collected := t.collected || pick)] + rest.0;
      assert out[1..] == rest.0;
      (out, (if pick then 1 else 0) + rest.1)
  }

  /** Net horizontal displacement the held keys ask for in one frame. */
  function Displacement(keys: set<string>): real
  {
    (if HoldsRight(keys) then PlayerSpeed else 0.0) - (if HoldsLeft(keys) then PlayerSpeed else 0.0)
  }

  /** One frame of `update`. `halfWidth` is half the player sprite's drawn
      width, which `update` derives from `meganSprite`. */
  function Update(g: Game, halfWidth: real): (g': Game)
    ensures g'.animFrame == g.animFrame + 1
    // outside PLAYING only the frame counter and the moving flag change
    ensures g.state != Playing ==> g' == g.(animFrame := g.animFrame + 1, playerMoving := false)
    // the only transition is PLAYING -> WIN, taken exactly when Edie is in reach
    ensures g'.state != g.state ==> g.state == Playing && g'.state == Win
    ensures g.state == Playing ==> (g'.state == Win <==> Dist(g'.playerX, g.edieX) < ReachRange)
    ensures g.state == Playing ==> g'.playerX == Clamp(g.playerX + Displacement(g.keys), halfWidth)
    ensures g.state == Playing && 0.0 <= halfWidth <= CanvasWidth / 2.0 ==>
      halfWidth <= g'.playerX <= CanvasWidth - halfWidth
    ensures g'.keys == g.keys && g'.edieX == g.edieX
    // treats keep their place, and a collected treat stays collected
    ensures |g'.treats| == |g.treats|
    ensures forall i :: 0 <= i < |g.treats| ==>
      && g'.treats[i].x == g.treats[i].x && g'.treats[i].y == g.treats[i].y
      && (g.treats[i].collected ==> g'.treats[i].collected)
    // a PLAYING frame collects exactly the treats within reach of the new position
    ensures g.state == Playing ==> forall i :: 0 <= i < |g.treats| ==>
      (g'.treats[i].collected <==> g.treats[i].collected || Dist(g'.playerX, g.treats[i].x) < PickupRange)
    ensures g'.treatsCollected - g.treatsCollected == CountCollected(g'.treats) - CountCollected(g.treats)
  {
    var g0 := g.(animFrame := g.animFrame + 1, playerMoving := false);
    if g0.state != Playing then
      g0
    else
      var g1 := if HoldsLeft(g0.keys) then
        g0.(playerX := g0.playerX - PlayerSpeed, playerDirection := Left, playerMoving := true)
      else g0;
      var g2 := if HoldsRight(g1.keys) then
        g1.(playerX := g1.playerX + PlayerSpeed, playerDirection := Right, playerMoving := true)
      else g1;
      var g3 := g2.(playerX := Clamp(g2.playerX, halfWidth));
      var collected := CollectTreats(g3.treats, g3.playerX);
      var g4 := g3.(treats := collected.0, treatsCollected := g3.treatsCollected + collected.1);
      if Dist(g4.playerX, g4.edieX) < ReachRange then g4.(state := Win) else g4
  }

  /** With a left key and a right key both held the two moves cancel, and the
      later right move decides the facing. */
  lemma BothHeldCancel(g: Game, halfWidth: real)
    requires g.state == Playing && HoldsLeft(g.keys) && HoldsRight(g.keys)
    ensures Update(g, halfWidth).playerX == Clamp(g.playerX, halfWidth)
    ensures Update(g, halfWidth).playerDirection == Right
    ensures Update(g, halfWidth).playerMoving
  {
  }

  /** Facing and the moving flag after a PLAYING frame. */
  lemma DirectionAfterUpdate(g: Game, halfWidth: real)
    requires g.state == Playing
    ensures Update(g, halfWidth).playerMoving <==> HoldsLeft(g.keys) || HoldsRight(g.keys)
    ensures HoldsRight(g.keys) ==> Update(g, halfWidth).playerDirection == Right
    ensures HoldsLeft(g.keys) && !HoldsRight(g.keys) ==> Update(g, halfWidth).playerDirection == Left
    ensures !HoldsLeft(g.keys) && !HoldsRight(g.keys) ==> Update(g, halfWidth).playerDirection == g.playerDirection
  {
  }

  /** Releasing a key just pressed restores the key set, and the whole state
      when the press did not start the game. */
  lemma KeyUpUndoesKeyDown(g: Game, key: string)
    requires key !in g.keys
    ensures KeyUp(KeyDown(g, key), key).keys == g.keys
    ensures !(g.state == Title && key == "Enter") ==> KeyUp(KeyDown(g, key), key) == g
  {
  }

  /** The events the browser delivers: key presses, key releases and
      animation frames. */
  datatype Event = Press(key: string) | Release(key: string) | Frame

  function Step(g: Game, e: Event, halfWidth: real): Game
  {
    match e
    case Press(k) => KeyDown(g, k)
    case Release(k) => KeyUp(g, k)
    case Frame => Update(g, halfWidth)
  }

  function Run(g: Game, events: seq<Event>, halfWidth: real): Game
    decreases |events|
  {
    if |events| == 0 then g else Run(Step(g, events[0], halfWidth), events[1..], halfWidth)
  }

  /** Position of a screen in the order TITLE, PLAYING, WIN. */
  function Rank(s: GameState): nat
  {
    match s
    case Title => 0
    case Playing => 1
    case Win => 2
  }

  lemma StepPreservesConsistent(g: Game, e: Event, halfWidth: real)
    requires Consistent(g)
    ensures Consistent(Step(g, e, halfWidth))
    ensures Step(g, e, halfWidth).treatsCollected <= TreatCount
  {
  }

  /** Along any run the counter equals the number of collected flags, so it
      never exceeds four. */
  lemma {:induction false} RunPreservesConsistent(g: Game, events: seq<Event>, halfWidth: real)
    requires Consistent(g)
    ensures Consistent(Run(g, events, halfWidth))
    ensures 0 <= Run(g, events, halfWidth).treatsCollected <= TreatCount
    decreases |events|
  {
    if |events| > 0 {
      StepPreservesConsistent(g, events[0], halfWidth);
      RunPreservesConsistent(Step(g, events[0], halfWidth), events[1..], halfWidth);
    }
  }

  /** Collected treats stay collected, treats never move, and the counter
      never decreases. */
  lemma {:induction false} RunMonotone(g: Game, events: seq<Event>, halfWidth: real)
    ensures var g' := Run(g, events, halfWidth);
      && |g'.treats| == |g.treats|
      && g'.treatsCollected >= g.treatsCollected
      && forall i :: 0 <= i < |g.treats| ==>
           && g'.treats[i].x == g.treats[i].x
           && g'.treats[i].y == g.treats[i].y
           && (g.treats[i].collected ==> g'.treats[i].collected)
    decreases |events|
  {
    if |events| > 0 {
      var g1 := Step(g, events[0], halfWidth);
      if events[0].Frame? {
        CollectedCountMonotone(g.treats, g1.treats);
      }
      RunMonotone(g1, events[1..], halfWidth);
    }
  }

  /** Setting more flags cannot lower the count. */
  lemma {:induction false} CollectedCountMonotone(a: seq<Treat>, b: seq<Treat>)
    requires |a| == |b|
    requires forall i :: 0 <= i < |a| ==> a[i].collected ==> b[i].collected
    ensures CountCollected(a) <= CountCollected(b)
    decreases |a|
  {
    if |a| > 0 {
      CollectedCountMonotone(a[1..], b[1..]);
    }
  }

  /** Screens only move forward; once won, the game stays won. */
  lemma {:induction false} RunNeverGoesBack(g: Game, events: seq<Event>, halfWidth: real)
    ensures Rank(Run(g, events, halfWidth).state) >= Rank(g.state)
    ensures g.state == Win ==> Run(g, events, halfWidth).state == Win
    decreases |events|
  {
    if |events| > 0 {
      RunNeverGoesBack(Step(g, events[0], halfWidth), events[1..], halfWidth);
    }
  }

  /** The title screen is left only through an Enter keydown. */
  lemma {:induction false} LeavingTitleNeedsEnter(g: Game, events: seq<Event>, halfWidth: real)
    requires g.state == Title
    requires Press("Enter") !in events
    ensures Run(g, events, halfWidth).state == Title
    ensures Run(g, events, halfWidth).playerX == g.playerX
    ensures Run(g, events, halfWidth).treats == g.treats
    decreases |events|
  {
    if |events| > 0 {
      assert events[0] != Press("Enter");
      var g1 := Step(g, events[0], halfWidth);
      assert g1.state == Title && g1.playerX == g.playerX && g1.treats == g.treats;
      assert Press("Enter") !in events[1..];
      LeavingTitleNeedsEnter(g1, events[1..], halfWidth);
    }
  }
}
