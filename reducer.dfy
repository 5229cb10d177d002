/** `reduceState` and `gameTick`: the fold of one event over a game snapshot
    (spaceinvaders.ts). A `Step` moves the player, a `Shoot` fires a player
    shot, a `Tick` advances the swarm and the shots and resolves collisions;
    around all three sits the round reset. */
module Reducer {
  import opened Options
  import opened Lists
  import opened Entities
  import opened Geometry
  import opened Swarm
  import opened Projectiles
  import opened Shields
  import opened Collisions

  /** At most two player shots may be on the screen. */
  const PShotCap: int := 2

  /** The move the swarm makes this tick: the current direction right after a
      drop, otherwise `alienDirection`. */
  function TickMove(s: State): (real, real)
  {
    if s.alienDownShift then (s.enemyLatDirection, 0.0) else AlienDirection(ResetAlienBoundaries(s))
  }

  /** Whether this tick produces an enemy shot: only once bottom aliens are
      recorded, and only when the roll says so. */
  function AlienShot(d: Dims, s: State, alienFires: bool): Option<Body>
  {
    if s.bottomAliens.Some? then CreateEShotBody(d, ResetAlienBoundaries(s), alienFires) else None
  }

  /** `actPShots`: the player shots that have not expired, each raised by 5. */
  function AdvancePShots(shots: seq<Body>): seq<Body>
  {
    var expPShots := Filter(shots, PShotExpired);
    Map(Filter(shots, (shot: Body) => shot !in expPShots), (shot: Body) => MoveShot(shot, 5.0))
  }

  /** `actEShots`: the enemy shots that have not expired, each lowered by 5. */
  function AdvanceEShots(d: Dims, shots: seq<Body>): seq<Body>
  {
    var expEShots := Filter(shots, (shot: Body) => EShotExpired(d, shot));
    Map(Filter(shots, (shot: Body) => shot !in expEShots), (shot: Body) => MoveShot(shot, -5.0))
  }

  /** The snapshot `gameTick` hands to `handleCollisions`: shots advanced and
      expired, boundaries and bottom aliens recorded, the swarm moved, and an
      enemy shot added when none was active. */
  function AdvanceTick(d: Dims, curState: State, alienFires: bool): State
    requires |curState.activeAliens| >= AlienRows
  {
    var expPShots := Filter(curState.activePShots, PShotExpired);
    var expEShots := Filter(curState.activeEShots, (shot: Body) => EShotExpired(d, shot));
    var actPShots := AdvancePShots(curState.activePShots);
    var actEShots := AdvanceEShots(d, curState.activeEShots);
    var updatedBoundaries := ResetAlienBoundaries(curState);
    var updatedBottomAliens := ResetBottomAliens(updatedBoundaries.activeAliens, [], 0);
    var mv := TickMove(curState);
    var updatedAliens := MoveAliens(d, updatedBoundaries.activeAliens, mv);
    var alienShot := AlienShot(d, curState, alienFires);
    var updatedState := if alienShot.Some? then IncrementId(updatedBoundaries) else updatedBoundaries;
    updatedState.(
      activePShots := actPShots,
      expiredPShots := expPShots,
      activeEShots := if |updatedBoundaries.activeEShots| < 1 && alienShot.Some? then actEShots + [alienShot.value] else actEShots,
      expiredEShots := expEShots,
      activeAliens := updatedAliens,
      bottomAliens := Some(updatedBottomAliens),
      enemyLatDirection := if mv.0 == 0.0 then updatedBoundaries.enemyLatDirection * -1.0 else updatedBoundaries.enemyLatDirection,
      alienDownShift := mv.0 == 0.0)
  }

  /** `gameTick` */
  function GameTick(d: Dims, curState: State, alienFires: bool): State
    requires |curState.activeAliens| >= AlienRows
  {
    HandleCollisions(d, AdvanceTick(d, curState, alienFires))
  }

  /** The snapshot after the event itself, before the round-reset wrapper. */
  function ApplyEvent(d: Dims, curState: State, e: Event): State
    requires e.Tick? ==> |curState.activeAliens| >= AlienRows
  {
    match e
    case Step(_, _) => curState.(statePlayer := MoveBody(d, Some(curState.statePlayer), e).value)
    case Shoot =>
      if |curState.activePShots| < PShotCap then
        curState.(activePShots := curState.activePShots + [CreatePShotBody(d, curState)],
                  idSequence := curState.idSequence + 1)
      else curState
    case Tick(alienFires) => GameTick(d, curState, alienFires)
  }

  /** Whether every cell of the grid is empty (`nextRound`). */
  predicate NextRound(g: Grid)
  {
    |NonNull(Flatten(g))| == 0
  }

  /** The round bookkeeping `reduceState` applies to the snapshot the event
      produced: a fresh grid when the previous grid was empty, and the reset
      flag dropped one event after it was raised. */
  function RoundWrap(d: Dims, curState: State, updatedState: State): State
  {
    if NextRound(curState.activeAliens) then updatedState.(activeAliens := CreateAliens(d), resetAliens := true)
    else if curState.resetAliens then updatedState.(resetAliens := false)
    else updatedState
  }

  /** `reduceState` */
  function ReduceState(d: Dims, curState: State, e: Event): State
    requires e.Tick? ==> |curState.activeAliens| >= AlienRows
  {
    RoundWrap(d, curState, ApplyEvent(d, curState, e))
  }

  // Invariant of the snapshots the game produces

  /** The swarm's direction is a unit step. */
  predicate UnitDirection(dir: real)
  {
    dir == 1.0 || dir == -1.0
  }

  predicate Valid(s: State)
  {
    && WellShaped(s.activeAliens)
    && |s.activePShots| <= PShotCap
    && |s.activeEShots| <= 1
    && UniqueIds(s.gameShields)
    && (forall sh :: sh in s.gameShields ==> DistinctHits(sh))
    && UnitDirection(s.enemyLatDirection)
    && s.gameScore >= 0
    && (s.bottomAliens.Some? ==> |s.bottomAliens.value| == AlienColumns)
  }

  /** `scan(reduceState, initState)` over a sequence of events. */
  function Run(d: Dims, s: State, events: seq<Event>): (r: State)
    requires Valid(s)
    ensures Valid(r)
    decreases |events|
  {
    if events == [] then s
    else
      ReducePreservesValid(d, s, events[0]);
      Run(d, ReduceState(d, s, events[0]), events[1..])
  }

  // Lemmas

  lemma NextRoundIff(g: Grid)
    ensures NextRound(g) <==> forall row, col :: 0 <= row < |g| && 0 <= col < |g[row]| ==> g[row][col].None?
  {
    var flat := Flatten(g);
    if NextRound(g) {
      forall row, col | 0 <= row < |g| && 0 <= col < |g[row]| ensures g[row][col].None? {
        assert g[row][col] in g[row];
        assert g[row][col] in flat;
        var i :| 0 <= i < |flat| && flat[i] == g[row][col];
      }
    } else {
      var i :| 0 <= i < |flat| && flat[i].Some?;
      assert flat[i] in flat;
      var row :| 0 <= row < |g| && flat[i] in g[row];
      var col :| 0 <= col < |g[row]| && g[row][col] == flat[i];
    }
  }

  lemma InitStateValid(d: Dims)
    ensures Valid(InitState(d))
  {
    var shields := InitState(d).gameShields;
    assert forall i :: 0 <= i < |shields| ==> Id(shields[i]) == i + 1;
  }

  /** Shapes and bounds the tick keeps before collisions are resolved. */
  lemma AdvanceTickShape(d: Dims, s: State, alienFires: bool)
    requires Valid(s)
    ensures var t := AdvanceTick(d, s, alienFires);
            && WellShaped(t.activeAliens)
            && |t.activePShots| <= |s.activePShots|
            && |t.activeEShots| <= 1
            && t.gameShields == s.gameShields
            && UnitDirection(t.enemyLatDirection)
            && t.gameScore == s.gameScore
            && t.bottomAliens.Some? && |t.bottomAliens.value| == AlienColumns
  {
    var u := ResetAlienBoundaries(s);
    var mv := TickMove(s);
    assert UnitDirection(mv.0) || mv.0 == 0.0;
    assert u.activeAliens == s.activeAliens && u.activeEShots == s.activeEShots;
    assert WellShaped(MoveAliens(d, u.activeAliens, mv));
  }

  /** Resolving collisions keeps the invariant. */
  lemma HandleCollisionsValid(d: Dims, t: State)
    requires Valid(t)
    ensures Valid(HandleCollisions(d, t))
  {
    var r := HandleCollisions(d, t);
    HandleCollisionsScore(d, t);
    NextShieldsHitsDistinct(t);
    ValidUpdate(t, r.activeAliens, RemainingPShots(t), RemainingEShots(t), NextShields(t), r.gameScore, r.playerLives, r.gameOver);
  }

  /** Replacing the fields collisions touch by values that respect the
      invariant keeps it. */
  lemma ValidUpdate(t: State, aliens: Grid, pShots: seq<Body>, eShots: seq<Body>, shields: seq<Shield>,
                    score: int, lives: int, over: bool)
    requires Valid(t)
    requires |aliens| == |t.activeAliens| && forall row :: 0 <= row < |aliens| ==> |aliens[row]| == |t.activeAliens[row]|
    requires |pShots| <= |t.activePShots| && |eShots| <= |t.activeEShots|
    requires UniqueIds(shields) && forall sh :: sh in shields ==> DistinctHits(sh)
    requires score >= t.gameScore
    ensures Valid(t.(activeAliens := aliens, activePShots := pShots, activeEShots := eShots, gameShields := shields,
                     gameScore := score, playerLives := lives, gameOver := over))
  {
  }

  lemma GameTickValid(d: Dims, s: State, alienFires: bool)
    requires Valid(s)
    ensures Valid(GameTick(d, s, alienFires))
  {
    AdvanceTickShape(d, s, alienFires);
    HandleCollisionsValid(d, AdvanceTick(d, s, alienFires));
  }

  lemma ApplyEventValid(d: Dims, s: State, e: Event)
    requires Valid(s)
    ensures Valid(ApplyEvent(d, s, e))
  {
    match e
    case Step(_, _) =>
    case Shoot =>
    case Tick(alienFires) => GameTickValid(d, s, alienFires);
  }

  lemma ReducePreservesValid(d: Dims, s: State, e: Event)
    requires Valid(s)
    ensures Valid(ReduceState(d, s, e))
  {
    ApplyEventValid(d, s, e);
    RoundWrapValid(d, s, ApplyEvent(d, s, e));
  }

  lemma RoundWrapValid(d: Dims, s: State, u: State)
    requires Valid(u)
    ensures Valid(RoundWrap(d, s, u))
  {
    assert Valid(u.(activeAliens := CreateAliens(d), resetAliens := true));
  }

  /** Every snapshot reached from the initial one satisfies the invariant. */
  lemma {:induction false} RunFromInitValid(d: Dims, events: seq<Event>)
    ensures Valid(Run(d, InitState(d), events))
  {
    InitStateValid(d);
  }

  // Player

  /** A `Step` moves only the player: down by the vertical component and
      sideways with wrap-around, which keeps the player inside the band one
      player width either side of the canvas. */
  lemma StepMovesPlayer(d: Dims, s: State, h: real, v: real)
    requires d.playerWidth > 0.0 && d.canvasWidth >= 0.0
    requires InBand(d, s.statePlayer.xPos)
    requires -(d.canvasWidth + d.playerWidth) <= h <= d.canvasWidth + d.playerWidth
    ensures var r := ApplyEvent(d, s, Step(h, v));
            && r.statePlayer.xPos == LatChange(d, s.statePlayer, h)
            && InBand(d, r.statePlayer.xPos)
            && r.statePlayer.yPos == s.statePlayer.yPos + v
            && r.statePlayer.(xPos := s.statePlayer.xPos, yPos := s.statePlayer.yPos) == s.statePlayer
            && r.(statePlayer := s.statePlayer) == s
  {
    LatChangeStaysInBand(d, s.statePlayer, h);
  }

  // Player shots

  /** Below the cap a `Shoot` appends exactly one 2 x 15 shot centred above
      the player and taking the next id; at the cap it changes nothing. */
  lemma ShootEffect(d: Dims, s: State)
    ensures var r := ApplyEvent(d, s, Shoot);
            && (|s.activePShots| < PShotCap ==>
                  && |r.activePShots| == |s.activePShots| + 1
                  && r.activePShots[..|s.activePShots|] == s.activePShots
                  && (var shot := r.activePShots[|s.activePShots|];
                      && shot.bodyId == s.idSequence
                      && shot.bodyWidth == PShotWidth && shot.bodyHeight == PShotHeight
                      && shot.xPos + shot.bodyWidth / 2.0 == s.statePlayer.xPos + d.playerWidth / 2.0
                      && s.statePlayer.yPos - shot.yPos == 5.0)
                  && r.idSequence == s.idSequence + 1
                  && r.(activePShots := s.activePShots, idSequence := s.idSequence) == s)
            && (|s.activePShots| >= PShotCap ==> r == s)
  {
    if |s.activePShots| < PShotCap {
      var r := ApplyEvent(d, s, Shoot);
      assert r.activePShots[..|s.activePShots|] == s.activePShots;
    }
  }

  /** A tick never adds a player shot: the active ones are unexpired shots of
      the previous snapshot raised by 5, and the expired ones are exactly
      those that had left the top of the screen. */
  lemma TickPlayerShots(d: Dims, s: State, alienFires: bool)
    requires |s.activeAliens| >= AlienRows
    ensures var r := GameTick(d, s, alienFires);
            && |r.activePShots| <= |s.activePShots|
            && (forall shot :: shot in r.activePShots ==>
                  exists o :: o in s.activePShots && !PShotExpired(o) && shot == MoveShot(o, 5.0))
            && (forall shot :: shot in r.expiredPShots <==> shot in s.activePShots && PShotExpired(shot))
  {
    var t := AdvanceTick(d, s, alienFires);
    AdvancePShotsMembership(s.activePShots);
    RemainingPShotsSubset(t);
    assert t.activePShots == AdvancePShots(s.activePShots);
  }

  /** A player shot survives the advance exactly when it has not expired,
      and then it is raised by 5. */
  lemma AdvancePShotsMembership(shots: seq<Body>)
    ensures |AdvancePShots(shots)| <= |shots|
    ensures forall shot :: shot in AdvancePShots(shots) <==>
              exists o :: o in shots && !PShotExpired(o) && shot == MoveShot(o, 5.0)
  {
    var expPShots := Filter(shots, PShotExpired);
    var kept := Filter(shots, (shot: Body) => shot !in expPShots);
    var r := AdvancePShots(shots);
    forall shot | shot in r ensures exists o :: o in shots && !PShotExpired(o) && shot == MoveShot(o, 5.0) {
      var i :| 0 <= i < |r| && r[i] == shot;
      assert kept[i] in kept;
    }
    forall o | o in shots && !PShotExpired(o) ensures MoveShot(o, 5.0) in r {
      assert o in kept;
      var i :| 0 <= i < |kept| && kept[i] == o;
      assert r[i] == MoveShot(o, 5.0);
    }
  }

  /** An enemy shot survives the advance exactly when it has not expired,
      and then it is lowered by 5. */
  lemma AdvanceEShotsMembership(d: Dims, shots: seq<Body>)
    ensures |AdvanceEShots(d, shots)| <= |shots|
    ensures forall shot :: shot in AdvanceEShots(d, shots) <==>
              exists o :: o in shots && !EShotExpired(d, o) && shot == MoveShot(o, -5.0)
  {
    var expEShots := Filter(shots, (shot: Body) => EShotExpired(d, shot));
    var kept := Filter(shots, (shot: Body) => shot !in expEShots);
    var r := AdvanceEShots(d, shots);
    forall shot | shot in r ensures exists o :: o in shots && !EShotExpired(d, o) && shot == MoveShot(o, -5.0) {
      var i :| 0 <= i < |r| && r[i] == shot;
      assert kept[i] in kept;
    }
    forall o | o in shots && !EShotExpired(d, o) ensures MoveShot(o, -5.0) in r {
      assert o in kept;
      var i :| 0 <= i < |kept| && kept[i] == o;
      assert r[i] == MoveShot(o, -5.0);
    }
  }

  /** The enemy shots `gameTick` hands on: the advanced ones, plus the
      generated shot when none was active. */
  lemma AdvanceTickEShots(d: Dims, s: State, alienFires: bool)
    requires |s.activeAliens| >= AlienRows
    ensures var t, shot := AdvanceTick(d, s, alienFires), AlienShot(d, s, alienFires);
            t.activeEShots == if |s.activeEShots| < 1 && shot.Some? then AdvanceEShots(d, s.activeEShots) + [shot.value]
                              else AdvanceEShots(d, s.activeEShots)
  {
    assert ResetAlienBoundaries(s).activeEShots == s.activeEShots;
  }

  // Enemy shots

  /** Whether a tick on `s` generates an enemy shot. */
  ghost predicate EShotGenerated(s: State, alienFires: bool)
  {
    s.bottomAliens.Some? && alienFires && exists a :: Some(a) in s.bottomAliens.value
  }

  /** The enemy-shot policy: with a shot already active the active shots
      are that snapshot's unexpired shots lowered by 5; otherwise at most the
      new shot is active, and none when no shot was generated. */
  lemma TickEnemyShots(d: Dims, s: State, alienFires: bool)
    requires |s.activeAliens| >= AlienRows
    ensures var r := GameTick(d, s, alienFires);
            && (|s.activeEShots| >= 1 ==>
                  forall shot :: shot in r.activeEShots ==>
                    exists o :: o in s.activeEShots && !EShotExpired(d, o) && shot == MoveShot(o, -5.0))
            && (|s.activeEShots| == 0 ==> |r.activeEShots| <= 1)
            && (|s.activeEShots| == 0 && !EShotGenerated(s, alienFires) ==> r.activeEShots == [])
  {
    var t := AdvanceTick(d, s, alienFires);
    AdvanceTickEShots(d, s, alienFires);
    AdvanceEShotsMembership(d, s.activeEShots);
    RemainingEShotsSubset(t);
    AlienShotAim(d, s, alienFires);
  }

  /** Expired enemy shots are exactly those that were below the canvas, and
      the id sequence moves on whenever a shot was generated, kept or not. */
  lemma TickEnemyShotsExpiredAndIds(d: Dims, s: State, alienFires: bool)
    requires |s.activeAliens| >= AlienRows
    ensures var r := GameTick(d, s, alienFires);
            && (forall shot :: shot in r.expiredEShots <==> shot in s.activeEShots && EShotExpired(d, shot))
            && r.idSequence == s.idSequence + (if EShotGenerated(s, alienFires) then 1 else 0)
  {
    AdvanceTickIds(d, s, alienFires);
    HandleCollisionsKeepsIds(d, AdvanceTick(d, s, alienFires));
    AlienShotAim(d, s, alienFires);
  }

  /** Before collisions, the expired enemy shots are recorded and the id
      sequence moves on when the swarm fires. */
  lemma AdvanceTickIds(d: Dims, s: State, alienFires: bool)
    requires |s.activeAliens| >= AlienRows
    ensures var t := AdvanceTick(d, s, alienFires);
            && t.expiredEShots == Filter(s.activeEShots, (shot: Body) => EShotExpired(d, shot))
            && t.idSequence == s.idSequence + (if AlienShot(d, s, alienFires).Some? then 1 else 0)
  {
    assert ResetAlienBoundaries(s).idSequence == s.idSequence;
  }

  /** A generated enemy shot that is added sits centred under a bottom alien
      recorded by the previous tick, one closest to the player, and takes the
      id the sequence held before the tick. */
  lemma TickEnemyShotAim(d: Dims, s: State, alienFires: bool)
    requires |s.activeAliens| >= AlienRows
    requires |s.activeEShots| == 0 && EShotGenerated(s, alienFires)
    ensures var t := AdvanceTick(d, s, alienFires);
            && |t.activeEShots| == 1
            && t.activeEShots[0].bodyId == s.idSequence
            && t.activeEShots[0].bodyWidth == EShotWidth && t.activeEShots[0].bodyHeight == EShotHeight
            && AimedAtClosest(t.activeEShots[0], s.bottomAliens.value, s.statePlayer.xPos)
  {
    AlienShotAim(d, s, alienFires);
    NewEShotAdded(d, s, alienFires);
  }

  /** A tick produces an enemy shot exactly when bottom aliens are recorded,
      one of them exists and the roll says fire; the shot is aimed from the
      previous tick's bottom aliens and takes the current id. */
  lemma AlienShotAim(d: Dims, s: State, alienFires: bool)
    ensures AlienShot(d, s, alienFires).Some? <==> EShotGenerated(s, alienFires)
    ensures var shot := AlienShot(d, s, alienFires);
            shot.Some? ==>
            && shot.value.bodyId == s.idSequence
            && shot.value.bodyWidth == EShotWidth && shot.value.bodyHeight == EShotHeight
            && AimedAtClosest(shot.value, s.bottomAliens.value, s.statePlayer.xPos)
  {
    var u := ResetAlienBoundaries(s);
    assert u.bottomAliens == s.bottomAliens && u.statePlayer == s.statePlayer && u.idSequence == s.idSequence;
  }

  /** With no enemy shot active, the generated shot is the only one after
      the tick. */
  lemma NewEShotAdded(d: Dims, s: State, alienFires: bool)
    requires |s.activeAliens| >= AlienRows
    requires |s.activeEShots| == 0 && AlienShot(d, s, alienFires).Some?
    ensures AdvanceTick(d, s, alienFires).activeEShots == [AlienShot(d, s, alienFires).value]
  {
    AdvanceTickEShots(d, s, alienFires);
    AdvanceEShotsMembership(d, s.activeEShots);
  }

  // Swarm

  /** Some alien of the grid has reached a side of the swarm's track. */
  ghost predicate SwarmAtEdge(g: Grid)
  {
    exists a :: Some(a) in Flatten(g) && (a.xPos <= CanvasLeftBound || a.xPos >= CanvasRightBound)
  }

  /** The swarm drops by 2.5 exactly when it did not drop last tick and some
      alien has reached a side; otherwise it steps sideways in the current
      direction. */
  lemma TickMoveChoice(s: State)
    ensures TickMove(s) == if !s.alienDownShift && SwarmAtEdge(s.activeAliens) then (0.0, 2.5) else (s.enemyLatDirection, 0.0)
  {
    var u := ResetAlienBoundaries(s);
    if !s.alienDownShift && SwarmAtEdge(s.activeAliens) {
      var a :| Some(a) in Flatten(s.activeAliens) && (a.xPos <= CanvasLeftBound || a.xPos >= CanvasRightBound);
      assert u.leftMostAlien.Some?;
    }
  }

  /** The drop-and-reverse handshake: a drop negates the direction and raises
      `alienDownShift`; a tick right after a drop is a sideways step in the
      new direction, so the swarm never drops twice in a row. */
  lemma SwarmHandshake(d: Dims, s: State, alienFires: bool)
    requires |s.activeAliens| >= AlienRows && UnitDirection(s.enemyLatDirection)
    ensures var r := GameTick(d, s, alienFires);
            && (r.alienDownShift <==> !s.alienDownShift && SwarmAtEdge(s.activeAliens))
            && (r.alienDownShift ==> r.enemyLatDirection == -s.enemyLatDirection)
            && (!r.alienDownShift ==> r.enemyLatDirection == s.enemyLatDirection)
            && (s.alienDownShift ==> TickMove(s) == (s.enemyLatDirection, 0.0))
  {
    TickMoveChoice(s);
  }

  /** The swarm moves as one: every alien of the snapshot lands in its cell
      moved by the tick's move, then only aliens hit by a player shot
      disappear. */
  lemma TickMovesSwarm(d: Dims, s: State, alienFires: bool, row: int, col: int)
    requires |s.activeAliens| >= AlienRows
    requires 0 <= row < |s.activeAliens| && 0 <= col < |s.activeAliens[row]|
    ensures var t, r := AdvanceTick(d, s, alienFires), GameTick(d, s, alienFires);
            && |r.activeAliens| == |s.activeAliens| && |r.activeAliens[row]| == |s.activeAliens[row]|
            && t.activeAliens[row][col] == MoveBody(d, s.activeAliens[row][col], Step(TickMove(s).0, TickMove(s).1))
            && r.activeAliens[row][col] ==
                 (var cell := t.activeAliens[row][col];
                  if cell.Some? && HitByPShot(cell.value, t.activePShots) then None else cell)
  {
    AliveAliensCells(AdvanceTick(d, s, alienFires));
  }

  /** Bottom aliens are recorded from the grid as it was before the move:
      nine entries, entry c the bottom alien of column c. */
  lemma TickBottomAliens(d: Dims, s: State, alienFires: bool)
    requires |s.activeAliens| >= AlienRows
    ensures var r := GameTick(d, s, alienFires);
            && r.bottomAliens.Some? && |r.bottomAliens.value| == AlienColumns
            && forall c :: 0 <= c < AlienColumns ==> IsBottomAlien(s.activeAliens, c, r.bottomAliens.value[c])
  {
    BottomAliensOfGrid(s.activeAliens);
  }

  // Round reset and monotone counters

  /** A round resets exactly when the grid was empty before the event: the
      grid is then a fresh full grid and the flag is raised; every other field
      is that of the processed event. After a reset the flag drops on the
      next event unless the grid is empty again. */
  lemma RoundReset(d: Dims, s: State, e: Event)
    requires e.Tick? ==> |s.activeAliens| >= AlienRows
    ensures var r, u := ReduceState(d, s, e), ApplyEvent(d, s, e);
            && (r.resetAliens <==> forall row, col :: 0 <= row < |s.activeAliens| && 0 <= col < |s.activeAliens[row]| ==>
                                                      s.activeAliens[row][col].None?)
            && (r.resetAliens ==> r.activeAliens == CreateAliens(d) && GetAlienCount(r.activeAliens) == AlienRows * AlienColumns)
            && (!r.resetAliens ==> r.activeAliens == u.activeAliens)
            && r.(activeAliens := u.activeAliens, resetAliens := u.resetAliens) == u
  {
    ApplyEventKeepsFlag(d, s, e);
    RoundWrapReset(d, s, ApplyEvent(d, s, e));
  }

  lemma RoundWrapReset(d: Dims, s: State, u: State)
    requires u.resetAliens == s.resetAliens
    ensures var r := RoundWrap(d, s, u);
            && (r.resetAliens <==> forall row, col :: 0 <= row < |s.activeAliens| && 0 <= col < |s.activeAliens[row]| ==>
                                                      s.activeAliens[row][col].None?)
            && (r.resetAliens ==> r.activeAliens == CreateAliens(d) && GetAlienCount(r.activeAliens) == AlienRows * AlienColumns)
            && (!r.resetAliens ==> r.activeAliens == u.activeAliens)
            && r.(activeAliens := u.activeAliens, resetAliens := u.resetAliens) == u
  {
    NextRoundIff(s.activeAliens);
    CreateAliensCount(d);
  }

  /** The events themselves never touch the reset flag. */
  lemma ApplyEventKeepsFlag(d: Dims, s: State, e: Event)
    requires e.Tick? ==> |s.activeAliens| >= AlienRows
    ensures ApplyEvent(d, s, e).resetAliens == s.resetAliens
  {
    match e
    case Step(_, _) =>
    case Shoot =>
    case Tick(alienFires) =>
      var t := AdvanceTick(d, s, alienFires);
      assert t.resetAliens == s.resetAliens;
  }

  /** The score and the id sequence never fall, and lives never rise. */
  lemma Monotone(d: Dims, s: State, e: Event)
    requires e.Tick? ==> |s.activeAliens| >= AlienRows
    ensures var r := ReduceState(d, s, e);
            && r.gameScore >= s.gameScore
            && r.idSequence >= s.idSequence
            && r.playerLives <= s.playerLives
  {
    ApplyEventCounters(d, s, e);
    RoundWrapFrame(d, s, ApplyEvent(d, s, e));
  }

  /** The round bookkeeping touches only the grid and the reset flag. */
  lemma RoundWrapFrame(d: Dims, s: State, u: State)
    ensures var r := RoundWrap(d, s, u);
            r.(activeAliens := u.activeAliens, resetAliens := u.resetAliens) == u
  {
  }

  lemma ApplyEventCounters(d: Dims, s: State, e: Event)
    requires e.Tick? ==> |s.activeAliens| >= AlienRows
    ensures var u := ApplyEvent(d, s, e);
            && u.gameScore >= s.gameScore
            && u.idSequence >= s.idSequence
            && u.playerLives <= s.playerLives
  {
    match e
    case Step(_, _) =>
    case Shoot =>
    case Tick(alienFires) => GameTickCounters(d, s, alienFires);
  }

  /** A tick never lowers the score or the id sequence and never adds a life. */
  lemma GameTickCounters(d: Dims, s: State, alienFires: bool)
    requires |s.activeAliens| >= AlienRows
    ensures var r := GameTick(d, s, alienFires);
            && r.gameScore >= s.gameScore
            && r.idSequence >= s.idSequence
            && r.playerLives <= s.playerLives
  {
    var t := AdvanceTick(d, s, alienFires);
    assert t.gameScore == s.gameScore && t.playerLives == s.playerLives;
    HandleCollisionsScore(d, t);
    HandleCollisionsLives(d, t);
    TickEnemyShotsExpiredAndIds(d, s, alienFires);
  }
}
