/** `handleCollisions`: one pass of pairwise tests over the snapshot after the
    tick's movement, producing the surviving aliens, shots and shields, the
    score, the lives and the game-over flag (spaceinvaders.ts). */
module Collisions {
  import opened Options
  import opened Lists
  import opened Entities
  import opened Geometry
  import opened Shields

  /** `notNullAliens`: the living aliens of each row. */
  function NotNullAliens(g: Grid): (r: seq<seq<Body>>)
    ensures |r| == |g| && forall row :: 0 <= row < |g| ==> r[row] == NonNull(g[row])
  {
    Map(g, NonNull)
  }

  /** `notNullAliens.flat()` */
  function LivingAliens(g: Grid): (r: seq<Body>)
    ensures forall a :: a in r <==> exists row :: 0 <= row < |g| && Some(a) in g[row]
  {
    var rows := NotNullAliens(g);
    assert forall a, row :: 0 <= row < |g| ==> (a in rows[row] <==> Some(a) in g[row]);
    Flatten(rows)
  }

  /** `shieldSubmerge`: the corner of `inner` lies strictly inside `outer`. */
  predicate ShieldSubmerge(inner: Body, outer: Body)
  {
    CollisionFormula(Corner(inner), Corner(outer), outer.bodyHeight, outer.bodyWidth)
  }

  /** `collidedAliensAndShots`: the (alien, player shot) pairs that overlap. */
  function CollidedAliensAndShots(s: State): seq<(Body, Body)>
  {
    Filter(Product(s.activePShots, LivingAliens(s.activeAliens)), (p: (Body, Body)) => CollisionCheck(p.0, p.1))
  }

  function CollidedAliens(s: State): seq<Body>
  {
    Firsts(CollidedAliensAndShots(s))
  }

  function CollidedPShots(s: State): seq<Body>
  {
    Seconds(CollidedAliensAndShots(s))
  }

  /** `collidedEShotsOnPlayer`: the enemy shots that overlap the player. */
  function CollidedEShotsOnPlayer(s: State): seq<Body>
  {
    Filter(s.activeEShots, (shot: Body) => CollisionCheck(s.statePlayer, shot))
  }

  /** `collidedPShotsOnShields`: player shots that overlap a shield. */
  function CollidedPShotsOnShields(s: State): seq<Body>
  {
    Firsts(Filter(Product(s.gameShields, s.activePShots), (p: (Body, Shield)) => CollisionCheck(p.0, p.1.shieldBody)))
  }

  /** `allAliensAndShields` after its `flat()`: row by row, shield by shield,
      every living alien paired with every shield. */
  function AliensAndShields(s: State): seq<(Body, Shield)>
  {
    Flatten(Map(NotNullAliens(s.activeAliens), (row: seq<Body>) => Product(s.gameShields, row)))
  }

  /** The shields of `fCollidedAliensAndShields`: those with an alien's
      corner strictly inside them. */
  function FullyCoveredShields(s: State): seq<Shield>
  {
    Seconds(Filter(AliensAndShields(s), (p: (Body, Shield)) => ShieldSubmerge(p.0, p.1.shieldBody)))
  }

  /** `collidedEShotsAndShields`: the (enemy shot, shield) pairs that overlap
      and whose shot position the shield has not absorbed before. */
  function CollidedEShotsAndShields(s: State): seq<(Body, Shield)>
  {
    Filter(Filter(Product(s.gameShields, s.activeEShots), (p: (Body, Shield)) => CollisionCheck(p.0, p.1.shieldBody)),
           (p: (Body, Shield)) => !CheckPrevShieldHit(p.0, p.1))
  }

  function CollidedEShotsOnShields(s: State): seq<Body>
  {
    Firsts(CollidedEShotsAndShields(s))
  }

  /** `checkMembership`: a cell whose alien was hit becomes empty; what this
      means for the grid is stated by `AliveAliensCells`. */
  function CheckMembership(inpAlien: Option<Body>, collidedAliens: seq<Body>): Option<Body>
  {
    if inpAlien.Some? then if inpAlien.value in collidedAliens then None else inpAlien else None
  }

  function AliveAliens(s: State): Grid
  {
    var collided := CollidedAliens(s);
    Map(s.activeAliens, (row: seq<Option<Body>>) => Map(row, (cell: Option<Body>) => CheckMembership(cell, collided)))
  }

  function RemainingPShots(s: State): seq<Body>
  {
    var onAliens, onShields := CollidedPShots(s), CollidedPShotsOnShields(s);
    Filter(s.activePShots, (shot: Body) => shot !in onAliens && shot !in onShields)
  }

  function RemainingEShots(s: State): seq<Body>
  {
    var onPlayer, onShields := CollidedEShotsOnPlayer(s), CollidedEShotsOnShields(s);
    Filter(s.activeEShots, (shot: Body) => shot !in onPlayer && shot !in onShields)
  }

  /** `markedShields`: each absorbing shield with the absorbed shot recorded,
      in reverse pair order. */
  function MarkedShields(s: State): seq<Shield>
  {
    Reverse(Map(CollidedEShotsAndShields(s), Mark))
  }

  function Mark(p: (Body, Shield)): Shield
  {
    AddShotCoord(p.1, p.0)
  }

  /** `availShields`: the shields no alien covers. */
  function AvailShields(s: State): seq<Shield>
  {
    var covered := FullyCoveredShields(s);
    Filter(s.gameShields, (sh: Shield) => sh !in covered)
  }

  /** `filteredShields` as written: drops from the marked shields those that
      are equal to a covered shield. A marked shield carries one more hit than
      the shield it was made from, so none is ever dropped. */
  function FilteredShieldsAsWritten(s: State): seq<Shield>
  {
    var covered := FullyCoveredShields(s);
    Filter(FilterShieldList(MarkedShields(s)), (sh: Shield) => sh !in covered)
  }

  /** `filteredShields` as intended: drops the marked shields whose body id
      belongs to a covered shield. */
  function FilteredShields(s: State): seq<Shield>
  {
    var coveredIds := Map(FullyCoveredShields(s), Id);
    Filter(FilterShieldList(MarkedShields(s)), (sh: Shield) => Id(sh) !in coveredIds)
  }

  /** The shield list of the next snapshot, as written. */
  function NextShieldsAsWritten(s: State): seq<Shield>
  {
    FilterShieldList(Reverse(AvailShields(s) + FilteredShieldsAsWritten(s)))
  }

  /** The shield list of the next snapshot, with covered shields dropped. */
  function NextShields(s: State): seq<Shield>
  {
    FilterShieldList(Reverse(AvailShields(s) + FilteredShields(s)))
  }

  /** Some alien of the row is below the canvas. */
  function RowBelowScreen(d: Dims, row: seq<Body>): (r: bool)
    ensures r <==> exists a :: a in row && a.yPos > d.canvasHeight
  {
    if row == [] then false
    else
      assert row == [row[0]] + row[1..];
      row[0].yPos > d.canvasHeight || RowBelowScreen(d, row[1..])
  }

  /** `exceededScreen`: some living alien is below the canvas. */
  function ExceededScreen(d: Dims, rows: seq<seq<Body>>): (r: bool)
    ensures r <==> exists i, a :: 0 <= i < |rows| && a in rows[i] && a.yPos > d.canvasHeight
  {
    if rows == [] then false
    else
      var rest := ExceededScreen(d, rows[1..]);
      assert forall i :: 1 <= i < |rows| ==> rows[i] == rows[1..][i - 1];
      RowBelowScreen(d, rows[0]) || rest
  }

  function HandleCollisions(d: Dims, curState: State): State
  {
    var alive := AliveAliens(curState);
    var livesLeft := curState.playerLives - |CollidedEShotsOnPlayer(curState)|;
    curState.(
      activeAliens := alive,
      activePShots := RemainingPShots(curState),
      activeEShots := RemainingEShots(curState),
      gameShields := NextShields(curState),
      gameScore := curState.gameScore + (GetAlienCount(curState.activeAliens) - GetAlienCount(alive)) * 10,
      playerLives := livesLeft,
      gameOver := ExceededScreen(d, NotNullAliens(curState.activeAliens)) || livesLeft == 0)
  }

  // Properties of the collision pass

  /** The alien overlaps one of the player's shots. */
  predicate HitByPShot(a: Body, pShots: seq<Body>)
  {
    exists shot :: shot in pShots && CollisionCheck(a, shot)
  }

  lemma CollidedAliensMembership(s: State, a: Body)
    ensures a in CollidedAliens(s) <==>
              (exists row :: 0 <= row < |s.activeAliens| && Some(a) in s.activeAliens[row]) && HitByPShot(a, s.activePShots)
  {
    var living := LivingAliens(s.activeAliens);
    var product := Product(s.activePShots, living);
    var hits := Filter(product, (p: (Body, Body)) => CollisionCheck(p.0, p.1));
    assert CollidedAliensAndShots(s) == hits;
    if a in CollidedAliens(s) {
      var shot :| (a, shot) in hits;
      assert (a, shot) in product && CollisionCheck(a, shot);
      assert a in living && shot in s.activePShots;
    }
    if a in living && HitByPShot(a, s.activePShots) {
      var shot :| shot in s.activePShots && CollisionCheck(a, shot);
      assert (a, shot) in product;
      assert (a, shot) in hits;
    }
  }

  /** The grid keeps its shape and a cell becomes empty exactly when it held
      an alien that overlaps a player shot. */
  lemma AliveAliensCells(s: State)
    ensures var alive := AliveAliens(s);
            |alive| == |s.activeAliens| &&
            forall row :: 0 <= row < |alive| ==>
              |alive[row]| == |s.activeAliens[row]| &&
              forall col :: 0 <= col < |alive[row]| ==>
                alive[row][col] == (var cell := s.activeAliens[row][col];
                                    if cell.Some? && HitByPShot(cell.value, s.activePShots) then None else cell)
  {
    var alive := AliveAliens(s);
    forall row, col | 0 <= row < |alive| && 0 <= col < |alive[row]|
      ensures alive[row][col] == (var cell := s.activeAliens[row][col];
                                  if cell.Some? && HitByPShot(cell.value, s.activePShots) then None else cell)
    {
      var cell := s.activeAliens[row][col];
      if cell.Some? {
        assert Some(cell.value) in s.activeAliens[row];
        CollidedAliensMembership(s, cell.value);
      }
    }
  }

  /** The number of cells of a row that held an alien before and are empty after. */
  function KilledInRow(before: seq<Option<Body>>, after: seq<Option<Body>>): (n: nat)
    requires |before| == |after|
  {
    if before == [] then 0
    else (if before[0].Some? && after[0].None? then 1 else 0) + KilledInRow(before[1..], after[1..])
  }

  /** The number of aliens destroyed between two grids of the same shape. */
  function CountKilled(before: Grid, after: Grid): (n: nat)
    requires |before| == |after| && forall row :: 0 <= row < |before| ==> |before[row]| == |after[row]|
  {
    if before == [] then 0
    else KilledInRow(before[0], after[0]) + CountKilled(before[1..], after[1..])
  }

  /** `after` is `before` with some cells emptied. */
  ghost predicate OnlyEmptied(before: seq<Option<Body>>, after: seq<Option<Body>>)
  {
    |before| == |after| && forall i :: 0 <= i < |before| ==> after[i] == before[i] || after[i].None?
  }

  lemma {:induction false} RowCountAfterRemoval(before: seq<Option<Body>>, after: seq<Option<Body>>)
    requires OnlyEmptied(before, after)
    ensures |NonNull(before)| == |NonNull(after)| + KilledInRow(before, after)
  {
    if before != [] {
      RowCountAfterRemoval(before[1..], after[1..]);
    }
  }

  /** Emptying cells lowers the alien count by the number of cells emptied. */
  lemma {:induction false} CountAfterRemoval(before: Grid, after: Grid)
    requires |before| == |after|
    requires forall row :: 0 <= row < |before| ==> |before[row]| == |after[row]| && OnlyEmptied(before[row], after[row])
    ensures GetAlienCount(before) == GetAlienCount(after) + CountKilled(before, after)
  {
    if before != [] {
      RowCountAfterRemoval(before[0], after[0]);
      CountAfterRemoval(before[1..], after[1..]);
    }
  }

  /** The collision pass leaves the id sequence and the expired shots alone. */
  lemma HandleCollisionsKeepsIds(d: Dims, s: State)
    ensures var r := HandleCollisions(d, s);
            r.idSequence == s.idSequence && r.expiredEShots == s.expiredEShots && r.expiredPShots == s.expiredPShots
  {
  }

  /** Only hit aliens disappear, and the score rises by exactly 10 for each
      alien destroyed, so it never falls. */
  lemma HandleCollisionsScore(d: Dims, s: State)
    ensures var r := HandleCollisions(d, s);
            && |r.activeAliens| == |s.activeAliens|
            && (forall row :: 0 <= row < |s.activeAliens| ==> |r.activeAliens[row]| == |s.activeAliens[row]|)
            && r.gameScore == s.gameScore + 10 * CountKilled(s.activeAliens, r.activeAliens)
            && r.gameScore >= s.gameScore
  {
    AliveAliensCells(s);
    CountAfterRemoval(s.activeAliens, AliveAliens(s));
  }

  /** The shot overlaps a living alien of the grid. */
  predicate HitsAlien(shot: Body, g: Grid)
  {
    exists a :: a in LivingAliens(g) && CollisionCheck(a, shot)
  }

  /** The shot overlaps one of the shields. */
  predicate HitsShield(shot: Body, shields: seq<Shield>)
  {
    exists sh :: sh in shields && CollisionCheck(shot, sh.shieldBody)
  }

  /** The shield absorbs the enemy shot: they overlap and the shield has not
      absorbed a shot at this exact position before. */
  predicate Absorbs(sh: Shield, shot: Body)
  {
    CollisionCheck(shot, sh.shieldBody) && !CheckPrevShieldHit(shot, sh)
  }

  /** Collisions only remove player shots. */
  lemma RemainingPShotsSubset(s: State)
    ensures |RemainingPShots(s)| <= |s.activePShots|
    ensures forall shot :: shot in RemainingPShots(s) ==> shot in s.activePShots
  {
  }

  /** Collisions only remove enemy shots. */
  lemma RemainingEShotsSubset(s: State)
    ensures |RemainingEShots(s)| <= |s.activeEShots|
    ensures forall shot :: shot in RemainingEShots(s) ==> shot in s.activeEShots
  {
  }

  /** A player shot survives the pass exactly when it hits neither an alien
      nor a shield. */
  lemma RemainingPShotsMembership(s: State, shot: Body)
    ensures shot in RemainingPShots(s) <==>
              shot in s.activePShots && !HitsAlien(shot, s.activeAliens) && !HitsShield(shot, s.gameShields)
  {
    var living := LivingAliens(s.activeAliens);
    var onShields := Filter(Product(s.gameShields, s.activePShots), (p: (Body, Shield)) => CollisionCheck(p.0, p.1.shieldBody));
    if shot in s.activePShots {
      if HitsAlien(shot, s.activeAliens) {
        var a :| a in living && CollisionCheck(a, shot);
        assert (a, shot) in CollidedAliensAndShots(s);
      }
      if shot in CollidedPShots(s) {
        var a :| (a, shot) in CollidedAliensAndShots(s);
        assert a in living && CollisionCheck(a, shot);
      }
      if HitsShield(shot, s.gameShields) {
        var sh :| sh in s.gameShields && CollisionCheck(shot, sh.shieldBody);
        assert (shot, sh) in onShields;
      }
      if shot in CollidedPShotsOnShields(s) {
        var sh :| (shot, sh) in onShields;
        assert sh in s.gameShields && CollisionCheck(shot, sh.shieldBody);
      }
    }
  }

  /** An enemy shot survives the pass exactly when it misses the player and no
      shield absorbs it. */
  lemma RemainingEShotsMembership(s: State, shot: Body)
    ensures shot in RemainingEShots(s) <==>
              && shot in s.activeEShots
              && !CollisionCheck(s.statePlayer, shot)
              && !(exists sh :: sh in s.gameShields && Absorbs(sh, shot))
  {
    var overlapping := Filter(Product(s.gameShields, s.activeEShots), (p: (Body, Shield)) => CollisionCheck(p.0, p.1.shieldBody));
    assert CollidedEShotsAndShields(s) == Filter(overlapping, (p: (Body, Shield)) => !CheckPrevShieldHit(p.0, p.1));
    if shot in s.activeEShots {
      if sh :| sh in s.gameShields && Absorbs(sh, shot) {
        assert (shot, sh) in overlapping;
        assert (shot, sh) in CollidedEShotsAndShields(s);
      }
      if shot in CollidedEShotsOnShields(s) {
        var sh :| (shot, sh) in CollidedEShotsAndShields(s);
        assert (shot, sh) in overlapping;
        assert sh in s.gameShields && Absorbs(sh, shot);
      }
    }
  }

  lemma CollidedEShotsOnPlayerMembership(s: State, shot: Body)
    ensures shot in CollidedEShotsOnPlayer(s) <==> shot in s.activeEShots && CollisionCheck(s.statePlayer, shot)
  {
  }

  /** The player loses one life per enemy shot overlapping it, and no other. */
  lemma HandleCollisionsLives(d: Dims, s: State)
    ensures HandleCollisions(d, s).playerLives == s.playerLives - |CollidedEShotsOnPlayer(s)|
    ensures s.playerLives - |s.activeEShots| <= HandleCollisions(d, s).playerLives <= s.playerLives
    ensures HandleCollisions(d, s).playerLives < s.playerLives <==>
              exists shot :: shot in s.activeEShots && CollisionCheck(s.statePlayer, shot)
  {
    var onPlayer := CollidedEShotsOnPlayer(s);
    assert HandleCollisions(d, s).playerLives == s.playerLives - |onPlayer|;
    if shot :| shot in s.activeEShots && CollisionCheck(s.statePlayer, shot) {
      CollidedEShotsOnPlayerMembership(s, shot);
    }
    if |onPlayer| > 0 {
      CollidedEShotsOnPlayerMembership(s, onPlayer[0]);
    }
  }

  /** The game is over exactly when some alien of the moved swarm (hit this
      tick or not) is below the canvas, or no life is left. */
  lemma HandleCollisionsGameOver(d: Dims, s: State)
    ensures var r := HandleCollisions(d, s);
            r.gameOver <==>
              (exists row, a :: 0 <= row < |s.activeAliens| && Some(a) in s.activeAliens[row] && a.yPos > d.canvasHeight)
              || r.playerLives == 0
  {
    var rows := NotNullAliens(s.activeAliens);
    assert forall row, a :: 0 <= row < |rows| ==> (a in rows[row] <==> Some(a) in s.activeAliens[row]);
  }

  /** Some living alien has its corner strictly inside the shield. */
  predicate CoveredByAlien(sh: Shield, g: Grid)
  {
    exists a :: a in LivingAliens(g) && ShieldSubmerge(a, sh.shieldBody)
  }

  lemma AliensAndShieldsMembership(s: State, a: Body, c: Shield)
    ensures (a, c) in AliensAndShields(s) <==> a in LivingAliens(s.activeAliens) && c in s.gameShields
  {
    var rows := NotNullAliens(s.activeAliens);
    var products := Map(rows, (row: seq<Body>) => Product(s.gameShields, row));
    assert AliensAndShields(s) == Flatten(products);
    assert forall i :: 0 <= i < |rows| ==> ((a, c) in products[i] <==> a in rows[i] && c in s.gameShields);
    assert forall i :: 0 <= i < |rows| ==> (a in rows[i] <==> Some(a) in s.activeAliens[i]);
  }

  lemma FullyCoveredShieldsMembership(s: State, c: Shield)
    ensures c in FullyCoveredShields(s) <==> c in s.gameShields && CoveredByAlien(c, s.activeAliens)
  {
    var covering := Filter(AliensAndShields(s), (p: (Body, Shield)) => ShieldSubmerge(p.0, p.1.shieldBody));
    assert FullyCoveredShields(s) == Seconds(covering);
    if c in FullyCoveredShields(s) {
      var a :| (a, c) in covering;
      AliensAndShieldsMembership(s, a, c);
    }
    if c in s.gameShields && CoveredByAlien(c, s.activeAliens) {
      var a :| a in LivingAliens(s.activeAliens) && ShieldSubmerge(a, c.shieldBody);
      AliensAndShieldsMembership(s, a, c);
      assert (a, c) in covering;
    }
  }

  lemma CollidedEShotsAndShieldsMembership(s: State, shot: Body, sh: Shield)
    ensures (shot, sh) in CollidedEShotsAndShields(s) <==> shot in s.activeEShots && sh in s.gameShields && Absorbs(sh, shot)
  {
  }

  /** `x` is a shield of the snapshot that absorbs an active enemy shot,
      with that shot's position recorded. */
  predicate MarkedFrom(s: State, x: Shield)
  {
    exists shot, sh :: shot in s.activeEShots && sh in s.gameShields && Absorbs(sh, shot) && x == AddShotCoord(sh, shot)
  }

  /** The marked shields are exactly the absorbing shields, each with the
      position of the shot it absorbs recorded. */
  lemma MarkedShieldsMembership(s: State, x: Shield)
    ensures x in MarkedShields(s) <==> MarkedFrom(s, x)
  {
    var marked := Map(CollidedEShotsAndShields(s), Mark);
    ReverseMembership(marked);
    if x in marked {
      MarkedIndexed(s, x, marked);
    }
    if MarkedFrom(s, x) {
      MarkedFromIndexed(s, x, marked);
    }
  }

  lemma MarkedFromIndexed(s: State, x: Shield, marked: seq<Shield>)
    requires marked == Map(CollidedEShotsAndShields(s), Mark)
    requires MarkedFrom(s, x)
    ensures x in marked
  {
    var shot, sh :| shot in s.activeEShots && sh in s.gameShields && Absorbs(sh, shot) && x == AddShotCoord(sh, shot);
    CollidedEShotsAndShieldsMembership(s, shot, sh);
    MarkOfMember(CollidedEShotsAndShields(s), (shot, sh));
  }

  lemma MarkOfMember(pairs: seq<(Body, Shield)>, p: (Body, Shield))
    requires p in pairs
    ensures Mark(p) in Map(pairs, Mark)
  {
    var i :| 0 <= i < |pairs| && pairs[i] == p;
    assert Map(pairs, Mark)[i] == Mark(p);
  }

  lemma MarkedIndexed(s: State, x: Shield, marked: seq<Shield>)
    requires marked == Map(CollidedEShotsAndShields(s), Mark)
    requires x in marked
    ensures MarkedFrom(s, x)
  {
    var pairs := CollidedEShotsAndShields(s);
    var i :| 0 <= i < |marked| && marked[i] == x;
    CollidedEShotsAndShieldsMembership(s, pairs[i].0, pairs[i].1);
    assert x == AddShotCoord(pairs[i].1, pairs[i].0);
  }

  /** Every shield of the next snapshot is an uncovered shield carried over,
      or an absorbing shield with the absorbed shot's position recorded whose
      id no covered shield has. Ids are unique. */
  lemma NextShieldsSources(s: State)
    ensures UniqueIds(NextShields(s))
    ensures forall sh :: sh in NextShields(s) ==>
              || (sh in s.gameShields && sh !in FullyCoveredShields(s))
              || (MarkedFrom(s, sh) && Id(sh) !in Map(FullyCoveredShields(s), Id))
  {
    var avail, filtered := AvailShields(s), FilteredShields(s);
    ReverseMembership(avail + filtered);
    forall sh | sh in NextShields(s)
      ensures || (sh in s.gameShields && sh !in FullyCoveredShields(s))
              || (MarkedFrom(s, sh) && Id(sh) !in Map(FullyCoveredShields(s), Id))
    {
      if sh !in avail {
        assert sh in filtered;
        MarkedShieldsMembership(s, sh);
      }
    }
  }

  /** Shields never record a coordinate twice, and the next shield list has
      unique ids. */
  lemma NextShieldsHitsDistinct(s: State)
    requires forall sh :: sh in s.gameShields ==> DistinctHits(sh)
    ensures UniqueIds(NextShields(s))
    ensures forall sh :: sh in NextShields(s) ==> DistinctHits(sh)
  {
    NextShieldsSources(s);
    forall sh | sh in NextShields(s) ensures DistinctHits(sh) {
      if shot, orig :| shot in s.activeEShots && orig in s.gameShields && Absorbs(orig, shot) && sh == AddShotCoord(orig, shot) {
        AddShotCoordKeepsHitsDistinct(orig, shot);
      }
    }
  }

  /** A shield with an alien's corner strictly inside it is gone from the
      next snapshot. */
  lemma CoveredShieldsDropped(s: State)
    requires UniqueIds(s.gameShields)
    ensures forall sh, c :: sh in NextShields(s) && c in s.gameShields && CoveredByAlien(c, s.activeAliens) ==> Id(sh) != Id(c)
  {
    NextShieldsSources(s);
    var covered := FullyCoveredShields(s);
    forall sh, c | sh in NextShields(s) && c in s.gameShields && CoveredByAlien(c, s.activeAliens) ensures Id(sh) != Id(c) {
      FullyCoveredShieldsMembership(s, c);
      var i :| 0 <= i < |covered| && covered[i] == c;
      assert Id(c) in Map(covered, Id) by { assert Map(covered, Id)[i] == Id(c); }
      if sh in s.gameShields && sh !in covered {
        if Id(sh) == Id(c) {
          SameIdSameShield(s.gameShields, sh, c);
        }
      }
    }
  }

  /** The front of the reversed candidate list holds the filtered marked
      shields, the back the available ones. */
  lemma ReversedCandidates(avail: seq<Shield>, filtered: seq<Shield>)
    ensures forall y :: y in Reverse(avail + filtered)[..|filtered|] <==> y in filtered
    ensures forall y :: y in Reverse(avail + filtered) <==> y in avail || y in filtered
  {
    var l := avail + filtered;
    var r := Reverse(l);
    ReverseMembership(l);
    forall y ensures y in r[..|filtered|] <==> y in filtered {
      if y in r[..|filtered|] {
        var i :| 0 <= i < |filtered| && r[..|filtered|][i] == y;
        assert l[|l| - 1 - i] == filtered[|filtered| - 1 - i];
      }
      if y in filtered {
        var p :| 0 <= p < |filtered| && filtered[p] == y;
        assert r[|filtered| - 1 - p] == l[|avail| + p];
        assert r[..|filtered|][|filtered| - 1 - p] == y;
      }
    }
  }

  /** A shield id names at most one shield absorbing a shot when at most one
      enemy shot is active. */
  lemma MarkedUnique(s: State, x: Shield, sh: Shield, shot: Body)
    requires UniqueIds(s.gameShields) && |s.activeEShots| <= 1
    requires MarkedFrom(s, x)
    requires shot in s.activeEShots && sh in s.gameShields && Id(x) == Id(sh)
    ensures x == AddShotCoord(sh, shot)
  {
    var shot', sh' :| shot' in s.activeEShots && sh' in s.gameShields && Absorbs(sh', shot') && x == AddShotCoord(sh', shot');
    assert Id(sh') == Id(x);
    SameIdSameShield(s.gameShields, sh, sh');
    ShotsAgree(s.activeEShots, shot, shot');
  }

  lemma ShotsAgree(shots: seq<Body>, a: Body, b: Body)
    requires |shots| <= 1 && a in shots && b in shots
    ensures a == b
  {
    var i :| 0 <= i < |shots| && shots[i] == a;
    var j :| 0 <= j < |shots| && shots[j] == b;
  }

  /** The id of a shield no alien covers is not among the covered ids. */
  lemma UncoveredIdNotCovered(s: State, sh: Shield)
    requires UniqueIds(s.gameShields)
    requires sh in s.gameShields && !CoveredByAlien(sh, s.activeAliens)
    ensures Id(sh) !in Map(FullyCoveredShields(s), Id)
  {
    var covered := FullyCoveredShields(s);
    forall i | 0 <= i < |covered| ensures Id(covered[i]) != Id(sh) {
      FullyCoveredShieldsMembership(s, covered[i]);
    }
  }

  /** An uncovered shield that absorbs the active enemy shot appears in the
      next snapshot with the shot's position recorded. */
  lemma AbsorbedShotRecorded(s: State, shot: Body, sh: Shield)
    requires UniqueIds(s.gameShields) && |s.activeEShots| <= 1
    requires shot in s.activeEShots && sh in s.gameShields && Absorbs(sh, shot)
    requires !CoveredByAlien(sh, s.activeAliens)
    ensures AddShotCoord(sh, shot) in NextShields(s)
  {
    var m := AddShotCoord(sh, shot);
    var marked := MarkedShields(s);
    var covered := FullyCoveredShields(s);
    MarkedShieldsMembership(s, m);
    forall y | y in marked[..|marked|] && Id(y) == Id(m) ensures y == m {
      assert y in marked;
      MarkedShieldsMembership(s, y);
      MarkedUnique(s, y, sh, shot);
    }
    KeptIfPrefixAgrees(marked, m, |marked|);
    UncoveredIdNotCovered(s, sh);
    var avail, filtered := AvailShields(s), FilteredShields(s);
    assert m in filtered;
    ReversedCandidates(avail, filtered);
    var r := Reverse(avail + filtered);
    forall y | y in r[..|filtered|] && Id(y) == Id(m) ensures y == m {
      assert y in FilterShieldList(marked);
      MarkedShieldsMembership(s, y);
      MarkedUnique(s, y, sh, shot);
    }
    KeptIfPrefixAgrees(r, m, |filtered|);
  }

  /** An uncovered shield that absorbs no active enemy shot is carried over
      unchanged. */
  lemma UntouchedShieldKept(s: State, sh: Shield)
    requires UniqueIds(s.gameShields)
    requires sh in s.gameShields && !CoveredByAlien(sh, s.activeAliens)
    requires forall shot :: shot in s.activeEShots ==> !Absorbs(sh, shot)
    ensures sh in NextShields(s)
  {
    var avail, filtered := AvailShields(s), FilteredShields(s);
    FullyCoveredShieldsMembership(s, sh);
    assert sh in avail;
    ReversedCandidates(avail, filtered);
    var r := Reverse(avail + filtered);
    forall y | y in r[..|r|] && Id(y) == Id(sh) ensures y == sh {
      assert y in r;
      if y in filtered {
        MarkedShieldsMembership(s, y);
        var shot', sh' :| shot' in s.activeEShots && sh' in s.gameShields && Absorbs(sh', shot') && y == AddShotCoord(sh', shot');
        SameIdSameShield(s.gameShields, sh, sh');
        assert false;
      } else {
        SameIdSameShield(s.gameShields, sh, y);
      }
    }
    KeptIfPrefixAgrees(r, sh, |r|);
  }

  /** A snapshot in which one alien has its corner deep inside the only
      shield while the single enemy shot strikes that shield. */
  function CoveredAndStruckSnapshot(): State
  {
    var shield := Shield(Body(1, 50.0, 425.0, 80.0, 50.0), []);
    var alien := Body(2, 60.0, 430.0, 30.0, 30.0);
    var shot := Body(3, 70.0, 440.0, EShotWidth, EShotHeight);
    State(Body(PlayerId, 300.0, 700.0, 40.0, 20.0), [], [], [[Some(alien)]], [shot], [], None, None, None,
          [shield], 1.0, false, 4, 0, 3, false, false)
  }

  /** As written, a covered shield that absorbs the active enemy shot in the
      same tick survives it, carrying the shot's position: the marked copy
      differs from the covered original and so is never filtered out. */
  lemma AsWrittenKeepsCoveredStruck(s: State, shot: Body, sh: Shield)
    requires UniqueIds(s.gameShields) && |s.activeEShots| <= 1
    requires shot in s.activeEShots && sh in s.gameShields && Absorbs(sh, shot)
    requires CoveredByAlien(sh, s.activeAliens)
    ensures AddShotCoord(sh, shot) in NextShieldsAsWritten(s)
  {
    var m := AddShotCoord(sh, shot);
    var marked := MarkedShields(s);
    MarkedShieldsMembership(s, m);
    forall y | y in marked[..|marked|] && Id(y) == Id(m) ensures y == m {
      assert y in marked;
      MarkedShieldsMembership(s, y);
      MarkedUnique(s, y, sh, shot);
    }
    KeptIfPrefixAgrees(marked, m, |marked|);
    assert m !in FullyCoveredShields(s) by {
      FullyCoveredShieldsMembership(s, m);
      if m in s.gameShields {
        SameIdSameShield(s.gameShields, m, sh);
      }
    }
    var avail, filtered := AvailShields(s), FilteredShieldsAsWritten(s);
    assert m in filtered;
    ReversedCandidates(avail, filtered);
    var r := Reverse(avail + filtered);
    forall y | y in r[..|filtered|] && Id(y) == Id(m) ensures y == m {
      assert y in FilterShieldList(marked);
      MarkedShieldsMembership(s, y);
      MarkedUnique(s, y, sh, shot);
    }
    KeptIfPrefixAgrees(r, m, |filtered|);
  }

  /** The snapshot above exhibits the discrepancy: its shield is covered,
      absorbs the shot, and is still present after the tick as written,
      while the corrected filter drops it. */
  lemma FilteredShieldsAsWrittenKeepsCovered()
    ensures var s := CoveredAndStruckSnapshot();
            && CoveredByAlien(s.gameShields[0], s.activeAliens)
            && AddShotCoord(s.gameShields[0], s.activeEShots[0]) in NextShieldsAsWritten(s)
            && forall sh :: sh in NextShields(s) ==> Id(sh) != Id(s.gameShields[0])
  {
    var s := CoveredAndStruckSnapshot();
    var c, shot := s.gameShields[0], s.activeEShots[0];
    var a := Body(2, 60.0, 430.0, 30.0, 30.0);
    assert Some(a) in s.activeAliens[0];
    assert a in LivingAliens(s.activeAliens) && ShieldSubmerge(a, c.shieldBody);
    assert Absorbs(c, shot);
    AsWrittenKeepsCoveredStruck(s, shot, c);
    CoveredShieldsDropped(s);
  }
}
