/** Creation and expiry of the player's and the aliens' shots
    (spaceinvaders.ts). */
module Projectiles {
  import opened Options
  import opened Entities
  import opened Swarm

  /** `createPShotBody`: a 2 x 15 shot centred on the player, 5 units above
      the player's top edge, taking the next id. */
  function CreatePShotBody(d: Dims, curState: State): (shot: Body)
    ensures shot.bodyId == curState.idSequence
    ensures shot.bodyWidth == PShotWidth && shot.bodyHeight == PShotHeight
    ensures shot.xPos + shot.bodyWidth / 2.0 == curState.statePlayer.xPos + d.playerWidth / 2.0
    ensures curState.statePlayer.yPos - shot.yPos == 5.0
  {
    var xPos := curState.statePlayer.xPos + d.playerWidth / 2.0 - PShotWidth / 2.0;
    var yPos := curState.statePlayer.yPos - 5.0;
    CreateBody(Some(curState), xPos, yPos, PShotWidth, PShotHeight, 0)
  }

  function Abs(x: real): real
  {
    if x < 0.0 then -x else x
  }

  /** The horizontal distance of an alien from the player. */
  function Dist(a: Body, playerXPos: real): real
  {
    Abs(a.xPos - playerXPos)
  }

  /** The candidate at index `k` is present and strictly closer than every
      candidate after it. */
  ghost predicate CloserThanLater(cands: seq<Option<Body>>, playerXPos: real, k: int)
    requires 0 <= k < |cands|
  {
    cands[k].Some? &&
    forall j :: k < j < |cands| && cands[j].Some? ==> Dist(cands[j].value, playerXPos) > Dist(cands[k].value, playerXPos)
  }

  /** `detClosedAlien`: among `curClosest` followed by `alienList`, an alien
      at the least distance from the player; of several such, the one scanned
      last. Empty only when every candidate is. */
  function DetClosedAlien(alienList: seq<Option<Body>>, curClosest: Option<Body>, playerXPos: real): (r: Option<Body>)
    decreases |alienList|
    ensures r.None? <==> curClosest.None? && forall i :: 0 <= i < |alienList| ==> alienList[i].None?
    ensures r.Some? ==> forall i :: 0 <= i < |alienList| && alienList[i].Some? ==>
                          Dist(r.value, playerXPos) <= Dist(alienList[i].value, playerXPos)
    ensures r.Some? && curClosest.Some? ==> Dist(r.value, playerXPos) <= Dist(curClosest.value, playerXPos)
    ensures r.Some? ==> exists k :: 0 <= k < |[curClosest] + alienList| && ([curClosest] + alienList)[k] == r &&
                          CloserThanLater([curClosest] + alienList, playerXPos, k)
  {
    if |alienList| > 0 then
      var propAlien :=
        if curClosest.Some? && alienList[0].Some? then
          if Dist(curClosest.value, playerXPos) < Dist(alienList[0].value, playerXPos) then curClosest else alienList[0]
        else if curClosest.Some? then curClosest
        else alienList[0];
      var rest := alienList[1..];
      var r := DetClosedAlien(rest, propAlien, playerXPos);
      assert forall i :: 1 <= i < |alienList| ==> alienList[i] == rest[i - 1];
      LastClosestStep(alienList, curClosest, propAlien, r, playerXPos);
      r
    else
      assert [curClosest] + alienList == [curClosest];
      assert curClosest.Some? ==> ([curClosest] + alienList)[0] == curClosest && CloserThanLater([curClosest] + alienList, playerXPos, 0);
      curClosest
  }

  /** The scan step of `DetClosedAlien`: the last closest candidate after the
      first step is the last closest candidate of the whole scan. */
  lemma LastClosestStep(alienList: seq<Option<Body>>, curClosest: Option<Body>, propAlien: Option<Body>,
                        r: Option<Body>, playerXPos: real)
    requires |alienList| > 0
    requires propAlien ==
        if curClosest.Some? && alienList[0].Some? then
          if Dist(curClosest.value, playerXPos) < Dist(alienList[0].value, playerXPos) then curClosest else alienList[0]
        else if curClosest.Some? then curClosest
        else alienList[0]
    requires r.Some? ==> exists k :: 0 <= k < |[propAlien] + alienList[1..]| && ([propAlien] + alienList[1..])[k] == r &&
                           CloserThanLater([propAlien] + alienList[1..], playerXPos, k)
    ensures r.Some? ==> exists k :: 0 <= k < |[curClosest] + alienList| && ([curClosest] + alienList)[k] == r &&
                          CloserThanLater([curClosest] + alienList, playerXPos, k)
  {
    if r.Some? {
      var inner, outer := [propAlien] + alienList[1..], [curClosest] + alienList;
      assert forall j :: 2 <= j < |outer| ==> outer[j] == inner[j - 1];
      var k' :| 0 <= k' < |inner| && inner[k'] == r && CloserThanLater(inner, playerXPos, k');
      if k' > 0 {
        assert outer[k' + 1] == r && CloserThanLater(outer, playerXPos, k' + 1);
      } else if propAlien == alienList[0] {
        assert outer[1] == r && CloserThanLater(outer, playerXPos, 1);
      } else {
        assert outer[0] == r && CloserThanLater(outer, playerXPos, 0);
      }
    }
  }

  /** The shot is centred on the bottom edge of the bottom alien at index
      `k`, which is at the least distance from the player and, of several
      such, the last in the list. */
  ghost predicate AimedAtClosest(shot: Body, bottoms: seq<Option<Body>>, playerXPos: real)
  {
    exists k :: 0 <= k < |bottoms| && bottoms[k].Some? &&
      shot.xPos + EShotWidth / 2.0 == bottoms[k].value.xPos + bottoms[k].value.bodyWidth / 2.0 &&
      shot.yPos == bottoms[k].value.yPos + bottoms[k].value.bodyHeight &&
      (forall b :: Some(b) in bottoms ==> Dist(bottoms[k].value, playerXPos) <= Dist(b, playerXPos)) &&
      CloserThanLater(bottoms, playerXPos, k)
  }

  /** At most one index is both least distant and strictly closer than every
      later candidate, so `AimedAtClosest` fixes the alien aimed at. */
  lemma LastClosestUnique(bottoms: seq<Option<Body>>, playerXPos: real, k1: int, k2: int)
    requires 0 <= k1 < |bottoms| && 0 <= k2 < |bottoms|
    requires CloserThanLater(bottoms, playerXPos, k1) && CloserThanLater(bottoms, playerXPos, k2)
    requires forall b :: Some(b) in bottoms ==> Dist(bottoms[k1].value, playerXPos) <= Dist(b, playerXPos)
    requires forall b :: Some(b) in bottoms ==> Dist(bottoms[k2].value, playerXPos) <= Dist(b, playerXPos)
    ensures k1 == k2
  {
  }

  /** `createEShotBody`: when the fire roll succeeds, a 3 x 35 shot centred on
      the bottom edge of the bottom alien closest to the player, taking the
      next id; nothing when the roll fails or no bottom alien is left. */
  function CreateEShotBody(d: Dims, curState: State, alienFires: bool): (shot: Option<Body>)
    requires curState.bottomAliens.Some?
    ensures shot.Some? <==> alienFires && exists a :: Some(a) in curState.bottomAliens.value
    ensures shot.Some? ==> shot.value.bodyId == curState.idSequence &&
                           shot.value.bodyWidth == EShotWidth && shot.value.bodyHeight == EShotHeight
    ensures shot.Some? ==> AimedAtClosest(shot.value, curState.bottomAliens.value, curState.statePlayer.xPos)
  {
    var bottoms := curState.bottomAliens.value;
    var closestAlien := DetClosedAlien(Tail(bottoms), Head(bottoms), curState.statePlayer.xPos);
    ClosestOfBottoms(bottoms, curState.statePlayer.xPos);
    if alienFires && closestAlien.Some? then
      var c := closestAlien.value;
      Some(CreateBody(Some(curState), c.xPos + c.bodyWidth / 2.0 - EShotWidth / 2.0, c.yPos + c.bodyHeight,
                      EShotWidth, EShotHeight, 0))
    else None
  }

  /** The closest alien of a bottom-alien list, scanned from its head: empty
      exactly when the list holds no alien, otherwise one of its aliens at the
      least distance from the player, the last such in the list. */
  lemma ClosestOfBottoms(bottoms: seq<Option<Body>>, playerXPos: real)
    ensures var c := DetClosedAlien(Tail(bottoms), Head(bottoms), playerXPos);
            && (c.None? <==> forall a :: Some(a) !in bottoms)
            && (c.Some? ==> Some(c.value) in bottoms &&
                            forall b :: Some(b) in bottoms ==> Dist(c.value, playerXPos) <= Dist(b, playerXPos))
            && (c.Some? ==> exists k :: 0 <= k < |bottoms| && bottoms[k] == c && CloserThanLater(bottoms, playerXPos, k))
  {
    var c := DetClosedAlien(Tail(bottoms), Head(bottoms), playerXPos);
    if |bottoms| > 0 {
      assert bottoms == [Head(bottoms)] + Tail(bottoms);
      forall b | Some(b) in bottoms && c.Some? ensures Dist(c.value, playerXPos) <= Dist(b, playerXPos) {
        var i :| 0 <= i < |bottoms| && bottoms[i] == Some(b);
        if i > 0 {
          assert Tail(bottoms)[i - 1] == Some(b);
        }
      }
      forall a | Some(a) in bottoms ensures c.Some? {
        var i :| 0 <= i < |bottoms| && bottoms[i] == Some(a);
        if i > 0 {
          assert Tail(bottoms)[i - 1] == Some(a);
        }
      }
      if c.Some? {
        var k :| 0 <= k < |[Head(bottoms)] + Tail(bottoms)| && ([Head(bottoms)] + Tail(bottoms))[k] == c &&
                 CloserThanLater([Head(bottoms)] + Tail(bottoms), playerXPos, k);
        assert bottoms[k] == c && CloserThanLater(bottoms, playerXPos, k);
      }
    }
  }

  /** A player shot has left the screen once its bottom edge is above y = 0. */
  predicate PShotExpired(shot: Body)
  {
    shot.yPos + shot.bodyHeight < 0.0
  }

  /** An enemy shot has left the screen once its top edge is below the canvas. */
  predicate EShotExpired(d: Dims, shot: Body)
  {
    shot.yPos > d.canvasHeight
  }
}
