/** Shield bookkeeping: the memory of absorbed hits and the de-duplication of
    the shield list by body id (spaceinvaders.ts). */
module Shields {
  import opened Entities

  /** Whether `(x, y)` is one of `hits` (the `map`/`reduce` of
      `checkPrevShieldHit`). */
  function HitAt(hits: seq<(real, real)>, x: real, y: real): (r: bool)
    ensures r <==> (x, y) in hits
  {
    if hits == [] then false
    else
      assert hits == [hits[0]] + hits[1..];
      (hits[0].0 == x && hits[0].1 == y) || HitAt(hits[1..], x, y)
  }

  /** `checkPrevShieldHit`: the shield has already absorbed a shot at exactly
      this shot's position. */
  function CheckPrevShieldHit(shot: Body, shield: Shield): (r: bool)
    ensures r <==> (shot.xPos, shot.yPos) in shield.shieldHits
  {
    if |shield.shieldHits| > 0 then HitAt(shield.shieldHits, shot.xPos, shot.yPos) else false
  }

  /** `addShotCoord`: the shield remembers the position of a shot it absorbs. */
  function AddShotCoord(inpShield: Shield, inpShot: Body): (r: Shield)
    ensures r.shieldBody == inpShield.shieldBody
    ensures |r.shieldHits| == |inpShield.shieldHits| + 1
    ensures r.shieldHits[..|inpShield.shieldHits|] == inpShield.shieldHits
    ensures CheckPrevShieldHit(inpShot, r)
  {
    inpShield.(shieldHits := inpShield.shieldHits + [(inpShot.xPos, inpShot.yPos)])
  }

  /** No coordinate is recorded twice. */
  predicate DistinctHits(sh: Shield)
  {
    forall i, j :: 0 <= i < j < |sh.shieldHits| ==> sh.shieldHits[i] != sh.shieldHits[j]
  }

  /** Absorbing a shot whose position the shield has not seen keeps its hits
      distinct. */
  lemma AddShotCoordKeepsHitsDistinct(sh: Shield, shot: Body)
    requires DistinctHits(sh) && !CheckPrevShieldHit(shot, sh)
    ensures DistinctHits(AddShotCoord(sh, shot))
  {
    var hits := AddShotCoord(sh, shot).shieldHits;
    forall i, j | 0 <= i < j < |hits| ensures hits[i] != hits[j] {
      if j == |sh.shieldHits| {
        assert hits[i] == sh.shieldHits[i];
      }
    }
  }

  function Id(sh: Shield): int
  {
    sh.shieldBody.bodyId
  }

  predicate UniqueIds(shields: seq<Shield>)
  {
    forall i, j :: 0 <= i < j < |shields| ==> Id(shields[i]) != Id(shields[j])
  }

  /** No shield before index `i` has the id of the shield at `i`. */
  predicate FirstOfId(shields: seq<Shield>, i: int)
    requires 0 <= i < |shields|
  {
    forall j :: 0 <= j < i ==> Id(shields[j]) != Id(shields[i])
  }

  /** Keeps the first shield of each id not in `seen`, in order. */
  function KeepFirstById(shields: seq<Shield>, seen: set<int>): (r: seq<Shield>)
    ensures forall sh :: sh in r ==> sh in shields && Id(sh) !in seen
    ensures UniqueIds(r)
    ensures forall i :: 0 <= i < |shields| && Id(shields[i]) !in seen && FirstOfId(shields, i) ==> shields[i] in r
  {
    if shields == [] then []
    else
      var sh, tail := shields[0], shields[1..];
      assert shields == [sh] + tail;
      if Id(sh) in seen then
        var r := KeepFirstById(tail, seen);
        assert forall i :: 1 <= i < |shields| && FirstOfId(shields, i) ==> FirstOfId(tail, i - 1);
        r
      else
        var rest := KeepFirstById(tail, seen + {Id(sh)});
        assert forall i :: 1 <= i < |shields| && Id(shields[i]) !in seen && FirstOfId(shields, i) ==>
          Id(tail[i - 1]) !in seen + {Id(sh)} && FirstOfId(tail, i - 1);
        [sh] + rest
  }

  /** `filterShieldList`: keeps a shield only if no earlier shield has the
      same body id. The result has unique ids and keeps the first shield of
      every id. */
  function FilterShieldList(shieldList: seq<Shield>): (r: seq<Shield>)
    ensures forall sh :: sh in r ==> sh in shieldList
    ensures UniqueIds(r)
    ensures forall i :: 0 <= i < |shieldList| && FirstOfId(shieldList, i) ==> shieldList[i] in r
  {
    KeepFirstById(shieldList, {})
  }

  /** A list that already has unique ids is kept as it is. */
  lemma {:induction false} KeepFirstByIdUnique(shields: seq<Shield>, seen: set<int>)
    requires UniqueIds(shields) && forall sh :: sh in shields ==> Id(sh) !in seen
    ensures KeepFirstById(shields, seen) == shields
  {
    if shields != [] {
      var sh, rest := shields[0], shields[1..];
      forall o | o in rest ensures Id(o) !in seen + {Id(sh)} {
        var k :| 0 <= k < |rest| && rest[k] == o;
        assert shields[k + 1] == o;
      }
      KeepFirstByIdUnique(rest, seen + {Id(sh)});
    }
  }

  /** De-duplicating twice is de-duplicating once. */
  lemma FilterShieldListIdempotent(shieldList: seq<Shield>)
    ensures FilterShieldList(FilterShieldList(shieldList)) == FilterShieldList(shieldList)
  {
    KeepFirstByIdUnique(FilterShieldList(shieldList), {});
  }

  /** Two shields of a list with unique ids that share an id are the same. */
  lemma SameIdSameShield(shields: seq<Shield>, a: Shield, b: Shield)
    requires UniqueIds(shields) && a in shields && b in shields && Id(a) == Id(b)
    ensures a == b
  {
    var i :| 0 <= i < |shields| && shields[i] == a;
    var j :| 0 <= j < |shields| && shields[j] == b;
    assert !(i < j) && !(j < i);
  }

  /** Some shield at or before `j` is the first of `j`'s id. */
  lemma {:induction false} FirstIndexWithId(shields: seq<Shield>, j: int) returns (i: int)
    requires 0 <= j < |shields|
    ensures 0 <= i <= j && Id(shields[i]) == Id(shields[j]) && FirstOfId(shields, i)
  {
    if FirstOfId(shields, j) {
      i := j;
    } else {
      var j' :| 0 <= j' < j && Id(shields[j']) == Id(shields[j]);
      i := FirstIndexWithId(shields, j');
    }
  }

  /** A shield is kept when every earlier shield with its id equals it. */
  lemma KeptIfEarlierSameIdEqual(shields: seq<Shield>, j: int)
    requires 0 <= j < |shields|
    requires forall i :: 0 <= i < j && Id(shields[i]) == Id(shields[j]) ==> shields[i] == shields[j]
    ensures shields[j] in FilterShieldList(shields)
  {
    var i := FirstIndexWithId(shields, j);
  }

  /** A shield that agrees with every same-id shield in a prefix of the list
      survives `filterShieldList`. */
  lemma KeptIfPrefixAgrees(shields: seq<Shield>, x: Shield, k: int)
    requires 0 <= k <= |shields| && x in shields[..k]
    requires forall y :: y in shields[..k] && Id(y) == Id(x) ==> y == x
    ensures x in FilterShieldList(shields)
  {
    var j :| 0 <= j < k && shields[..k][j] == x;
    assert forall i :: 0 <= i < j ==> shields[i] in shields[..k] by {
      forall i | 0 <= i < j ensures shields[i] in shields[..k] {
        assert shields[..k][i] == shields[i];
      }
    }
    KeptIfEarlierSameIdEqual(shields, j);
  }
}
