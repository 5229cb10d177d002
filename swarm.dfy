/** How the alien swarm moves: its left- and right-most aliens, the bottom
    alien of each column and the move vector of a tick (spaceinvaders.ts). */
module Swarm {
  import opened Options
  import opened Lists
  import opened Entities
  import opened Geometry

  /** The comparison `findBoundary` evaluates between two x positions. */
  datatype Comparator = Less | Greater

  /** `a` is strictly further to the side `cmp` selects than `b`. */
  predicate Beats(cmp: Comparator, a: Body, b: Body)
  {
    if cmp.Less? then a.xPos < b.xPos else a.xPos > b.xPos
  }

  /** `findBoundary`: scans the cells, keeping the current boundary alien only
      while it strictly beats the next alien. The result is an alien that no
      alien of the scan beats, and it is empty only when every candidate is. */
  function FindBoundary(alienList: seq<Option<Body>>, boundaryAlien: Option<Body>, cmp: Comparator): (r: Option<Body>)
    decreases |alienList|
    ensures r.None? <==> boundaryAlien.None? && forall i :: 0 <= i < |alienList| ==> alienList[i].None?
    ensures r.Some? ==> r == boundaryAlien || r in alienList
    ensures r.Some? ==> forall i :: 0 <= i < |alienList| && alienList[i].Some? ==> !Beats(cmp, alienList[i].value, r.value)
    ensures r.Some? && boundaryAlien.Some? ==> !Beats(cmp, boundaryAlien.value, r.value)
  {
    if |alienList| > 0 then
      var rest := alienList[1..];
      assert forall i :: 1 <= i < |alienList| ==> alienList[i] == rest[i - 1];
      if alienList[0].Some? && boundaryAlien.Some? then
        if Beats(cmp, boundaryAlien.value, alienList[0].value) then FindBoundary(rest, boundaryAlien, cmp)
        else FindBoundary(rest, alienList[0], cmp)
      else if alienList[0].Some? then FindBoundary(rest, alienList[0], cmp)
      else FindBoundary(rest, boundaryAlien, cmp)
    else boundaryAlien
  }

  function Head(cells: seq<Option<Body>>): Option<Body>
  {
    if |cells| > 0 then cells[0] else None
  }

  function Tail(cells: seq<Option<Body>>): seq<Option<Body>>
  {
    if |cells| > 0 then cells[1..] else []
  }

  /** The boundary alien of the whole grid on the side `cmp` selects. */
  function GridBoundary(g: Grid, cmp: Comparator): (r: Option<Body>)
    ensures r.None? <==> forall a :: Some(a) !in Flatten(g)
    ensures r.Some? ==> r in Flatten(g)
    ensures r.Some? ==> forall a :: Some(a) in Flatten(g) ==> !Beats(cmp, a, r.value)
  {
    var cells := Flatten(g);
    var r := FindBoundary(Tail(cells), Head(cells), cmp);
    assert |cells| > 0 ==> cells == [Head(cells)] + Tail(cells);
    assert forall c :: c in Tail(cells) ==> c in cells;
    r
  }

  /** `resetAlienBoundaries`: records the left- and right-most aliens. */
  function ResetAlienBoundaries(curState: State): (r: State)
    ensures r == curState.(leftMostAlien := r.leftMostAlien, rightMostAlien := r.rightMostAlien)
    ensures r.leftMostAlien.None? <==> forall a :: Some(a) !in Flatten(curState.activeAliens)
    ensures r.leftMostAlien.Some? ==>
              && r.leftMostAlien in Flatten(curState.activeAliens)
              && forall a :: Some(a) in Flatten(curState.activeAliens) ==> r.leftMostAlien.value.xPos <= a.xPos
    ensures r.rightMostAlien.None? <==> forall a :: Some(a) !in Flatten(curState.activeAliens)
    ensures r.rightMostAlien.Some? ==>
              && r.rightMostAlien in Flatten(curState.activeAliens)
              && forall a :: Some(a) in Flatten(curState.activeAliens) ==> r.rightMostAlien.value.xPos >= a.xPos
  {
    curState.(leftMostAlien := GridBoundary(curState.activeAliens, Less),
              rightMostAlien := GridBoundary(curState.activeAliens, Greater))
  }

  /** `alienDirection`: drop by 2.5 when a boundary alien has reached a side
      of the swarm's track, otherwise step sideways in the current direction. */
  function AlienDirection(curState: State): (mv: (real, real))
    ensures mv == (0.0, 2.5) || mv == (curState.enemyLatDirection, 0.0)
  {
    var exceededBound :=
      curState.leftMostAlien.Some? && curState.rightMostAlien.Some? &&
      (curState.leftMostAlien.value.xPos <= CanvasLeftBound || curState.rightMostAlien.value.xPos >= CanvasRightBound);
    if exceededBound then (0.0, 2.5) else (curState.enemyLatDirection, 0.0)
  }

  /** `getBottomAlien`: scanning rows `rowInd` to 2 of column `colInd`, the
      last alien found, or `bottomAlien` when the scanned rows are empty. */
  function GetBottomAlien(alienList: Grid, colInd: int, bottomAlien: Option<Body>, rowInd: int): (r: Option<Body>)
    requires |alienList| >= AlienRows && 0 <= rowInd < AlienRows
    decreases AlienRows - rowInd
    ensures (forall k :: rowInd <= k < AlienRows ==> Cell(alienList, k, colInd).None?) ==> r == bottomAlien
    ensures forall k :: (rowInd <= k < AlienRows && Cell(alienList, k, colInd).Some? &&
                         (forall k' :: k < k' < AlienRows ==> Cell(alienList, k', colInd).None?))
                        ==> r == Cell(alienList, k, colInd)
  {
    var subAlien := Cell(alienList, rowInd, colInd);
    var propAlien := if subAlien.Some? then subAlien else bottomAlien;
    if rowInd == AlienRows - 1 then propAlien else GetBottomAlien(alienList, colInd, propAlien, rowInd + 1)
  }

  /** The alien of column `col` with the largest row index, or none when the
      column is empty. */
  ghost predicate IsBottomAlien(g: Grid, col: int, a: Option<Body>)
    requires |g| >= AlienRows
  {
    && (a.None? <==> forall k :: 0 <= k < AlienRows ==> Cell(g, k, col).None?)
    && forall k :: (0 <= k < AlienRows && Cell(g, k, col).Some? &&
                    (forall k' :: k < k' < AlienRows ==> Cell(g, k', col).None?)) ==> a == Cell(g, k, col)
  }

  /** `resetBottomAliens`: appends the bottom alien of columns `curInd` to 8. */
  function ResetBottomAliens(alienList: Grid, accBottomList: seq<Option<Body>>, curInd: int): (r: seq<Option<Body>>)
    requires |alienList| >= AlienRows && 0 <= curInd <= AlienColumns
    decreases AlienColumns - curInd
    ensures |r| == |accBottomList| + AlienColumns - curInd
    ensures r[..|accBottomList|] == accBottomList
    ensures forall i :: |accBottomList| <= i < |r| ==> IsBottomAlien(alienList, curInd + i - |accBottomList|, r[i])
  {
    if curInd == AlienColumns then accBottomList
    else
      var acc := accBottomList + [GetBottomAlien(alienList, curInd, None, 0)];
      var r := ResetBottomAliens(alienList, acc, curInd + 1);
      assert r[..|acc|][|accBottomList|] == acc[|accBottomList|];
      assert r[..|accBottomList|] == r[..|acc|][..|accBottomList|];
      r
  }

  /** The bottom aliens of a grid: nine entries, entry c the bottom alien of
      column c. */
  lemma BottomAliensOfGrid(g: Grid)
    requires |g| >= AlienRows
    ensures var r := ResetBottomAliens(g, [], 0);
            |r| == AlienColumns && forall c :: 0 <= c < AlienColumns ==> IsBottomAlien(g, c, r[c])
  {
  }

  /** Moves every alien of the grid by the same step `mv`. */
  function MoveAliens(d: Dims, g: Grid, mv: (real, real)): (r: Grid)
    ensures |r| == |g| && forall row :: 0 <= row < |g| ==> |r[row]| == |g[row]|
    ensures forall row, col :: 0 <= row < |g| && 0 <= col < |g[row]| ==>
              r[row][col] == MoveBody(d, g[row][col], Step(mv.0, mv.1))
  {
    Map(g, (cells: seq<Option<Body>>) => Map(cells, (cell: Option<Body>) => MoveBody(d, cell, Step(mv.0, mv.1))))
  }

  /** Every alien takes the same move: a drop or a sideways step that does
      not wrap moves each alien by exactly `mv`. */
  lemma MoveAliensUniform(d: Dims, g: Grid, mv: (real, real), row: int, col: int)
    requires 0 <= row < |g| && 0 <= col < |g[row]| && g[row][col].Some?
    requires -d.playerWidth < g[row][col].value.xPos + mv.0 < d.canvasWidth + d.playerWidth
    ensures var a, b := g[row][col].value, MoveAliens(d, g, mv)[row][col];
            b.Some? && b.value == a.(xPos := a.xPos + mv.0, yPos := a.yPos + mv.1)
  {
  }
}
