/** The value types of the game: bodies, shields, the alien grid, the input
    events and the world snapshot, with the constructors the game uses to
    create them (spaceinvaders.ts). */
module Entities {
  import opened Options
  import opened Lists

  /** An axis-aligned rectangle with its top-left corner at (`xPos`, `yPos`). */
  datatype Body = Body(bodyId: int, xPos: real, yPos: real, bodyWidth: real, bodyHeight: real)

  /** A shield and the exact coordinates of the enemy shots it has absorbed. */
  datatype Shield = Shield(shieldBody: Body, shieldHits: seq<(real, real)>)

  /** Rows of optional aliens; a destroyed alien leaves an empty cell. */
  type Grid = seq<seq<Option<Body>>>

  /** The events folded into the state: a player step (the arrow keys), a
      player shot (the space bar) and a timer tick. The tick carries the
      outcome of the enemy's random fire roll. */
  datatype Event = Step(horiStep: real, vertStep: real) | Shoot | Tick(alienFires: bool)

  /** The sizes the game reads once from the page. */
  datatype Dims = Dims(playerWidth: real, playerHeight: real, canvasWidth: real, canvasHeight: real)

  datatype State = State(
    statePlayer: Body,
    activePShots: seq<Body>,
    expiredPShots: seq<Body>,
    activeAliens: Grid,
    activeEShots: seq<Body>,
    expiredEShots: seq<Body>,
    bottomAliens: Option<seq<Option<Body>>>,
    leftMostAlien: Option<Body>,
    rightMostAlien: Option<Body>,
    gameShields: seq<Shield>,
    enemyLatDirection: real,
    alienDownShift: bool,
    idSequence: int,
    gameScore: int,
    playerLives: int,
    gameOver: bool,
    resetAliens: bool)

  const PlayerId: int := 0
  const PShotWidth: real := 2.0
  const PShotHeight: real := 15.0
  const EShotWidth: real := 3.0
  const EShotHeight: real := 35.0
  const ShieldWidth: real := 80.0
  const ShieldHeight: real := 50.0
  const CanvasLeftBound: real := 0.0
  const CanvasRightBound: real := 560.0
  const AlienRows: int := 3
  const AlienColumns: int := 9

  /** A new body takes the state's next id; before the state exists the
      caller supplies the id. */
  function CreateBody(curState: Option<State>, x: real, y: real, w: real, h: real, fallBackId: int): (b: Body)
  {
    Body(if curState.Some? then curState.value.idSequence else fallBackId, x, y, w, h)
  }

  function CreateShield(b: Body): (sh: Shield)
    ensures sh.shieldBody == b && sh.shieldHits == []
  {
    Shield(b, [])
  }

  function IncrementId(s: State): (r: State)
    ensures r.idSequence == s.idSequence + 1
    ensures r.(idSequence := s.idSequence) == s
  {
    s.(idSequence := s.idSequence + 1)
  }

  /** The cell at (`row`, `col`); a column past the end of the row reads as empty. */
  function Cell(g: Grid, row: int, col: int): Option<Body>
    requires 0 <= row < |g|
  {
    if 0 <= col < |g[row]| then g[row][col] else None
  }

  /** Whether the grid has exactly three rows of nine cells. */
  predicate WellShaped(g: Grid)
  {
    |g| == AlienRows && forall row :: 0 <= row < |g| ==> |g[row]| == AlienColumns
  }

  /** `cells.filter(notNull)`: the aliens still alive, in order. */
  function NonNull(cells: seq<Option<Body>>): (r: seq<Body>)
    ensures |r| <= |cells|
    ensures forall b :: b in r <==> Some(b) in cells
    ensures |r| == 0 <==> forall i :: 0 <= i < |cells| ==> cells[i].None?
  {
    if cells == [] then []
    else
      assert cells == [cells[0]] + cells[1..];
      (if cells[0].Some? then [cells[0].value] else []) + NonNull(cells[1..])
  }

  /** Living aliens are counted row by row. */
  lemma {:induction false} NonNullAppend(a: seq<Option<Body>>, b: seq<Option<Body>>)
    ensures |NonNull(a + b)| == |NonNull(a)| + |NonNull(b)|
  {
    if a == [] {
      assert a + b == b;
    } else {
      var ab := a + b;
      assert ab[0] == a[0] && ab[1..] == a[1..] + b;
      NonNullAppend(a[1..], b);
    }
  }

  /** The number of aliens alive in the grid (`getAlienCount`): the number of
      non-empty cells of the flattened grid, the count `nextRound` tests too. */
  function GetAlienCount(g: Grid): (n: int)
    ensures n == |NonNull(Flatten(g))|
    ensures n >= 0
    ensures n == 0 <==> forall row, col :: 0 <= row < |g| && 0 <= col < |g[row]| ==> g[row][col].None?
  {
    if g == [] then 0
    else
      var rest := GetAlienCount(g[1..]);
      assert forall row, col :: 1 <= row < |g| && 0 <= col < |g[row]| ==> g[row][col] == g[1..][row - 1][col];
      NonNullAppend(g[0], Flatten(g[1..]));
      |NonNull(g[0])| + rest
  }

  /** The number of decimal digits of a non-negative integer. */
  function Digits(n: int): (k: nat)
    ensures k >= 1
  {
    if n < 10 then 1 else 1 + Digits(n / 10)
  }

  function Pow10(k: nat): int
  {
    if k == 0 then 1 else 10 * Pow10(k - 1)
  }

  /** `Number(String(a) + String(b))` for non-negative integers. */
  function DecimalConcat(a: int, b: int): int
  {
    a * Pow10(Digits(b)) + b
  }

  /** `createAlienCoords`: appends the coordinates of columns `xInc` to 8 of
      row `yInc` to `coordList`. */
  function CreateAlienCoords(xInc: int, yInc: int, coordList: seq<(int, int)>): (r: seq<(int, int)>)
    requires 0 <= xInc <= AlienColumns
    decreases AlienColumns - xInc
    ensures |r| == |coordList| + AlienColumns - xInc
    ensures r[..|coordList|] == coordList
    ensures forall i :: |coordList| <= i < |r| ==> r[i] == (40 + 60 * (xInc + i - |coordList|), 40 + 60 * yInc)
  {
    if xInc == AlienColumns then coordList
    else
      var acc := coordList + [(40 + 60 * xInc, 40 + 60 * yInc)];
      var r := CreateAlienCoords(xInc + 1, yInc, acc);
      assert r[..|acc|][|coordList|] == acc[|coordList|];
      assert r[..|coordList|] == r[..|acc|][..|coordList|];
      r
  }

  /** The alien of a fresh grid at (`col`, `row`): sized like the player, its
      id the decimal concatenation of its coordinates. */
  function AlienBody(d: Dims, col: int, row: int): Body
  {
    var x, y := 40 + 60 * col, 40 + 60 * row;
    Body(DecimalConcat(x, y), x as real, y as real, d.playerWidth, d.playerHeight)
  }

  function CreateAlienRow(d: Dims, yInc: int): (r: seq<Option<Body>>)
    ensures |r| == AlienColumns
    ensures forall col :: 0 <= col < AlienColumns ==> r[col] == Some(AlienBody(d, col, yInc))
  {
    Map(CreateAlienCoords(0, yInc, []),
        (c: (int, int)) => Some(CreateBody(None, c.0 as real, c.1 as real, d.playerWidth, d.playerHeight, DecimalConcat(c.0, c.1))))
  }

  /** `createAliens`: a full 3 x 9 grid with the alien of column c, row r at
      (40 + 60c, 40 + 60r). */
  function CreateAliens(d: Dims): (g: Grid)
    ensures WellShaped(g)
    ensures forall row, col :: 0 <= row < AlienRows && 0 <= col < AlienColumns ==> g[row][col] == Some(AlienBody(d, col, row))
  {
    Map([0, 1, 2], (yInc: int) => CreateAlienRow(d, yInc))
  }

  /** `initState` */
  function InitState(d: Dims): State
  {
    State(
      statePlayer := CreateBody(None, 280.0, 535.0, d.playerWidth, d.playerHeight, PlayerId),
      activePShots := [],
      expiredPShots := [],
      activeAliens := CreateAliens(d),
      activeEShots := [],
      expiredEShots := [],
      bottomAliens := None,
      leftMostAlien := None,
      rightMostAlien := None,
      gameShields := Map([CreateBody(None, 50.0, 425.0, ShieldWidth, ShieldHeight, 1),
                          CreateBody(None, 190.0, 425.0, ShieldWidth, ShieldHeight, 2),
                          CreateBody(None, 330.0, 425.0, ShieldWidth, ShieldHeight, 3),
                          CreateBody(None, 470.0, 425.0, ShieldWidth, ShieldHeight, 4)], CreateShield),
      enemyLatDirection := 1.0,
      alienDownShift := false,
      idSequence := 5,
      gameScore := 0,
      playerLives := 3,
      gameOver := false,
      resetAliens := false)
  }

  /** Every alien of a fresh grid has its own id, so comparing aliens by value
      distinguishes them as comparing them by identity does. */
  lemma AlienIdsDistinct(d: Dims, c1: int, r1: int, c2: int, r2: int)
    requires 0 <= c1 < AlienColumns && 0 <= r1 < AlienRows
    requires 0 <= c2 < AlienColumns && 0 <= r2 < AlienRows
    requires (c1, r1) != (c2, r2)
    ensures AlienBody(d, c1, r1).bodyId != AlienBody(d, c2, r2).bodyId
  {
    assert Digits(40) == 2 && Pow10(2) == 100;
    assert Digits(100) == 3 && Digits(160) == 3 && Pow10(3) == 1000;
    var y1, y2 := 40 + 60 * r1, 40 + 60 * r2;
    assert Pow10(Digits(y1)) == (if r1 == 0 then 100 else 1000);
    assert Pow10(Digits(y2)) == (if r2 == 0 then 100 else 1000);
  }

  /** A fresh grid holds 27 aliens. */
  lemma CreateAliensCount(d: Dims)
    ensures GetAlienCount(CreateAliens(d)) == AlienRows * AlienColumns
  {
    FullGridCount(CreateAliens(d));
  }

  lemma {:induction false} FullGridCount(g: Grid)
    requires forall row :: 0 <= row < |g| ==> |g[row]| == AlienColumns
    requires forall row, col :: 0 <= row < |g| && 0 <= col < |g[row]| ==> g[row][col].Some?
    ensures GetAlienCount(g) == AlienColumns * |g|
  {
    if g != [] {
      NonNullFull(g[0]);
      FullGridCount(g[1..]);
    }
  }

  lemma {:induction false} NonNullFull(cells: seq<Option<Body>>)
    requires forall i :: 0 <= i < |cells| ==> cells[i].Some?
    ensures |NonNull(cells)| == |cells|
  {
    if cells != [] {
      NonNullFull(cells[1..]);
    }
  }
}
