/** Terminal cells and headings of the snake game (src/main.rs). */
module Positions {

  /** Rust's `u16`: terminal columns and rows. */
  type u16 = n: int | 0 <= n < 0x1_0000

  const U16_MAX: int := 0xFFFF

  /** A terminal cell: column `x` (growing rightward), row `y` (growing downward). */
  datatype Pos = Pos(x: u16, y: u16)

  datatype Direction = Left | Right | Up | Down

  /** `Direction::is_updown`: the vertical headings. */
  function IsUpdown(d: Direction): (r: bool)
    ensures r <==> d == Up || d == Down
  {
    match d
    case Left | Right => false
    case Up | Down => true
  }

  /** The heading that would turn the snake back onto itself. */
  function Opposite(d: Direction): Direction
  {
    match d
    case Left => Right
    case Right => Left
    case Up => Down
    case Down => Up
  }

  /** Reversing twice is the identity, never a fixed point, and keeps the axis. */
  lemma OppositeInvolution(d: Direction)
    ensures Opposite(Opposite(d)) == d && Opposite(d) != d
    ensures IsUpdown(Opposite(d)) == IsUpdown(d)
  {
  }

  /** Moving one cell in `d` from `p` stays inside `u16`: the `+= 1` and
      `-= 1` of `move_in` neither overflow nor underflow. */
  predicate CanShift(p: Pos, d: Direction)
  {
    match d
    case Down => p.y < U16_MAX
    case Up => p.y > 0
    case Left => p.x > 0
    case Right => p.x < U16_MAX
  }

  /** The cell one step away from `p` in `d` (Down y+1, Up y-1, Left x-1, Right x+1). */
  function Shift(p: Pos, d: Direction): Pos
    requires CanShift(p, d)
  {
    match d
    case Down => p.(y := p.y + 1)
    case Up => p.(y := p.y - 1)
    case Left => p.(x := p.x - 1)
    case Right => p.(x := p.x + 1)
  }

  /** A shift always leaves the cell, moves along one axis only, and is undone
      by the opposite shift. */
  lemma ShiftReverse(p: Pos, d: Direction)
    requires CanShift(p, d)
    ensures Shift(p, d) != p
    ensures IsUpdown(d) ==> Shift(p, d).x == p.x
    ensures !IsUpdown(d) ==> Shift(p, d).y == p.y
    ensures CanShift(Shift(p, d), Opposite(d)) && Shift(Shift(p, d), Opposite(d)) == p
  {
  }
}
