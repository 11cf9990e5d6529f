/** The previous/current position record of src/touchPos.ts. Touch events
    carry only the current position of each touch, so the controller keeps
    one of these per touch to know where it was before. */
module TouchPositions {
  import opened Util

  /** A two-slot shift register of positions: the current one and the one
      before it. */
  datatype Track = Track(pos: Vec2, prev: Vec2)

  /** A freshly created record: it has not moved, so both slots hold the
      starting position. */
  function Start(p: Vec2): (t: Track)
    ensures t.pos == t.prev == p
  {
    Track(p, p)
  }

  /** Moving to p: the old current position becomes the previous one. */
  function Shift(t: Track, p: Vec2): (r: Track)
    ensures r.pos == p && r.prev == t.pos
  {
    Track(p, t.pos)
  }

  /** Two moves to the same position leave the record at rest there, as if
      it had just been created. */
  lemma ShiftTwiceSettles(t: Track, p: Vec2)
    ensures Shift(Shift(t, p), p) == Start(p)
  {
  }

  /** Two moves forget everything that came before them. */
  lemma ShiftTwiceForgets(t: Track, u: Track, p: Vec2, q: Vec2)
    ensures Shift(Shift(t, p), q) == Shift(Shift(u, p), q)
  {
  }

  /** A record at rest stays at rest when moved to where it already is. */
  lemma ShiftAtRest(p: Vec2)
    ensures Shift(Start(p), p) == Start(p)
  {
  }

  class TouchPos {
    var posX: real
    var posY: real
    var prevPosX: real
    var prevPosY: real

    /** The record's two positions as a value. */
    function View(): Track
      reads this
    {
      Track(Vec2(posX, posY), Vec2(prevPosX, prevPosY))
    }

    constructor (posX: real, posY: real)
      ensures View() == Start(Vec2(posX, posY))
    {
      this.posX := posX;
      this.posY := posY;
      prevPosX := posX;
      prevPosY := posY;
    }

    method SetPos(posX: real, posY: real)
      modifies this
      ensures View() == Shift(old(View()), Vec2(posX, posY))
    {
      prevPosX := this.posX;
      prevPosY := this.posY;
      this.posX := posX;
      this.posY := posY;
    }

    function GetPosX(): real
      reads this
    {
      posX
    }

    function GetPosY(): real
      reads this
    {
      posY
    }

    function GetPrevPosX(): real
      reads this
    {
      prevPosX
    }

    function GetPrevPosY(): real
      reads this
    {
      prevPosY
    }
  }
}
