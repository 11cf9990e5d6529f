/** src/touchTracker.ts: the same previous/current position record as
    TouchPos under another name; it follows the same Track abstraction. */
module TouchTracking {
  import opened Util
  import opened TouchPositions

  class TouchTracker {
    var posX: real
    var posY: real
    var prevPosX: real
    var prevPosY: real

    /** The record's two positions as a value. */
    function View(): Track
      reads this
    {
      Track(Vec2(posX, posY), Vec2(prevPosX, prevPosY))
    }

    constructor (posX: real, posY: real)
      ensures View() == Start(Vec2(posX, posY))
    {
      this.posX := posX;
      this.posY := posY;
      prevPosX := posX;
      prevPosY := posY;
    }

    method SetPos(posX: real, posY: real)
      modifies this
      ensures View() == Shift(old(View()), Vec2(posX, posY))
    {
      prevPosX := this.posX;
      prevPosY := this.posY;
      this.posX := posX;
      this.posY := posY;
    }

    function GetPosX(): real
      reads this
    {
      posX
    }

    function GetPosY(): real
      reads this
    {
      posY
    }

    function GetPrevPosX(): real
      reads this
    {
      prevPosX
    }

    function GetPrevPosY(): real
      reads this
    {
      prevPosY
    }
  }
}
