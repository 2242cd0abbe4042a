/**
  A model of the Kilobot board: a fixed-size rectangular grid, stored as a flat
  row-major buffer of optional bot locations, with at most one bot per cell.
  The bot type itself is opaque and appears as the type parameter K.
 */
module Board {

  /** The source's unsigned integer widths. */
  type U8 = x: int | 0 <= x < 0x100
  type U16 = x: int | 0 <= x < 0x1_0000

  /** Canonical facings, in degrees clockwise from north. */
  const NORTH: U16 := 0
  const EAST: U16 := 90
  const SOUTH: U16 := 180
  const WEST: U16 := 270

  datatype LocationError = AlreadyOccupied | NotOccupied | OutOfBounds

  datatype Option<T> = None | Some(value: T)

  datatype Result<T> = Ok(value: T) | Err(error: LocationError)

  /** Number of occupied entries of a row-major cell buffer. */
  function Occupied<T>(cells: seq<Option<T>>): nat
  {
    if cells == [] then 0
    else Occupied(cells[..|cells| - 1]) + (if cells[|cells| - 1].Some? then 1 else 0)
  }

  /** Never more occupied cells than cells. */
  lemma {:induction false} OccupiedAtMostLength<T>(cells: seq<Option<T>>)
    ensures Occupied(cells) <= |cells|
  {
    if cells != [] {
      OccupiedAtMostLength(cells[..|cells| - 1]);
    }
  }

  /** The count is zero exactly when every cell is empty. */
  lemma {:induction false} OccupiedZeroIffEmpty<T>(cells: seq<Option<T>>)
    ensures Occupied(cells) == 0 <==> forall i :: 0 <= i < |cells| ==> cells[i].None?
  {
    if cells != [] {
      var init := cells[..|cells| - 1];
      OccupiedZeroIffEmpty(init);
      assert forall i :: 0 <= i < |init| ==> init[i] == cells[i];
    }
  }

  /** Replacing one cell changes the count by the difference of the two cells' occupancy. */
  lemma {:induction false} OccupiedUpdate<T>(cells: seq<Option<T>>, i: nat, v: Option<T>)
    requires i < |cells|
    ensures Occupied(cells[i := v]) + (if cells[i].Some? then 1 else 0)
            == Occupied(cells) + (if v.Some? then 1 else 0)
  {
    var last := |cells| - 1;
    var updated := cells[i := v];
    if i == last {
      assert updated[..last] == cells[..last];
    } else {
      assert updated[..last] == cells[..last][i := v];
      OccupiedUpdate(cells[..last], i, v);
    }
  }

  /** Filling an empty cell is one more occupied cell. */
  lemma OccupiedAfterPlace<T>(cells: seq<Option<T>>, i: nat, v: T)
    requires i < |cells| && cells[i].None?
    ensures Occupied(cells[i := Some(v)]) == Occupied(cells) + 1
  {
    OccupiedUpdate(cells, i, Some(v));
  }

  /** Emptying an occupied cell is one fewer occupied cell. */
  lemma OccupiedAfterClear<T>(cells: seq<Option<T>>, i: nat)
    requires i < |cells| && cells[i].Some?
    ensures Occupied(cells[i := None]) == Occupied(cells) - 1
  {
    OccupiedUpdate(cells, i, None);
  }

  /** An in-bounds coordinate's row-major index lies inside the buffer. */
  lemma RowMajorBound(x: int, y: int, width: int, height: int)
    requires 0 <= x < width && 0 <= y < height
    ensures x + y * width < width * height
  {
    assert y * width <= (height - 1) * width by {
      assert (height - 1 - y) * width >= 0;
    }
  }

  /** Distinct in-row offsets and rows give distinct row-major indices. */
  lemma RowMajorUnique(x1: int, y1: int, x2: int, y2: int, width: int)
    requires 0 <= x1 < width && 0 <= x2 < width && 0 <= y1 && 0 <= y2
    requires x1 + y1 * width == x2 + y2 * width
    ensures x1 == x2 && y1 == y2
  {
    assert (y2 - y1) * width == y2 * width - y1 * width;
    assert (y1 - y2) * width == y1 * width - y2 * width;
    if y2 > y1 {
      AtLeastOnce(y2 - y1, width);
    }
    if y1 > y2 {
      AtLeastOnce(y1 - y2, width);
    }
  }

  /** A positive number of whole rows spans at least one row. */
  lemma AtLeastOnce(k: int, width: int)
    requires k >= 1 && width >= 0
    ensures k * width >= width
  {
  }

  /** A bot together with the direction it faces. */
  class BotLocation<K> {
    const bot: K
    var facing: U16

    constructor (bot: K, facing: U16)
      ensures this.bot == bot && this.facing == facing
    {
      this.bot := bot;
      this.facing := facing;
    }

    /** The stored facing, in degrees clockwise from north. */
    function GetFacing(): U16
      reads this
    {
      facing
    }

    /** Overwrites the facing, with no range check against 360. */
    method SetFacing(newFacing: U16)
      modifies this
      ensures GetFacing() == newFacing
    {
      facing := newFacing;
    }
  }

  class Board<K> {
    const width: U8
    const height: U8
    /** The 2D grid packed row-major into one buffer. */
    const bots: array<Option<BotLocation<K>>>

    /**
      The board invariant: the buffer holds exactly width*height cells, that product
      fits the u8 arithmetic used for it, and no location is owned by two cells.
     */
    ghost predicate Valid()
      reads bots
    {
      && width * height <= 255
      && bots.Length == width * height
      && forall i, j :: 0 <= i < bots.Length && 0 <= j < bots.Length && i != j && bots[i].Some? && bots[j].Some?
                        ==> bots[i].value != bots[j].value
    }

    /** Number of occupied cells. */
    ghost function Count(): nat
      reads bots
    {
      Occupied(bots[..])
    }

    /** new_board: a width-by-height board with every cell empty. */
    constructor (width: U8, height: U8)
      requires width * height <= 255
      ensures this.width == width && this.height == height
      ensures Valid() && fresh(bots)
      ensures forall i :: 0 <= i < bots.Length ==> bots[i].None?
      ensures Count() == 0
    {
      var size: U8 := width * height;
      var cells := new Option<BotLocation<K>>[size];
      for i := 0 to size
        invariant forall j :: 0 <= j < i ==> cells[j].None?
      {
        cells[i] := None;
      }
      this.width := width;
      this.height := height;
      this.bots := cells;
      new;
      OccupiedZeroIffEmpty(bots[..]);
    }

    /**
      The row-major index of (x, y), computed in u8 as the source does: the
      U8 annotations below are the no-overflow obligations.
     */
    function GetIndexFromCoord(x: U8, y: U8): (r: Result<nat>)
      requires width * height <= 255
      ensures r.Ok? <==> x < width && y < height
      ensures r.Err? ==> r.error == OutOfBounds
      ensures r.Ok? ==> r.value == x + y * width && r.value < width * height
    {
      if x < width && y < height then
        RowMajorBound(x, y, width, height);
        var row: U8 := y * width;
        var index: U8 := x + row;
        Ok(index)
      else
        Err(OutOfBounds)
    }

    /** Two in-bounds coordinates with the same index are the same coordinate. */
    lemma IndexInjective(x1: U8, y1: U8, x2: U8, y2: U8)
      requires width * height <= 255
      requires GetIndexFromCoord(x1, y1).Ok? && GetIndexFromCoord(x1, y1) == GetIndexFromCoord(x2, y2)
      ensures x1 == x2 && y1 == y2
    {
      RowMajorUnique(x1, y1, x2, y2, width);
    }

    /** Every index of the buffer is the index of some in-bounds coordinate. */
    lemma IndexOnto(index: nat)
      requires width * height <= 255
      requires index < width * height
      ensures width > 0 && index / width < height
      ensures GetIndexFromCoord(index % width, index / width) == Ok(index)
    {
    }

    function GetBotAtIndex(index: nat): (r: Result<K>)
      reads bots
      ensures r == Err(OutOfBounds) <==> index >= bots.Length
      ensures r == Err(NotOccupied) <==> index < bots.Length && bots[index].None?
      ensures r.Ok? <==> index < bots.Length && bots[index].Some?
      ensures r.Ok? ==> r.value == bots[index].value.bot
    {
      if index < bots.Length then
        match bots[index]
        case Some(location) => Ok(location.bot)
        case None => Err(NotOccupied)
      else
        Err(OutOfBounds)
    }

    function GetBotAtCoord(x: U8, y: U8): (r: Result<K>)
      requires Valid()
      reads bots
      ensures !(x < width && y < height) ==> r == Err(OutOfBounds)
      ensures x < width && y < height ==> r == GetBotAtIndex(x + y * width) && r != Err(OutOfBounds)
    {
      match GetIndexFromCoord(x, y)
      case Err(e) => Err(e)
      case Ok(index) => GetBotAtIndex(index)
    }

    /**
      Places a new location holding `bot` and `facing` at (x, y), unless (x, y) is
      off the board or already occupied; a failure leaves every cell as it was.
     */
    method AddBotLocation(bot: K, x: U8, y: U8, facing: U16) returns (r: Option<LocationError>)
      requires Valid()
      modifies bots
      ensures x < width && y < height ==> x + y * width < bots.Length
      ensures Valid()
      ensures r == Some(OutOfBounds) <==> !(x < width && y < height)
      ensures r == Some(AlreadyOccupied) <==> x < width && y < height && old(bots[x + y * width]).Some?
      ensures r == None <==> x < width && y < height && old(bots[x + y * width]).None?
      ensures r.Some? ==> bots[..] == old(bots[..])
      ensures r.None? ==> var index := x + y * width;
                          && index < bots.Length
                          && bots[index].Some?
                          && fresh(bots[index].value)
                          && bots[index].value.bot == bot
                          && bots[index].value.facing == facing
                          && (forall j :: 0 <= j < bots.Length && j != index ==> bots[j] == old(bots[j]))
                          && GetBotAtCoord(x, y) == Ok(bot)
                          && Count() == old(Count()) + 1
    {
      if x < width && y < height {
        var desiredIndex: nat;
        match GetIndexFromCoord(x, y) {
          case Ok(index) => desiredIndex := index;
          case Err(e) => return Some(e);
        }
        match bots[desiredIndex] {
          case Some(_) => r := Some(AlreadyOccupied);
          case None =>
            ghost var before := bots[..];
            var location := new BotLocation(bot, facing);
            bots[desiredIndex] := Some(location);
            assert bots[..] == before[desiredIndex := Some(location)];
            OccupiedAfterPlace(before, desiredIndex, location);
            r := None;
        }
      } else {
        r := Some(OutOfBounds);
      }
    }

    /** Removing from an in-range empty cell panics at the source's `unwrap`. */
    predicate PanicsOnRemove(index: nat)
      reads bots
      ensures PanicsOnRemove(index) <==> GetBotAtIndex(index) == Err(NotOccupied)
    {
      index < bots.Length && bots[index].None?
    }

    /**
      Takes the location out of cell `index`, which becomes empty; an index past the
      buffer fails with OutOfBounds and changes nothing. NotOccupied is never returned.
     */
    method RemoveBotLocationAtIndex(index: nat) returns (r: Result<BotLocation<K>>)
      requires Valid()
      requires !PanicsOnRemove(index)
      modifies bots
      ensures Valid()
      ensures index >= bots.Length ==> r == Err(OutOfBounds) && bots[..] == old(bots[..])
      ensures index < bots.Length ==> && r == Ok(old(bots[index]).value)
                                      && bots[..] == old(bots[..])[index := None]
                                      && Count() == old(Count()) - 1
      ensures r.Ok? ==> forall j :: 0 <= j < bots.Length ==> bots[j] != Some(r.value)
    {
      if index < bots.Length {
        // Vec::get on an index already known to be in range
        var got := if index < bots.Length then Some(bots[index]) else None;
        match got
        case Some(_) =>
          ghost var before := bots[..];
          var location := bots[index];
          bots[index] := None;
          assert bots[..] == before[index := None];
          OccupiedAfterClear(before, index);
          r := Ok(location.value);
        case None =>
          r := Err(NotOccupied);
      } else {
        r := Err(OutOfBounds);
      }
    }

    /** remove_bot_location_at_coord: the index form applied to the coordinate's index. */
    method RemoveBotLocationAtCoord(x: U8, y: U8) returns (r: Result<BotLocation<K>>)
      requires Valid()
      requires x < width && y < height ==> !PanicsOnRemove(x + y * width)
      modifies bots
      ensures x < width && y < height ==> x + y * width < bots.Length
      ensures Valid()
      ensures !(x < width && y < height) ==> r == Err(OutOfBounds) && bots[..] == old(bots[..])
      ensures x < width && y < height ==> var index := x + y * width;
                                          && index < bots.Length
                                          && r == Ok(old(bots[index]).value)
                                          && bots[..] == old(bots[..])[index := None]
                                          && GetBotAtCoord(x, y) == Err(NotOccupied)
                                          && Count() == old(Count()) - 1
    {
      match GetIndexFromCoord(x, y)
      case Err(e) =>
        r := Err(e);
      case Ok(index) =>
        r := RemoveBotLocationAtIndex(index);
    }

    /** The occupied-cell count the board's summary reports, accumulated in u16. */
    method NumBots() returns (numBots: U16)
      requires Valid()
      ensures numBots == Count()
      ensures numBots <= width * height
    {
      numBots := 0;
      for index := 0 to bots.Length
        invariant numBots == Occupied(bots[..index])
      {
        assert bots[..index + 1][..index] == bots[..index];
        OccupiedAtMostLength(bots[..index]);
        if bots[index].Some? {
          numBots := numBots + 1;
        }
      }
      assert bots[..bots.Length] == bots[..];
      OccupiedAtMostLength(bots[..]);
    }
  }

  /** Placing a bot and removing it again hands back that bot and facing and restores the board. */
  method AddThenRemove<K>(board: Board<K>, bot: K, x: U8, y: U8, facing: U16) returns (location: BotLocation<K>)
    requires board.Valid()
    requires x < board.width && y < board.height && board.GetBotAtCoord(x, y) == Err(NotOccupied)
    modifies board.bots
    ensures board.Valid()
    ensures location.bot == bot && location.GetFacing() == facing
    ensures board.bots[..] == old(board.bots[..])
  {
    ghost var before := board.bots[..];
    var placed := board.AddBotLocation(bot, x, y, facing);
    var removed := board.RemoveBotLocationAtCoord(x, y);
    location := removed.value;
    assert board.bots[..] == before;
  }

  /** The 4x3 board of the constructor's documentation. */
  method FourByThree() returns (cells: nat, numBots: U16, last: Result<nat>, pastRight: Result<nat>, pastBottom: Result<nat>)
    ensures cells == 12 && numBots == 0
    ensures last == Ok(11)
    ensures pastRight == Err(OutOfBounds) && pastBottom == Err(OutOfBounds)
  {
    var board := new Board<int>(4, 3);
    cells := board.bots.Length;
    numBots := board.NumBots();
    last := board.GetIndexFromCoord(3, 2);
    pastRight := board.GetIndexFromCoord(4, 0);
    pastBottom := board.GetIndexFromCoord(0, 3);
  }
}
