/** The welds as objects: a buffer, an array of fragment ends, and the operations that the pool's threads call. */
module WeldBuffers {
  import opened Basics
  import opened WeldPool

  class WeldBuffer {
    const buf: array<Byte>
    const fragmentPos: array<nat>
    var fragmentPosIx: nat
    var pos: nat
    var reserved: bool

    ghost predicate Valid()
      reads this
    {
      buf.Length == ARRAY_SIZE && fragmentPos.Length == MAX_FRAGMENTS && fragmentPosIx <= MAX_FRAGMENTS && pos <= BUFFER_SIZE
    }

    /** The weld as a value. */
    ghost function View(): Weld
      requires Valid()
      reads this, buf, fragmentPos
    {
      Weld(buf[..pos], fragmentPos[..fragmentPosIx], reserved)
    }

    constructor ()
      ensures Valid() && View() == EMPTY_WELD
      ensures fresh(buf) && fresh(fragmentPos)
    {
      buf := new Byte[ARRAY_SIZE](i => 0);
      fragmentPos := new nat[MAX_FRAGMENTS];
      reserved, pos, fragmentPosIx := false, 0, 0;
    }

    method Clear()
      requires Valid()
      modifies this
      ensures Valid() && View() == EMPTY_WELD
    {
      reserved := false;
      pos := 0;
      fragmentPosIx := 0;
    }

    /** Takes the next `size` bytes, which the reader has put behind `pos`, as a fragment; both guards are assertions. */
    method AddFragment(size: nat) returns (failed: Option<Error>)
      requires Valid()
      modifies this, fragmentPos
      ensures Valid()
      ensures failed == if |old(View()).ends| < MAX_FRAGMENTS && size <= BUFFER_SIZE - |old(View()).data|
                        then None else Some(AssertionFailed)
      ensures failed == None ==> old(pos) + size <= buf.Length
      ensures View() == if failed == None then WithFragment(old(View()), buf[old(pos)..old(pos) + size]) else old(View())
    {
      if !(fragmentPosIx < MAX_FRAGMENTS) || !(size <= BUFFER_SIZE - pos) {
        return Some(AssertionFailed);
      }
      ghost var from := pos;
      pos := pos + size;
      fragmentPos[fragmentPosIx] := pos;
      fragmentPosIx := fragmentPosIx + 1;
      assert buf[..pos] == buf[..from] + buf[from..from + size];
      return None;
    }

    method GetSpaceLeft() returns (space: int)
      requires Valid()
      ensures space == SpaceLeft(View())
    {
      if fragmentPosIx >= MAX_FRAGMENTS {
        return 0;
      }
      return BUFFER_SIZE - pos;
    }
  }

  ghost predicate Apart(welds: seq<WeldBuffer>) {
    forall i, j :: 0 <= i < j < |welds| ==>
      welds[i] != welds[j] && welds[i].buf != welds[j].buf && welds[i].fragmentPos != welds[j].fragmentPos
  }

  /** Finds the lowest weld that is free and has room, reserves it, and says how much may be read into it. */
  method GetTunInputBuffer(welds: seq<WeldBuffer>, ghost views: seq<Weld>) returns (found: Option<nat>, space: int)
    requires Apart(welds) && |views| == |welds|
    requires forall i :: 0 <= i < |welds| ==> welds[i].Valid() && welds[i].View() == views[i]
    modifies welds
    ensures found == if FirstFree(views, 0) == |views| then None else Some(FirstFree(views, 0))
    ensures found.Some? ==> space == SpaceLeft(views[found.value]) >= MAX_READ
    ensures forall i :: 0 <= i < |welds| ==>
              welds[i].Valid() && welds[i].View() == if found == Some(i) then views[i].(reserved := true) else views[i]
  {
    var i := 0;
    found, space := None, 0;
    while i < |welds|
      invariant i <= |welds| && found == None
      invariant FirstFree(views, 0) == FirstFree(views, i)
      modifies {}
    {
      assert welds[i].View() == views[i];
      if !welds[i].reserved {
        var left := welds[i].GetSpaceLeft();
        if left >= MAX_READ {
          found := Some(i);
          break;
        }
      }
      i := i + 1;
    }
    if found.Some? {
      welds[found.value].reserved := true;
      assert forall j :: 0 <= j < |welds| && j != i ==> welds[j] != welds[i];
      space := welds[found.value].GetSpaceLeft();
    }
  }

  /** Stores what was read, then either posts the weld to be sent, still reserved, or gives it back. */
  method SendToGlobalWeld(weld: WeldBuffer, readSize: nat) returns (shouldSend: Result<bool>)
    requires weld.Valid()
    modifies weld, weld.fragmentPos
    ensures weld.Valid()
    ensures shouldSend.Failure? <==>
              |old(weld.View()).ends| >= MAX_FRAGMENTS || readSize > BUFFER_SIZE - |old(weld.View()).data|
    ensures shouldSend.Failure? ==> weld.View() == old(weld.View())
    ensures shouldSend.Success? ==>
              && old(weld.pos) + readSize <= weld.buf.Length
              && var stored := WithFragment(old(weld.View()), weld.buf[old(weld.pos)..old(weld.pos) + readSize]);
                 && shouldSend.value == !HasRoom(stored)
                 && weld.View() == if HasRoom(stored) then stored.(reserved := false) else stored
  {
    var failed := weld.AddFragment(readSize);
    if failed.Some? {
      return Failure(failed.value);
    }
    var space := weld.GetSpaceLeft();
    if !(space >= MAX_READ) {
      return Success(true);
    }
    weld.reserved := false;
    return Success(false);
  }
}
