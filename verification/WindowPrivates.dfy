/** The private record of a double-buffered window, with its array of names: two slots inline, more
    in an array that grows by four and is given up again when two names remain. */
module WindowPrivates {
  import opened Resources
  import opened DbeState

  const DBE_INIT_MAX_IDS := 2
  const DBE_INCR_MAX_IDS := 4
  const DBE_FREE_ID_ELEMENT: XID := 0

  function IndexOf(names: seq<XID>, id: XID): (i: nat)
    ensures i <= |names| && id !in names[..i]
    ensures i < |names| ==> names[i] == id
    ensures i < |names| <==> id in names
  {
    if names == [] || names[0] == id then 0 else
      var i := 1 + IndexOf(names[1..], id);
      assert names[..i] == [names[0]] + names[1..][..i - 1];
      i
  }

  /** names without their first id. */
  function Unlisted(names: seq<XID>, id: XID): seq<XID>
    requires id in names
  {
    var i := IndexOf(names, id);
    names[..i] + names[i + 1..]
  }

  class WindowPriv {
    const pWindow: XID
    const initIDs: array<XID>
    var swapAction: int
    var width: nat
    var height: nat
    var x: int
    var y: int
    var nBufferIDs: nat
    var maxAvailableIDs: nat
    var IDs: array<XID>
    var pFrontBuffer: PixId
    var pBackBuffer: PixId

    /** The names come first, the slots after them are free; the array in use is the inline one or a
        longer one of length 2 + 4k. */
    ghost predicate Slots()
      reads this, IDs
    {
      && initIDs.Length == DBE_INIT_MAX_IDS
      && IDs.Length == maxAvailableIDs
      && (IDs == initIDs ||
          (maxAvailableIDs > DBE_INIT_MAX_IDS && maxAvailableIDs % DBE_INCR_MAX_IDS == DBE_INIT_MAX_IDS))
      && nBufferIDs <= maxAvailableIDs
      && (forall i :: 0 <= i < nBufferIDs ==> IDs[i] != DBE_FREE_ID_ELEMENT)
      && (forall i :: nBufferIDs <= i < maxAvailableIDs ==> IDs[i] == DBE_FREE_ID_ELEMENT)
    }

    /** Between requests the inline array is in use exactly when it can hold the names. */
    ghost predicate Valid()
      reads this, IDs
    {
      Slots() && (IDs == initIDs <==> nBufferIDs <= DBE_INIT_MAX_IDS)
    }

    ghost function Names(): seq<XID>
      requires Slots()
      reads this, IDs
    {
      IDs[..nBufferIDs]
    }

    ghost function View(): Record
      requires Slots()
      reads this, IDs
    {
      Record(Names(), pFrontBuffer, pBackBuffer, width, height, x, y, swapAction)
    }

    constructor (w: XID, win: Window)
      ensures Valid() && pWindow == w && View() == Blank(win)
      ensures fresh(initIDs) && fresh(IDs)
    {
      pWindow := w;
      width, height := win.width, win.height;
      x, y := win.x, win.y;
      nBufferIDs := 0;
      swapAction := 0;
      pFrontBuffer, pBackBuffer := 0, 0;
      maxAvailableIDs := DBE_INIT_MAX_IDS;
      initIDs := new XID[DBE_INIT_MAX_IDS](i => DBE_FREE_ID_ELEMENT);
      new;
      IDs := initIDs;
    }

    /** The first free slot, growing the array when there is none. */
    method FreeSlot() returns (slot: nat)
      requires Valid()
      modifies this`IDs, this`maxAvailableIDs
      ensures Slots() && Names() == old(Names())
      ensures slot == nBufferIDs < maxAvailableIDs
      ensures IDs == old(IDs) || (fresh(IDs) && nBufferIDs >= DBE_INIT_MAX_IDS)
      ensures IDs == initIDs <==> nBufferIDs < DBE_INIT_MAX_IDS
    {
      slot := 0;
      while slot < maxAvailableIDs && IDs[slot] != DBE_FREE_ID_ELEMENT
        invariant slot <= nBufferIDs
      {
        slot := slot + 1;
      }
      if slot == maxAvailableIDs {
        Grow();
      }
    }

    /** malloc or realloc, then clear what is not in use, then bring over the inline names. */
    method Grow()
      requires Valid() && nBufferIDs == maxAvailableIDs
      modifies this`IDs, this`maxAvailableIDs
      ensures Slots() && Names() == old(Names())
      ensures fresh(IDs) && maxAvailableIDs == old(maxAvailableIDs) + DBE_INCR_MAX_IDS
    {
      var wasInline := maxAvailableIDs == DBE_INIT_MAX_IDS;
      var grown := new XID[maxAvailableIDs + DBE_INCR_MAX_IDS];
      if !wasInline {
        forall i | 0 <= i < maxAvailableIDs {
          grown[i] := IDs[i];
        }
      }
      forall i | nBufferIDs <= i < maxAvailableIDs + DBE_INCR_MAX_IDS {
        grown[i] := DBE_FREE_ID_ELEMENT;
      }
      if wasInline {
        forall i | 0 <= i < DBE_INIT_MAX_IDS {
          grown[i] := initIDs[i];
        }
      }
      IDs := grown;
      maxAvailableIDs := maxAvailableIDs + DBE_INCR_MAX_IDS;
    }

    /** Enters id in the slot FreeSlot found: the names grow by id at their end. */
    method Append(slot: nat, id: XID)
      requires Slots() && slot == nBufferIDs < maxAvailableIDs && id != DBE_FREE_ID_ELEMENT
      requires IDs == initIDs <==> nBufferIDs < DBE_INIT_MAX_IDS
      modifies this`nBufferIDs, IDs
      ensures Valid() && Names() == old(Names()) + [id]
    {
      IDs[slot] := id;
      nBufferIDs := nBufferIDs + 1;
    }

    /** Enters id as a new name, in a free slot or a grown array. */
    method Add(id: XID, action: int)
      requires Valid() && id != DBE_FREE_ID_ELEMENT
      modifies this`IDs, this`maxAvailableIDs, this`nBufferIDs, this`swapAction, IDs
      ensures Valid() && View() == old(View()).(names := old(Names()) + [id], action := action)
      ensures IDs == old(IDs) || fresh(IDs)
    {
      var slot := FreeSlot();
      Append(slot, id);
      swapAction := action;
    }

    /** Takes out one name, keeping the order of the others; false when it is not there. */
    method Remove(id: XID) returns (found: bool)
      requires Valid()
      modifies this`nBufferIDs, this`maxAvailableIDs, this`IDs, IDs, initIDs
      ensures Valid() && (IDs == old(IDs) || IDs == initIDs)
      ensures found == (id in old(Names()))
      ensures Names() == if found then Unlisted(old(Names()), id) else old(Names())
    {
      var i := 0;
      while i < nBufferIDs && IDs[i] != id
        invariant i <= nBufferIDs && id !in IDs[..i]
      {
        i := i + 1;
      }
      if i == nBufferIDs {
        return false;
      }
      FirstAt(Names(), id, i);
      RemoveAt(i);
      if maxAvailableIDs > DBE_INIT_MAX_IDS && nBufferIDs == DBE_INIT_MAX_IDS {
        BackInline();
      }
      found := true;
    }

    /** The names after the one at i move down by one. */
    method RemoveAt(i: nat)
      requires Slots() && i < nBufferIDs
      modifies this`nBufferIDs, IDs
      ensures Slots() && nBufferIDs == old(nBufferIDs) - 1
      ensures Names() == old(Names())[..i] + old(Names())[i + 1..]
    {
      ghost var names := Names();
      // memmove of the names after it
      forall j | i <= j < nBufferIDs - 1 {
        IDs[j] := IDs[j + 1];
      }
      IDs[nBufferIDs - 1] := DBE_FREE_ID_ELEMENT;
      nBufferIDs := nBufferIDs - 1;
      assert IDs[..nBufferIDs] == names[..i] + names[i + 1..];
    }

    /** The last two names go back into the inline array. */
    method BackInline()
      requires Slots() && maxAvailableIDs > DBE_INIT_MAX_IDS && nBufferIDs == DBE_INIT_MAX_IDS
      modifies this`maxAvailableIDs, this`IDs, initIDs
      ensures Slots() && IDs == initIDs && Names() == old(Names())
    {
      forall j | 0 <= j < DBE_INIT_MAX_IDS {
        initIDs[j] := IDs[j];
      }
      IDs := initIDs;
      maxAvailableIDs := DBE_INIT_MAX_IDS;
    }
  }

  lemma FirstAt(names: seq<XID>, id: XID, i: nat)
    requires i < |names| && names[i] == id && id !in names[..i]
    ensures IndexOf(names, id) == i
  {
  }
}
