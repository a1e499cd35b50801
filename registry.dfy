/**
 * The slot-recycling registry of spaces (class Space::SpaceManager).
 *
 * Spaces live in a dense array indexed by their ID; a freed slot holds
 * null. `emptyID` is the lowest free index, or the array's length when no
 * slot is free: a new space goes there, appending a slot when it is the
 * length, so IDs are reused lowest first and live spaces are never
 * renumbered.
 */
module Registry {
  import opened Calendar

  datatype Option<T> = None | Some(value: T)

  /**
   * One bookable space (class Space::Space), reduced to what the registry
   * touches: its ID, its name and its calendar. Dimensions, seating,
   * amenity flags, tags and reviews are not modelled.
   */
  class Space {
    var id: nat
    var name: string
    const timer: Time

    /**
     * A new space: like the source's full constructor, its calendar's
     * origin is the clock reading rounded up to the next hour.
     */
    constructor (id: nat, name: string, rate: int, now: nat)
      ensures this.id == id && this.name == name
      ensures fresh(timer) && timer.rate == rate && timer.origin == RoundUpToHour(now) && timer.times == []
    {
      this.id := id;
      this.name := name;
      timer := new Time.WithRate(rate, now);
    }

    /**
     * The copy constructor with an explicit ID: the name, rate and origin are
     * copied, the bookings are not (the copy starts with an empty calendar).
     */
    constructor Copy(other: Space, id: nat)
      ensures this.id == id && name == other.name
      ensures fresh(timer) && timer.rate == other.timer.rate && timer.origin == other.timer.origin
      ensures timer.times == []
    {
      this.id := id;
      name := other.name;
      timer := new Time.Restore(other.timer.rate, other.timer.origin);
    }
  }

  /**
   * `k` is the lowest empty slot of `slots`, or `|slots|` when every slot
   * is occupied.
   */
  ghost predicate LowestFree(slots: seq<Space?>, k: nat)
  {
    && k <= |slots|
    && (forall i :: 0 <= i < k ==> slots[i] != null)
    && (k == |slots| || slots[k] == null)
  }

  /** The index of the first empty slot of `slots`, or its length if none is empty. */
  function FirstNull(slots: seq<Space?>): (k: nat)
    ensures k <= |slots|
    ensures forall i :: 0 <= i < k ==> slots[i] != null
    ensures k == |slots| || slots[k] == null
  {
    if |slots| == 0 || slots[0] == null then 0 else 1 + FirstNull(slots[1..])
  }

  /** The lowest free slot is unique: it is the one FirstNull finds. */
  lemma LowestFreeIsFirstNull(slots: seq<Space?>, k: nat)
    ensures LowestFree(slots, k) <==> k == FirstNull(slots)
  {
  }

  class SpaceManager {
    /** spaces: index = ID, null = a freed slot. */
    var spaces: seq<Space?>
    /** emptyID: where the next space goes. */
    var emptyID: nat

    /** emptyID is the lowest free slot, or the length when none is free. */
    ghost predicate Valid()
      reads this
    {
      LowestFree(spaces, emptyID)
    }

    /** An empty registry: `emptyID = spaces.size()`, that is 0. */
    constructor ()
      ensures Valid() && spaces == [] && emptyID == 0
    {
      spaces := [];
      emptyID := 0;
    }

    /** GetEmptyID: the ID the next added space will get. */
    function GetEmptyID(): (id: nat)
      reads this
      requires Valid()
      ensures id == FirstNull(spaces)
    {
      LowestFreeIsFirstNull(spaces, emptyID);
      emptyID
    }

    /**
     * Put `space` into slot emptyID (appending a slot when emptyID is the
     * length), then move emptyID forward to the next empty slot. Both
     * AddSpace overloads do this.
     */
    method Place(space: Space) returns (id: nat)
      requires Valid()
      modifies this
      ensures Valid()
      ensures id == old(emptyID)
      ensures spaces == if id == |old(spaces)| then old(spaces) + [space] else old(spaces)[id := space]
    {
      var isFull := false;
      if emptyID == |spaces| {
        spaces := spaces + [null];
        isFull := true;
      }
      id := emptyID;
      spaces := spaces[emptyID := space];
      if isFull {
        emptyID := |spaces|;
      } else {
        ghost var placed := spaces;
        while emptyID != |spaces|
          invariant spaces == placed
          invariant id <= emptyID <= |spaces|
          invariant forall i :: 0 <= i < emptyID ==> spaces[i] != null
        {
          if spaces[emptyID] == null {
            break;
          }
          emptyID := emptyID + 1;
        }
      }
    }

    /**
     * AddSpace(const Space&): store a fresh copy of `space` stamped with its
     * new ID, and return that ID.
     */
    method AddSpace(space: Space) returns (id: nat)
      requires Valid()
      modifies this
      ensures Valid()
      ensures id == old(emptyID)
      ensures |spaces| == if id == |old(spaces)| then |old(spaces)| + 1 else |old(spaces)|
      ensures id < |spaces| && spaces[id] != null && fresh(spaces[id]) && fresh(spaces[id].timer)
      ensures forall i :: 0 <= i < |old(spaces)| && i != id ==> spaces[i] == old(spaces)[i]
      ensures spaces[id].id == id && spaces[id].name == space.name
      ensures spaces[id].timer.rate == space.timer.rate && spaces[id].timer.origin == space.timer.origin
      ensures spaces[id].timer.times == []
    {
      var copy := new Space.Copy(space, emptyID);
      id := Place(copy);
    }

    /**
     * AddSpace(Space*): store the object itself and return its slot. As in
     * the source, the object's own `id` is left as it was.
     */
    method AddSpaceObject(space: Space) returns (id: nat)
      requires Valid()
      modifies this
      ensures Valid()
      ensures id == old(emptyID)
      ensures spaces == if id == |old(spaces)| then old(spaces) + [space] else old(spaces)[id := space]
    {
      id := Place(space);
    }

    /**
     * DeleteSpace: free slot `id` if it holds a space, lowering emptyID to it
     * when it is below. Reports whether a space was deleted; the source
     * returns false in every case (see DeleteSpaceAsWritten).
     */
    method DeleteSpace(id: nat) returns (deleted: bool)
      requires Valid()
      modifies this
      ensures Valid()
      ensures deleted <==> id < |old(spaces)| && old(spaces)[id] != null
      ensures spaces == if deleted then old(spaces)[id := null] else old(spaces)
      ensures emptyID == if deleted && id < old(emptyID) then id else old(emptyID)
    {
      if id >= |spaces| {
        return false;
      }
      if spaces[id] != null {
        spaces := spaces[id := null];
        if emptyID > id {
          emptyID := id;
        }
        return true;
      }
      return false;
    }

    /** GetSpace: the space with this ID, or null if out of range or freed. */
    function GetSpace(id: nat): (space: Space?)
      reads this
      ensures space != null <==> id < |spaces| && spaces[id] != null
      ensures space != null ==> space == spaces[id]
    {
      if id >= |spaces| then null else spaces[id]
    }

    /**
     * The slot rebuild of LoadData. `stored` is the parsed file, one entry per
     * slot (null for a freed one), or None when the file cannot be opened.
     * The slots are taken in order and emptyID becomes the index of the first
     * empty one, or the length when none is empty. Reading and parsing the
     * file are not modelled.
     */
    method LoadData(stored: Option<seq<Space?>>) returns (ok: bool)
      modifies this
      ensures ok <==> stored.Some?
      ensures !ok ==> spaces == old(spaces) && emptyID == old(emptyID)
      ensures ok ==> spaces == stored.value && emptyID == FirstNull(stored.value) && Valid()
    {
      if stored.None? {
        return false;
      }
      var restored := stored.value;
      spaces := [];
      var isFull := true;
      for n := 0 to |restored|
        invariant spaces == restored[..n]
        invariant isFull <==> forall i :: 0 <= i < n ==> restored[i] != null
        invariant !isFull ==> LowestFree(restored[..n], emptyID)
      {
        if restored[n] == null {
          if isFull {
            isFull := false;
            emptyID := |spaces|;
          }
          spaces := spaces + [null];
        } else {
          spaces := spaces + [restored[n]];
        }
      }
      assert restored[..|restored|] == restored;
      if isFull {
        emptyID := |spaces|;
      }
      LowestFreeIsFirstNull(restored, emptyID);
      return true;
    }

    /**
     * DeleteSpace as written: the same state change as DeleteSpace, but the
     * result is false on every path, including the one that deletes.
     */
    method DeleteSpaceAsWritten(id: nat) returns (reported: bool)
      requires Valid()
      modifies this
      ensures Valid()
      ensures !reported
      ensures var deleted := id < |old(spaces)| && old(spaces)[id] != null;
        && spaces == (if deleted then old(spaces)[id := null] else old(spaces))
        && emptyID == (if deleted && id < old(emptyID) then id else old(emptyID))
    {
      if id >= |spaces| {
        return false;
      }
      if spaces[id] != null {
        spaces := spaces[id := null];
        if emptyID > id {
          emptyID := id;
        }
      }
      return false;
    }
  }

  /**
   * The source's ID-recycling behaviour: three spaces get IDs 0, 1 and 2;
   * after 1 is deleted the next space gets 1, and the one after that is
   * appended as 3.
   */
  method RecyclingExample(a: Space, b: Space, c: Space, d: Space, e: Space)
      returns (ids: seq<nat>, deleted: bool)
    ensures ids == [0, 1, 2, 1, 3] && deleted
  {
    var m := new SpaceManager();
    var i0 := m.AddSpaceObject(a);
    var i1 := m.AddSpaceObject(b);
    var i2 := m.AddSpaceObject(c);
    deleted := m.DeleteSpace(1);
    var i3 := m.AddSpaceObject(d);
    var i4 := m.AddSpaceObject(e);
    ids := [i0, i1, i2, i3, i4];
  }

  /**
   * DeleteSpace as written reports failure for a delete that does free the
   * slot: afterwards the space is gone, yet the result is false.
   */
  method AsWrittenDeleteReportsFailure(s: Space) returns (freed: bool, reported: bool)
    ensures freed && !reported
  {
    var m := new SpaceManager();
    var id := m.AddSpaceObject(s);
    reported := m.DeleteSpaceAsWritten(id);
    freed := m.GetSpace(id) == null;
  }
}
