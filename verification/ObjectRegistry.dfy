/** The object registry of src/game/ObjectMgr.cpp and ObjectMgr.h: an array indexed by extent, a set of
    objects and a set of players that have to agree. */
module ObjectRegistry {

  const INVALID_EXTENT := 0x0000
  const MAX_EXTENT := 0x7FFF
  const PLAYER_TYPE := 0x2C9

  class Object {
    const objectType: nat
    const isImmobile: bool
    var m_extent: nat

    constructor (objectType: nat, isImmobile: bool, extent: nat)
      ensures this.objectType == objectType && this.isImmobile == isImmobile && m_extent == extent
    {
      this.objectType, this.isImmobile, m_extent := objectType, isImmobile, extent;
    }
  }

  ghost function Players(objects: set<Object>): set<Object> {
    set o | o in objects && o.objectType == PLAYER_TYPE
  }

  ghost predicate HasFree(slots: seq<Object?>) {
    exists e :: 1 <= e < |slots| && slots[e] == null
  }

  /** r is the least free extent, or the invalid one if none is free. */
  ghost predicate IsLeastFree(slots: seq<Object?>, r: nat) {
    if r == INVALID_EXTENT then !HasFree(slots)
    else r < |slots| && slots[r] == null && forall e :: 1 <= e < r ==> slots[e] != null
  }

  class ObjectMgr {
    const objectExtents: array<Object?>
    var objectTable: set<Object>
    var playerList: set<Object>

    /** Slot e holds o exactly when o is registered with extent e. */
    ghost predicate Indexed()
      reads this, objectExtents, objectTable
    {
      && objectExtents.Length == MAX_EXTENT + 1
      && (forall e :: 0 <= e <= MAX_EXTENT && objectExtents[e] != null ==>
            objectExtents[e] in objectTable && objectExtents[e].m_extent == e)
      && (forall o <- objectTable :: 1 <= o.m_extent <= MAX_EXTENT && objectExtents[o.m_extent] == o)
    }

    ghost predicate Valid()
      reads this, objectExtents, objectTable
    {
      Indexed() && playerList == Players(objectTable)
    }

    constructor ()
      ensures Valid() && objectTable == {} && fresh(objectExtents)
    {
      objectExtents := new Object?[MAX_EXTENT + 1](_ => null);
      objectTable, playerList := {}, {};
    }

    function GetImmobileObj(extent: nat): (r: Object?)
      requires objectExtents.Length == MAX_EXTENT + 1
      reads objectExtents
    {
      if extent > MAX_EXTENT then null else objectExtents[extent]
    }

    function GetObj(extent: nat): (r: Object?)
      requires objectExtents.Length == MAX_EXTENT + 1
      reads objectExtents
    {
      var obj := GetImmobileObj(extent);
      if obj != null && !obj.isImmobile then obj else null
    }

    /** In terms of the registered objects: available are the extents 1..0x7FFF that none of them has. */
    lemma AvailableIff(extent: nat)
      requires Valid()
      ensures IsExtentAvailable(extent) <==> 1 <= extent <= 0x7FFF && forall o <- objectTable :: o.m_extent != extent
    {
    }

    /** And one is free unless every one of them is some object's. */
    lemma FreeIff()
      requires Valid()
      ensures !HasFree(objectExtents[..]) <==> forall e :: 1 <= e <= 0x7FFF ==> Has(e)
    {
      var slots := objectExtents[..];
      forall e | 1 <= e <= 0x7FFF
        ensures slots[e] != null <==> Has(e)
      {
      }
    }

    /** Some registered object has that extent. */
    ghost predicate Has(extent: nat)
      reads `objectTable, objectTable
    {
      exists o <- objectTable :: o.m_extent == extent
    }

    predicate IsExtentAvailable(extent: nat)
      requires objectExtents.Length == MAX_EXTENT + 1
      reads objectExtents
    {
      !(extent == 0 || extent > MAX_EXTENT || objectExtents[extent] != null)
    }

    method RequestExtent() returns (extent: nat)
      requires objectExtents.Length == MAX_EXTENT + 1
      ensures extent <= MAX_EXTENT && IsLeastFree(objectExtents[..], extent)
      ensures extent != 0 ==> objectExtents[extent] == null && forall e :: 1 <= e < extent ==> objectExtents[e] != null
      ensures extent == 0 ==> forall e :: 1 <= e <= 0x7FFF ==> objectExtents[e] != null
    {
      var ptr := 1;
      while ptr < MAX_EXTENT + 1 && objectExtents[ptr] != null
        invariant 1 <= ptr <= MAX_EXTENT + 1
        invariant forall e :: 1 <= e < ptr ==> objectExtents[e] != null
      {
        ptr := ptr + 1;
      }
      if ptr >= MAX_EXTENT + 1 {
        return INVALID_EXTENT;
      }
      extent := ptr;
    }

    /** Registers obj under its own extent if that is free and otherwise under the least free one. The
        registry stays in order exactly for a mobile object, if it is known already, and for any new
        object while an extent is free. */
    method AddObject(obj: Object)
      requires Valid()
      modifies this, objectExtents, obj`m_extent
      ensures Valid() <==> if obj in old(objectTable) then !obj.isImmobile else HasFree(old(objectExtents[..]))
      ensures obj in old(objectTable) && !obj.isImmobile ==>
                obj.m_extent == old(obj.m_extent) && objectTable == old(objectTable)
                && playerList == old(playerList) && objectExtents[..] == old(objectExtents[..])
      ensures !(obj in old(objectTable) && !obj.isImmobile) ==>
                && (if old(IsExtentAvailable(obj.m_extent)) then obj.m_extent == old(obj.m_extent)
                    else IsLeastFree(old(objectExtents[..]), obj.m_extent))
                && objectTable == old(objectTable) + {obj}
                && objectExtents[..] == old(objectExtents[..])[obj.m_extent := obj]
                && playerList == old(playerList) + (if obj.objectType == PLAYER_TYPE then {obj} else {})
      ensures obj !in old(objectTable) && old(HasFree(objectExtents[..])) ==>
                (obj.m_extent == old(obj.m_extent) <==>
                  1 <= old(obj.m_extent) <= 0x7FFF && forall o <- old(objectTable) :: old(o.m_extent) != old(obj.m_extent))
    {
      AvailableIff(obj.m_extent);
      if GetObj(obj.m_extent) == obj {
        return;
      }
      ghost var slots, was := objectExtents[..], obj.m_extent;
      if obj.m_extent == 0 || !IsExtentAvailable(obj.m_extent) {
        obj.m_extent := RequestExtent();
      }
      ghost var extent := obj.m_extent;
      assert extent != INVALID_EXTENT ==> slots[extent] == null;
      objectExtents[obj.m_extent] := obj;
      objectTable := objectTable + {obj};
      if obj.objectType == PLAYER_TYPE {
        playerList := playerList + {obj};
      }
      if obj in old(objectTable) {
        assert slots[was] == obj && extent != was && objectExtents[was] == obj;
      } else if extent == INVALID_EXTENT {
        assert !HasFree(slots) && obj in objectTable;
      } else {
        assert HasFree(slots) && Indexed();
      }
    }

    method RemoveObject(obj: Object) returns (removed: bool)
      requires Valid()
      modifies this, objectExtents
      ensures Valid()
      ensures removed == (obj in old(objectTable)) && objectTable == old(objectTable) - {obj}
      ensures playerList == old(playerList) - {obj}
      ensures objectExtents[..] == if removed then old(objectExtents[..])[obj.m_extent := null] else old(objectExtents[..])
    {
      if obj !in objectTable {
        return false;
      }
      objectTable := objectTable - {obj};
      if obj.objectType == PLAYER_TYPE {
        playerList := playerList - {obj};
      }
      objectExtents[obj.m_extent] := null;
      removed := true;
    }

    /** Moves obj to a free extent, registering it if it was not. */
    method ChangeObjectExtent(obj: Object, newExtent: nat) returns (changed: bool)
      requires Valid()
      modifies this, objectExtents, obj`m_extent
      ensures Valid()
      ensures changed <==> 1 <= newExtent <= 0x7FFF && forall o <- old(objectTable) :: old(o.m_extent) != newExtent
      ensures !changed ==> obj.m_extent == old(obj.m_extent) && objectTable == old(objectTable)
                           && objectExtents[..] == old(objectExtents[..])
      ensures changed ==>
                && obj.m_extent == newExtent && objectTable == old(objectTable) + {obj}
                && objectExtents[..] == (if obj in old(objectTable)
                                         then old(objectExtents[..])[old(obj.m_extent) := null]
                                         else old(objectExtents[..]))[newExtent := obj]
    {
      AvailableIff(newExtent);
      if !IsExtentAvailable(newExtent) {
        return false;
      }
      var _ := RemoveObject(obj);
      obj.m_extent := newExtent;
      assert objectExtents[..][newExtent] == null;
      AddObject(obj);
      changed := true;
    }

    /** Extents are distinct, looking an extent up finds the object registered under it, and the players
        are the objects of type 0x2C9. */
    lemma LookupIsExact(o: Object, p: Object)
      requires Valid() && o in objectTable && p in objectTable
      ensures o.m_extent == p.m_extent <==> o == p
      ensures GetImmobileObj(o.m_extent) == o
      ensures o in playerList <==> o.objectType == 0x2C9
      ensures GetObj(o.m_extent) == if o.isImmobile then null else o
    {
    }
  }

  // ---------------------------------------------------------------------------
  // Runs
  // ---------------------------------------------------------------------------

  datatype Step = Adding(obj: Object) | Removing(obj: Object) | Moving(obj: Object, newExtent: nat)

  /** A step keeps the registry in order unless it adds a known immobile object, or a new object while
      no extent is free. */
  method Perform(mgr: ObjectMgr, step: Step) returns (kept: bool)
    requires mgr.Valid()
    modifies mgr, mgr.objectExtents, step.obj`m_extent
    ensures kept == !(step.Adding? && if step.obj in old(mgr.objectTable) then step.obj.isImmobile
                                      else !HasFree(old(mgr.objectExtents[..])))
    ensures mgr.Valid() <==> kept
  {
    match step {
      case Adding(obj) =>
        var known := obj in mgr.objectTable;
        var free := mgr.RequestExtent();
        kept := if known then !obj.isImmobile else free != INVALID_EXTENT;
        mgr.AddObject(obj);
      case Removing(obj) =>
        var _ := mgr.RemoveObject(obj);
        kept := true;
      case Moving(obj, newExtent) =>
        var _ := mgr.ChangeObjectExtent(obj, newExtent);
        kept := true;
    }
  }

  /** Any sequence of steps, up to the first that is not kept: until then the array, the table and the
      player list agree, and that step ends it. */
  method PerformAll(mgr: ObjectMgr, steps: seq<Step>) returns (done: nat, kept: bool)
    requires mgr.Valid()
    modifies mgr, mgr.objectExtents, (set s <- steps :: s.obj)`m_extent
    ensures done <= |steps| && (kept ==> done == |steps|) && (!kept ==> done > 0)
    ensures mgr.Valid() <==> kept
  {
    done, kept := 0, true;
    while done < |steps| && kept
      invariant done <= |steps| && (!kept ==> done > 0)
      invariant mgr.Valid() <==> kept
    {
      kept := Perform(mgr, steps[done]);
      done := done + 1;
    }
  }

  /** An immobile object that is added twice has two slots. */
  method AddTwice() returns (mgr: ObjectMgr, obj: Object)
    ensures !mgr.Valid() && obj in mgr.objectTable
  {
    mgr := new ObjectMgr();
    obj := new Object(1, true, 5);
    assert mgr.objectExtents[..][5] == null;
    mgr.AddObject(obj);
    mgr.AddObject(obj);
  }
}
