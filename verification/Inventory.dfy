/** Inventories and equipment: src/game/Object.cpp, src/game/Unit.cpp and the overrides in
    src/game/Player.cpp. One class stands for the source's whole hierarchy, because anything can be
    picked up and anything can hold. */
module Inventory {
  import opened Basics

  datatype GridPair = GridPair(x: nat, y: nat)

  /** The position of everything that is in an inventory. */
  const NOWHERE := GridPair(5880, 5880)

  const SLOT_SIZE := 13
  const SLOT_FLAG := 9
  const SLOT_QUIVER := 10
  const SLOT_WEP_PRIMARY := 11
  const SUBCLASS_FLAG := 0x20
  const SUBCLASS_QUIVER := 0x21

  datatype Kind = PlainObject | PlainUnit | PlayerUnit

  function Square(x: int): nat {
    if x < 0 then -x * -x else x * x
  }

  /** The truncated distance exceeds max: it is at least max + 1. */
  predicate Farther(a: GridPair, b: GridPair, max: nat) {
    Square(a.x - b.x) + Square(a.y - b.y) >= Square(max + 1)
  }

  /** With d the distance, truncated: farther means that d exceeds max. */
  lemma FartherIff(a: GridPair, b: GridPair, max: nat, d: nat)
    requires var square := (a.x - b.x) * (a.x - b.x) + (a.y - b.y) * (a.y - b.y);
             d * d <= square < (d + 1) * (d + 1)
    ensures Farther(a, b, max) <==> d > max
  {
    SquareIs(a.x - b.x);
    SquareIs(a.y - b.y);
    SquareIs(max + 1);
    if d > max {
      MulMonotone(max + 1, d, max + 1);
      MulMonotone(max + 1, d, d);
    } else {
      MulMonotone(d + 1, max + 1, d + 1);
      MulMonotone(d + 1, max + 1, max + 1);
    }
  }

  lemma SquareIs(x: int)
    ensures Square(x) == x * x
  {
  }

  /** The bit 0x20 marks the subclasses of weapons. */
  predicate IsWeapon(subclass: nat) {
    subclass / 0x20 % 2 == 1
  }

  /** The slot an item goes to; armor subclasses are slot numbers. */
  function SlotOf(subclass: nat): nat {
    if IsWeapon(subclass)
    then if subclass == SUBCLASS_QUIVER then SLOT_QUIVER
         else if subclass == SUBCLASS_FLAG then SLOT_FLAG
         else SLOT_WEP_PRIMARY
    else subclass
  }

  /** Weapons share slot 11, but for flags in 9 and quivers in 10; armor has its own number, and none from
      13 on can be worn. */
  lemma SlotOfCases(subclass: nat)
    ensures subclass % 64 < 32 ==> SlotOf(subclass) == subclass
    ensures subclass % 64 >= 32 ==> SlotOf(subclass) == if subclass == 32 then 9 else if subclass == 33 then 10 else 11
    ensures SlotOf(subclass) < SLOT_SIZE <==> subclass % 64 >= 32 || subclass < 13
  {
    assert subclass / 32 % 2 == 1 <==> subclass % 64 >= 32;
  }

  class Thing {
    const kind: Kind
    const subclass: nat
    var position: GridPair
    var inventory: set<Thing>
    var equipment: seq<Thing?>

    constructor (kind: Kind, subclass: nat, position: GridPair)
      ensures this.kind == kind && this.subclass == subclass && this.position == position
      ensures inventory == {} && Bare()
    {
      this.kind, this.subclass, this.position := kind, subclass, position;
      inventory, equipment := {}, seq(SLOT_SIZE, _ => null);
    }

    predicate InAnInventory(): (r: bool)
      reads this
      ensures r <==> position.x == 5880 && position.y == 5880
    {
      position == NOWHERE
    }

    /** Nothing is equipped. */
    predicate Bare()
      reads this
    {
      |equipment| == SLOT_SIZE && forall i :: 0 <= i < SLOT_SIZE ==> equipment[i] == null
    }

    /** Everything equipped is in the inventory, and in the slot it belongs to. */
    ghost predicate EquipmentOk()
      reads `inventory, `equipment
    {
      && |equipment| == SLOT_SIZE
      && forall i :: 0 <= i < SLOT_SIZE && equipment[i] != null ==>
           equipment[i] in inventory && SlotOf(equipment[i].subclass) == i
    }

    /** Unequip obj from the first slot that holds it. No inventory or position is involved, and everything
        that is still equipped stays in order. */
    method Dequip(obj: Thing?, ghost world: set<Thing>) returns (done: bool)
      requires |equipment| == SLOT_SIZE
      modifies `equipment
      ensures old(AllEquipmentOk(world)) ==> AllEquipmentOk(world)
      ensures done == (obj != null && obj in old(equipment))
      ensures !done ==> equipment == old(equipment)
      ensures done ==> exists i :: 0 <= i < SLOT_SIZE && old(equipment)[i] == obj && obj !in old(equipment)[..i]
                                   && equipment == old(equipment)[i := null]
    {
      if obj == null {
        return false;
      }
      for i := 0 to SLOT_SIZE
        invariant equipment == old(equipment) && obj !in equipment[..i]
      {
        if equipment[i] == obj {
          equipment := equipment[i := null];
          return true;
        }
      }
      done := false;
    }

    method Equip(obj: Thing?, ghost world: set<Thing>) returns (done: bool)
      requires this in world && Exclusive(world) && AllEquipmentOk(world)
      modifies `equipment
      ensures Exclusive(world) && AllEquipmentOk(world)
      ensures done == (obj != null && obj in inventory && SlotOf(obj.subclass) < SLOT_SIZE)
      ensures equipment == if done then old(equipment)[SlotOf(obj.subclass) := obj] else old(equipment)
    {
      hide Exclusive, SlotOf;
      if obj == null || obj !in inventory || SlotOf(obj.subclass) >= SLOT_SIZE {
        return false;
      }
      var slot := SlotOf(obj.subclass);
      var _ := Dequip(equipment[slot], world);
      equipment := equipment[slot := obj];
      done := true;
    }

    method AddToInventory(obj: Thing) returns (done: bool)
      modifies `inventory, obj`position
      ensures done == (old(obj.position) != NOWHERE)
      ensures inventory == old(inventory) + if done then {obj} else {}
      ensures obj.position == NOWHERE
    {
      if obj.InAnInventory() {
        return false;
      }
      obj.position := NOWHERE;
      inventory := inventory + {obj};
      done := true;
    }

    /** Takes obj unless it is in an inventory or, if a distance is given, farther away than that. */
    method Pickup(obj: Thing?, maxDist: nat, ghost world: set<Thing>) returns (done: bool)
      requires this in world && (obj != null ==> obj in world)
      requires Exclusive(world) && AllEquipmentOk(world)
      modifies `inventory, (if obj == null then {} else {obj})`position
      ensures Exclusive(world) && AllEquipmentOk(world)
      ensures done == (obj != null && old(obj.position) != NOWHERE
                       && (maxDist == 0 || !Farther(old(position), old(obj.position), maxDist)))
      ensures done ==> obj.position == NOWHERE && inventory == old(inventory) + {obj}
      ensures !done ==> inventory == old(inventory) && (obj != null ==> obj.position == old(obj.position))
    {
      if obj == null || obj.InAnInventory() {
        return false;
      }
      if maxDist != 0 && Farther(position, obj.position, maxDist) {
        return false;
      }
      hide Held;
      HeldSplit(world, this);
      done := AddToInventory(obj);
      HeldSplit(world, this);
    }

    /** Moves obj and forgets it. A player first checks that it has obj, and unequips it. */
    method RemoveFromInventory(obj: Thing, newPos: GridPair) returns (done: bool)
      requires kind == PlayerUnit ==> EquipmentOk()
      modifies `inventory, `equipment, obj`position
      ensures done == (obj in old(inventory)) && inventory == old(inventory) - {obj}
      ensures obj.position == if done || kind != PlayerUnit then newPos else old(obj.position)
      ensures equipment == if done && kind == PlayerUnit then Unequipped(old(equipment), obj) else old(equipment)
    {
      if kind == PlayerUnit {
        if obj !in inventory {
          return false;
        }
        var _ := Dequip(obj, {});
      }
      obj.position := newPos;
      done := obj in inventory;
      inventory := inventory - {obj};
    }

    /** Puts an item of the inventory down. Items stay in exactly one place as long as the new position
        is not the one that means "in an inventory"; and equipment stays in the inventory unless someone
        other than a player drops what it has equipped. */
    method Drop(obj: Thing?, newPos: GridPair, ghost world: set<Thing>) returns (done: bool)
      requires this in world && (obj != null ==> obj in world)
      requires Exclusive(world) && AllEquipmentOk(world)
      modifies `inventory, `equipment, (if obj == null then {} else {obj})`position
      ensures done == (obj != null && obj in old(inventory))
      ensures done ==> obj.position == newPos && inventory == old(inventory) - {obj}
                       && equipment == if kind == PlayerUnit then Unequipped(old(equipment), obj) else old(equipment)
      ensures done && kind == PlayerUnit ==>
                obj !in equipment && forall i :: 0 <= i < SLOT_SIZE && old(equipment)[i] != obj ==> equipment[i] == old(equipment)[i]
      ensures !done ==> inventory == old(inventory) && equipment == old(equipment)
                        && (obj != null ==> obj.position == old(obj.position))
      ensures Exclusive(world) <==> !(done && newPos == NOWHERE)
      ensures AllEquipmentOk(world) <==> !(done && kind != PlayerUnit && obj in old(equipment))
    {
      if obj == null || obj !in inventory {
        return false;
      }
      hide Held;
      HeldSplit(world, this);
      NobodyElse(world, this);
      var _ := RemoveFromInventory(obj, newPos);
      HeldSplit(world, this);
      done := true;
    }

    /** The loop of DropAll. */
    method DropEach(pos: GridPair)
      requires EquipmentOk()
      modifies `inventory, `equipment, inventory`position
      ensures inventory == {} && forall o <- old(inventory) :: o.position == pos
      ensures if kind == PlayerUnit then Bare() else equipment == old(equipment)
    {
      ghost var items := inventory;
      var rest := inventory;
      while rest != {}
        invariant rest <= items && inventory == rest
        invariant forall o <- items :: o !in rest ==> o.position == pos
        invariant kind == PlayerUnit ==> EquipmentOk()
        invariant kind != PlayerUnit ==> equipment == old(equipment)
        decreases rest
      {
        var obj :| obj in rest;
        rest := rest - {obj};
        var _ := RemoveFromInventory(obj, pos);
      }
    }

    /** Puts the whole inventory down where this thing is. A player ends up with nothing equipped; what
        someone else has equipped stays in the slots. Something that is itself in an inventory strews
        its items nowhere. */
    method DropAll(ghost world: set<Thing>)
      requires this in world && Exclusive(world) && AllEquipmentOk(world)
      modifies `inventory, `equipment, inventory`position
      ensures inventory == {} && forall o <- old(inventory) :: o.position == old(position)
      ensures if kind == PlayerUnit then Bare() else equipment == old(equipment)
      ensures kind == PlayerUnit ==> |equipment| == 13 && forall i :: 0 <= i < 13 ==> equipment[i] == null
      ensures Exclusive(world) <==> old(inventory) == {} || old(position) != NOWHERE
      ensures AllEquipmentOk(world) <==> kind == PlayerUnit || old(Bare())
    {
      hide Held;
      HeldSplit(world, this);
      NobodyElse(world, this);
      DropEach(position);
      HeldSplit(world, this);
      EmptyEquipment();
    }

    /** Only bare slots go with an empty inventory. */
    lemma EmptyEquipment()
      requires inventory == {} && |equipment| == SLOT_SIZE
      ensures EquipmentOk() <==> Bare()
    {
    }
  }

  /** The slots with obj taken out of every one of them. */
  ghost function Unequipped(equipment: seq<Thing?>, obj: Thing): seq<Thing?> {
    seq(|equipment|, i requires 0 <= i < |equipment| => if equipment[i] == obj then null else equipment[i])
  }

  /** Every item is in at most one inventory, and in one exactly when its position says so. */
  ghost predicate Exclusive(world: set<Thing>)
    reads world`inventory, world`position
  {
    && (forall h <- world :: h.inventory <= world)
    && (forall g <- world, h <- world :: g != h ==> g.inventory !! h.inventory)
    && (forall o <- world :: o.position == NOWHERE <==> Held(world, o))
  }

  /** Someone has it. */
  ghost predicate Held(world: set<Thing>, o: Thing)
    reads world`inventory
  {
    exists h <- world :: o in h.inventory
  }

  /** Either h has it or someone else. */
  lemma HeldSplit(world: set<Thing>, h: Thing)
    requires h in world
    ensures forall o :: Held(world, o) <==> o in h.inventory || Held(world - {h}, o)
  {
    forall o
      ensures Held(world, o) <==> o in h.inventory || Held(world - {h}, o)
    {
      if Held(world, o) && o !in h.inventory {
        var g :| g in world && o in g.inventory;
        assert g in world - {h};
      }
    }
  }

  lemma NobodyElse(world: set<Thing>, h: Thing)
    requires h in world && Exclusive(world)
    ensures forall o <- h.inventory :: !Held(world - {h}, o)
  {
  }

  ghost predicate AllEquipmentOk(world: set<Thing>)
    reads world`inventory, world`equipment
  {
    forall h <- world :: h.EquipmentOk()
  }

  /** A newly made thing may join exactly if its position does not claim that someone holds it. */
  lemma NewThingJoins(world: set<Thing>, thing: Thing)
    requires Exclusive(world) && AllEquipmentOk(world)
    requires thing !in world && thing.inventory == {} && thing.Bare()
    ensures Exclusive(world + {thing}) <==> thing.position != NOWHERE
    ensures AllEquipmentOk(world + {thing})
  {
    HeldSplit(world + {thing}, thing);
    assert world + {thing} - {thing} == world;
    assert !Held(world, thing);
  }

  // ---------------------------------------------------------------------------
  // Runs
  // ---------------------------------------------------------------------------

  datatype Step =
    | Picking(holder: Thing, item: Thing?, maxDist: nat)
    | Dropping(holder: Thing, item: Thing?, newPos: GridPair)
    | Equipping(holder: Thing, item: Thing?)
    | Dequipping(holder: Thing, item: Thing?)
    | DroppingAll(holder: Thing)

  /** What a caller can look at before a step to know that it keeps everything in order. */
  predicate KeepsOrder(step: Step)
    reads step.holder
  {
    match step
    case Dropping(holder, item, newPos) =>
      item != null && item in holder.inventory ==>
        newPos != NOWHERE && (holder.kind == PlayerUnit || item !in holder.equipment)
    case DroppingAll(holder) =>
      (holder.inventory == {} || holder.position != NOWHERE)
      && (holder.kind == PlayerUnit || (|holder.equipment| == SLOT_SIZE && holder.Bare()))
    case _ => true
  }

  ghost predicate Within(step: Step, world: set<Thing>) {
    step.holder in world && (step.DroppingAll? || step.item == null || step.item in world)
  }

  ghost predicate InOrder(world: set<Thing>)
    reads world
  {
    Exclusive(world) && AllEquipmentOk(world)
  }

  method Perform(step: Step, ghost world: set<Thing>)
    requires InOrder(world) && Within(step, world)
    modifies world
    ensures InOrder(world) <==> old(KeepsOrder(step))
  {
    hide Exclusive;
    match step {
      case Picking(holder, item, maxDist) => var _ := holder.Pickup(item, maxDist, world);
      case Dropping(holder, item, newPos) => var _ := holder.Drop(item, newPos, world);
      case Equipping(holder, item) => var _ := holder.Equip(item, world);
      case Dequipping(holder, item) => var _ := holder.Dequip(item, world);
      case DroppingAll(holder) =>
        HoldsItsOwn(holder, world);
        holder.DropAll(world);
    }
  }

  lemma HoldsItsOwn(holder: Thing, world: set<Thing>)
    requires holder in world && Exclusive(world)
    ensures holder.inventory <= world
  {
  }

  /** Any sequence of steps of any of the holders, up to the first whose check fails: until then ownership
      stays exclusive and equipment owned, and that step ends it. */
  method PerformAll(steps: seq<Step>, ghost world: set<Thing>) returns (done: nat, kept: bool)
    requires InOrder(world) && forall s <- steps :: Within(s, world)
    modifies world
    ensures done <= |steps| && (kept ==> done == |steps|) && (!kept ==> done > 0)
    ensures InOrder(world) <==> kept
  {
    done, kept := 0, true;
    while done < |steps| && kept
      invariant done <= |steps| && (!kept ==> done > 0)
      invariant InOrder(world) <==> kept
    {
      kept := KeepsOrder(steps[done]);
      Perform(steps[done], world);
      done := done + 1;
    }
  }

  // ---------------------------------------------------------------------------
  // Steps that do not keep the order
  // ---------------------------------------------------------------------------

  const HERE := GridPair(0, 0)
  const HELMET := 1

  lemma NothingHeld(world: set<Thing>)
    requires forall h <- world :: h.inventory == {} && h.Bare() && h.position != NOWHERE
    ensures InOrder(world)
  {
  }

  lemma HelmetSlot()
    ensures SlotOf(HELMET) == HELMET
  {
  }

  /** A unit that is not a player, wearing an item. */
  method WearingUnit() returns (unit: Thing, item: Thing)
    ensures fresh(unit) && fresh(item) && unit != item && unit.kind == PlainUnit && unit.position == HERE
    ensures unit.inventory == {item} && item in unit.equipment && InOrder({unit, item})
  {
    unit := new Thing(PlainUnit, 0, HERE);
    item := new Thing(PlainObject, HELMET, HERE);
    NothingHeld({unit, item});
    hide Exclusive, AllEquipmentOk, SlotOf, Thing.Bare;
    HelmetSlot();
    var _ := unit.Pickup(item, 0, {unit, item});
    var _ := unit.Equip(item, {unit, item});
    assert unit.equipment[HELMET] == item;
  }

  method UnitDropsWornItem() returns (unit: Thing, item: Thing)
    ensures item !in unit.inventory && item in unit.equipment && !AllEquipmentOk({unit, item})
  {
    unit, item := WearingUnit();
    ghost var equipment := unit.equipment;
    var _ := unit.Drop(item, HERE, {unit, item});
    assert unit.equipment == equipment;
  }

  method UnitDropsAll() returns (unit: Thing, item: Thing)
    ensures unit.inventory == {} && item in unit.equipment && !AllEquipmentOk({unit, item})
  {
    unit, item := WearingUnit();
    unit.DropAll({unit, item});
    var i :| 0 <= i < SLOT_SIZE && unit.equipment[i] == item;
    assert !unit.EquipmentOk();
  }

  /** A bag in somebody's inventory drops all: its item is nowhere. */
  method BagDropsAll() returns (holder: Thing, bag: Thing, item: Thing)
    ensures !Exclusive({holder, bag, item})
    ensures item.position == NOWHERE && item !in holder.inventory && item !in bag.inventory
  {
    holder := new Thing(PlainUnit, 0, HERE);
    bag := new Thing(PlainObject, 0, HERE);
    item := new Thing(PlainObject, 0, HERE);
    ghost var world := {holder, bag, item};
    NothingHeld(world);
    hide Held, AllEquipmentOk, Thing.Bare;
    var _ := bag.Pickup(item, 0, world);
    var _ := holder.Pickup(bag, 0, world);
    bag.DropAll(world);
  }
}
