/** Rack placement: racks, the units mounted in them, and the handlers that move them.  A unit with
    start s and size z fills the slots s - z + 1 .. s, counted from the bottom of the rack. */
module Racks {
  import opened Options

  datatype Unit = Unit(rack: int, start: int, size: int, name: string, asset: Option<int>) {
    function Bottom(): int { start - size + 1 }
    predicate Fills(slot: int) { Bottom() <= slot <= start }
  }

  /** total_u by rack, units by id, and the next ids of the two sequences. */
  datatype Db = Db(racks: map<int, int>, units: map<int, Unit>, nextRack: int, nextUnit: int)

  const EMPTY := Db(map[], map[], 1, 1)

  datatype Response =
    | Created(id: int)
    | Done
    | Missing    // a required field is absent or zero
    | NotFound
    | BadRange
    | Overlap

  datatype Request =
    | CreateRack(totalU: Option<int>, named: bool)
    | CreateUnit(rack: int, start: int, size: Option<int>, name: string, asset: Option<int>)
    | UpdateRack(id: int, newTotal: Option<int>)
    | UpdateUnit(id: int, newStart: Option<int>, newSize: Option<int>, newLabel: Option<string>, newAsset: Option<int>)
    | DeleteRack(id: int)
    | DeleteUnit(id: int)

  function Or<T>(x: Option<T>, fallback: T): T {
    if x.Some? then x.value else fallback
  }

  /** The range check of both handlers. */
  predicate OutOfRange(start: int, size: int, total: int) {
    start < 1 || start > total || start - size + 1 < 1
  }

  /** The overlap query's condition on a row. */
  predicate Clashes(u: Unit, start: int, size: int) {
    u.start - u.size + 1 < start + 1 && start - size + 1 < u.start + 1
  }

  predicate AnyClash(units: map<int, Unit>, rack: int, start: int, size: int, except: Option<int>) {
    exists i :: i in units && Some(i) != except && units[i].rack == rack && Clashes(units[i], start, size)
  }

  /** The effect of one request. */
  function Handle(db: Db, r: Request): (Response, Db) {
    match r
    case CreateRack(total, named) =>
      if !named then (Missing, db)
      else (Created(db.nextRack), db.(racks := db.racks[db.nextRack := Or(total, 42)], nextRack := db.nextRack + 1))
    case CreateUnit(rack, start, size, name, asset) =>
      var z := Or(size, 1);
      if rack == 0 || start == 0 || name == "" then (Missing, db)
      else if rack !in db.racks then (NotFound, db)
      else if OutOfRange(start, z, db.racks[rack]) then (BadRange, db)
      else if AnyClash(db.units, rack, start, z, None) then (Overlap, db)
      else (Created(db.nextUnit),
            db.(units := db.units[db.nextUnit := Unit(rack, start, z, name, asset)], nextUnit := db.nextUnit + 1))
    case UpdateRack(id, total) =>
      if id == 0 then (Missing, db)
      else if id in db.racks then (Done, db.(racks := db.racks[id := Or(total, db.racks[id])]))
      else (Done, db)
    case UpdateUnit(id, start, size, name, asset) =>
      if id == 0 then (Missing, db)
      else if id !in db.units then (NotFound, db)
      else
        var u := db.units[id];
        var s, z := Or(start, u.start), Or(size, u.size);
        if u.rack in db.racks && OutOfRange(s, z, db.racks[u.rack]) then (BadRange, db)
        else if (start.Some? || size.Some?) && AnyClash(db.units, u.rack, s, z, Some(id)) then (Overlap, db)
        else (Done, db.(units := db.units[id := Unit(u.rack, s, z, Or(name, u.name), asset)]))
    case DeleteRack(id) =>
      (Done, db.(racks := db.racks - {id}, units := map i | i in db.units && db.units[i].rack != id :: db.units[i]))
    case DeleteUnit(id) =>
      (Done, db.(units := db.units - {id}))
  }

  // ---------- the handlers ----------

  class RackStore {
    var racks: map<int, int>
    var units: map<int, Unit>
    var nextRack: int
    var nextUnit: int

    ghost function View(): Db
      reads this
    {
      Db(racks, units, nextRack, nextUnit)
    }

    constructor ()
      ensures View() == EMPTY
    {
      racks, units, nextRack, nextUnit := map[], map[], 1, 1;
    }

    /** POST create_unit */
    method PostUnit(rack: int, start: int, size: Option<int>, name: string, asset: Option<int>) returns (r: Response)
      modifies this
      ensures (r, View()) == Handle(old(View()), CreateUnit(rack, start, size, name, asset))
    {
      var z := Or(size, 1);
      if rack == 0 || start == 0 || name == "" { return Missing; }
      if rack !in racks { return NotFound; }
      if start < 1 || start > racks[rack] || start - z + 1 < 1 { return BadRange; }
      if AnyClash(units, rack, start, z, None) { return Overlap; }
      units := units[nextUnit := Unit(rack, start, z, name, asset)];
      r := Created(nextUnit);
      nextUnit := nextUnit + 1;
    }

    /** PUT update_unit: an omitted asset is cleared, not kept. */
    method PutUnit(id: int, start: Option<int>, size: Option<int>, name: Option<string>, asset: Option<int>) returns (r: Response)
      modifies this
      ensures (r, View()) == Handle(old(View()), UpdateUnit(id, start, size, name, asset))
    {
      if id == 0 { return Missing; }
      if id !in units { return NotFound; }
      var current := units[id];
      var newStart, newSize := Or(start, current.start), Or(size, current.size);
      if current.rack in racks && OutOfRange(newStart, newSize, racks[current.rack]) { return BadRange; }
      if start.Some? || size.Some? {
        if AnyClash(units, current.rack, newStart, newSize, Some(id)) { return Overlap; }
      }
      units := units[id := Unit(current.rack, newStart, newSize, Or(name, current.name), asset)];
      return Done;
    }

    /** POST create_rack */
    method PostRack(totalU: Option<int>, named: bool) returns (r: Response)
      modifies this
      ensures (r, View()) == Handle(old(View()), CreateRack(totalU, named))
    {
      if !named { return Missing; }
      racks := racks[nextRack := Or(totalU, 42)];
      r := Created(nextRack);
      nextRack := nextRack + 1;
    }

    /** PUT update_rack: the new height is not checked against the units. */
    method PutRack(id: int, totalU: Option<int>) returns (r: Response)
      modifies this
      ensures (r, View()) == Handle(old(View()), UpdateRack(id, totalU))
    {
      if id == 0 { return Missing; }
      if id in racks { racks := racks[id := Or(totalU, racks[id])]; }
      return Done;
    }

    /** DELETE: a rack takes its units with it. */
    method Delete(id: int, isRack: bool) returns (r: Response)
      modifies this
      ensures (r, View()) == Handle(old(View()), if isRack then DeleteRack(id) else DeleteUnit(id))
    {
      if isRack {
        racks := racks - {id};
        units := map i | i in units && units[i].rack != id :: units[i];
      } else {
        units := units - {id};
      }
      return Done;
    }
  }

  // ---------- the overlap query ----------

  /** For units of at least one slot the query finds a row exactly when the two share a slot. */
  lemma ClashIsSharedSlot(u: Unit, v: Unit)
    requires u.size >= 1 && v.size >= 1
    ensures Clashes(u, v.start, v.size) <==> exists slot :: u.Fills(slot) && v.Fills(slot)
  {
    if Clashes(u, v.start, v.size) {
      var slot := if u.start <= v.start then u.start else v.start;
      assert u.Fills(slot) && v.Fills(slot);
    }
  }

  /** For a unit of no slots it can find a row that shares none. */
  lemma ClashWithoutSharedSlot()
    ensures exists u: Unit, v: Unit :: u.size >= 1 && v.size == 0 && Clashes(u, v.start, v.size)
              && !exists slot :: u.Fills(slot) && v.Fills(slot)
  {
    var u, v := Unit(1, 5, 3, "a", None), Unit(1, 4, 0, "b", None);
    assert Clashes(u, v.start, v.size);
  }

  // ---------- placement ----------

  predicate Apart(u: Unit, v: Unit) {
    u.start < v.Bottom() || v.start < u.Bottom()
  }

  ghost predicate Fits(db: Db, u: Unit) {
    u.rack in db.racks && u.size >= 1 && 1 <= u.Bottom() && u.start <= db.racks[u.rack]
  }

  /** Units of one rack fill pairwise disjoint slots within 1..total_u. */
  ghost predicate Placed(db: Db) {
    && (forall i :: i in db.racks ==> 0 < i < db.nextRack)
    && (forall i :: i in db.units ==> 0 < i < db.nextUnit && Fits(db, db.units[i]))
    && (forall i, j :: i in db.units && j in db.units && i != j && db.units[i].rack == db.units[j].rack ==>
          Apart(db.units[i], db.units[j]))
    && db.nextRack > 0 && db.nextUnit > 0
  }

  /** Apart means that no slot is shared. */
  lemma ApartIsDisjoint(u: Unit, v: Unit)
    requires u.size >= 1 && v.size >= 1
    ensures Apart(u, v) <==> !exists slot :: u.Fills(slot) && v.Fills(slot)
    ensures Apart(u, v) <==> !Clashes(u, v.start, v.size)
  {
    ClashIsSharedSlot(u, v);
  }

  /** What a request must observe that the handlers do not check. */
  ghost predicate Careful(db: Db, r: Request) {
    match r
    case CreateUnit(_, _, size, _, _) => Or(size, 1) >= 1
    case UpdateUnit(_, _, size, _, _) => size.Some? ==> size.value >= 1
    case UpdateRack(id, total) =>
      total.Some? ==> forall i :: i in db.units && db.units[i].rack == id ==> db.units[i].start <= total.value
    case _ => true
  }

  lemma PlaceOne(db: Db, id: int, u: Unit)
    requires Placed(db) && 0 < id < db.nextUnit && Fits(db, u)
    requires forall i :: i in db.units && i != id && db.units[i].rack == u.rack ==> Apart(db.units[i], u)
    ensures Placed(db.(units := db.units[id := u]))
  {
  }

  /** Every request keeps the placement exactly when it is careful, or is refused. */
  lemma HandleKeepsExactly(db: Db, r: Request)
    requires Placed(db)
    ensures Placed(Handle(db, r).1) <==> Careful(db, r) || Handle(db, r).1 == db
  {
    var (resp, t) := Handle(db, r);
    match r
    case CreateUnit(rack, start, size, name, asset) =>
      if t != db { CreateKeepsExactly(db, r); }
    case UpdateUnit(id, start, size, name, asset) =>
      if t != db { UpdateKeepsExactly(db, r); }
    case UpdateRack(id, total) =>
      if id != 0 && id in db.racks && total.Some? && t != db {
        if !Careful(db, r) {
          var i :| i in db.units && db.units[i].rack == id && total.value < db.units[i].start;
          assert !Fits(t, t.units[i]);
        }
      }
    case _ =>
  }

  lemma CreateKeepsExactly(db: Db, r: Request)
    requires Placed(db) && r.CreateUnit? && Handle(db, r).0.Created?
    ensures Placed(Handle(db, r).1) <==> Careful(db, r)
  {
    var t := Handle(db, r).1;
    var u := t.units[db.nextUnit];
    assert u.size == Or(r.size, 1);
    if u.size >= 1 {
      forall i | i in db.units && db.units[i].rack == u.rack ensures Apart(db.units[i], u) {
        assert !Clashes(db.units[i], u.start, u.size);
      }
      PlaceOne(db.(nextUnit := db.nextUnit + 1), db.nextUnit, u);
    } else {
      assert !Fits(t, u);
    }
  }

  lemma UpdateKeepsExactly(db: Db, r: Request)
    requires Placed(db) && r.UpdateUnit? && Handle(db, r).0.Done?
    ensures Placed(Handle(db, r).1) <==> Careful(db, r)
  {
    var t := Handle(db, r).1;
    var u := t.units[r.id];
    var was := db.units[r.id];
    assert Fits(db, was);
    if u.size >= 1 {
      forall i | i in db.units && i != r.id && db.units[i].rack == u.rack ensures Apart(db.units[i], u) {
        if r.newStart.Some? || r.newSize.Some? {
          assert !Clashes(db.units[i], u.start, u.size);
        } else {
          assert Apart(db.units[i], was);
        }
      }
      PlaceOne(db, r.id, u);
    } else {
      assert !Fits(t, u);
    }
  }

  function Run(db: Db, rs: seq<Request>): Db
    decreases |rs|
  {
    if rs == [] then db else Run(Handle(db, rs[0]).1, rs[1..])
  }

  ghost predicate AllCareful(db: Db, rs: seq<Request>)
    decreases |rs|
  {
    rs == [] || (Careful(db, rs[0]) && AllCareful(Handle(db, rs[0]).1, rs[1..]))
  }

  /** Placement is an invariant of every run of careful requests. */
  lemma {:induction false} RunKeepsPlacement(db: Db, rs: seq<Request>)
    requires Placed(db) && AllCareful(db, rs)
    ensures Placed(Run(db, rs))
    decreases |rs|
  {
    hide Placed, Handle, Careful;
    if rs != [] {
      HandleKeepsExactly(db, rs[0]);
      RunKeepsPlacement(Handle(db, rs[0]).1, rs[1..]);
    }
  }

  lemma ReachablePlaced(rs: seq<Request>, i: int, j: int)
    requires AllCareful(EMPTY, rs)
    requires i in Run(EMPTY, rs).units && j in Run(EMPTY, rs).units && i != j
    requires Run(EMPTY, rs).units[i].rack == Run(EMPTY, rs).units[j].rack
    ensures var db := Run(EMPTY, rs);
            && Fits(db, db.units[i])
            && !exists slot :: db.units[i].Fills(slot) && db.units[j].Fills(slot)
  {
    RunKeepsPlacement(EMPTY, rs);
    var db := Run(EMPTY, rs);
    ApartIsDisjoint(db.units[i], db.units[j]);
  }

  // ---------- what is where, request by request ----------

  /** The unit is in this slot of the rack. */
  predicate IsIn(db: Db, id: int, rack: int, slot: int) {
    id in db.units && db.units[id].rack == rack && db.units[id].start - db.units[id].size < slot <= db.units[id].start
  }

  /** No unit but one with this id is in any of these slots. */
  ghost predicate Free(db: Db, rack: int, top: int, size: int, except: int) {
    forall i, slot :: top - size < slot <= top && i != except ==> !IsIn(db, i, rack, slot)
  }

  /** Every slot from the top one down is one of the rack's. */
  predicate InRack(db: Db, rack: int, top: int, size: int) {
    rack in db.racks && 1 <= top - size + 1 && 1 <= top <= db.racks[rack]
  }

  /** What a create of one slot or more is answered, exactly, and it changes nothing unless it is accepted:
      which it is when its fields are there, its slots are the rack's and no unit is in them. */
  lemma CreatedExactly(db: Db, rack: int, start: int, size: Option<int>, name: string, asset: Option<int>)
    requires Placed(db) && (size.Some? ==> size.value >= 1)
    ensures var (resp, t) := Handle(db, CreateUnit(rack, start, size, name, asset));
            var z := if size == None then 1 else size.value;
            var complete := rack != 0 && start != 0 && name != "";
            && (resp == Missing <==> !complete)
            && (resp == NotFound <==> complete && rack !in db.racks)
            && (resp == BadRange <==> complete && rack in db.racks && !InRack(db, rack, start, z))
            && (resp == Overlap <==> complete && InRack(db, rack, start, z) && !Free(db, rack, start, z, 0))
            && (resp == Created(db.nextUnit) <==> complete && InRack(db, rack, start, z) && Free(db, rack, start, z, 0))
            && (resp != Created(db.nextUnit) ==> t == db)
  {
    var z := Or(size, 1);
    NoClashIsFree(db, rack, start, z, None);
  }

  lemma NoClashIsFree(db: Db, rack: int, start: int, size: int, except: Option<int>)
    requires Placed(db) && size >= 1
    ensures var but := if except.Some? then except.value else 0;
            !AnyClash(db.units, rack, start, size, except) <==> Free(db, rack, start, size, but)
  {
    var v := Unit(rack, start, size, "", None);
    var but := if except.Some? then except.value else 0;
    if i :| i in db.units && Some(i) != except && db.units[i].rack == rack && Clashes(db.units[i], start, size) {
      ClashIsSharedSlot(db.units[i], v);
      var slot :| db.units[i].Fills(slot) && v.Fills(slot);
      assert IsIn(db, i, rack, slot);
    }
    forall i, slot | start - size < slot <= start && i != but && IsIn(db, i, rack, slot)
      ensures AnyClash(db.units, rack, start, size, except)
    {
      assert db.units[i].Fills(slot) && v.Fills(slot);
      ClashIsSharedSlot(db.units[i], v);
    }
  }

  /** What an update that keeps at least one slot is answered, exactly, and it changes nothing unless it is
      accepted: which it is when there is such a unit, its new slots are the rack's and no other unit is in
      them. */
  lemma UpdatedExactly(db: Db, id: int, start: Option<int>, size: Option<int>, text: Option<string>, asset: Option<int>)
    requires Placed(db) && (size.Some? ==> size.value >= 1)
    ensures var (resp, t) := Handle(db, UpdateUnit(id, start, size, text, asset));
            && (resp == Missing <==> id == 0)
            && (resp == NotFound <==> id != 0 && id !in db.units)
            && (resp != Done ==> t == db)
            && (id in db.units ==>
                  var u := db.units[id];
                  var top, z := (if start == None then u.start else start.value), (if size == None then u.size else size.value);
                  && (resp == BadRange <==> !InRack(db, u.rack, top, z))
                  && (resp == Overlap <==> InRack(db, u.rack, top, z) && !Free(db, u.rack, top, z, id))
                  && (resp == Done <==> InRack(db, u.rack, top, z) && Free(db, u.rack, top, z, id)))
  {
    if id in db.units {
      var u := db.units[id];
      assert Fits(db, u);
      NoClashIsFree(db, u.rack, Or(start, u.start), Or(size, u.size), Some(id));
      if start == None && size == None { OwnSlotsFree(db, id); }
    }
  }

  lemma OwnSlotsFree(db: Db, id: int)
    requires Placed(db) && id in db.units
    ensures Free(db, db.units[id].rack, db.units[id].start, db.units[id].size, id)
  {
    var u := db.units[id];
    assert Fits(db, u);
    forall i, slot | u.start - u.size < slot <= u.start && i != id ensures !IsIn(db, i, u.rack, slot) {
      if i in db.units && db.units[i].rack == u.rack { assert Apart(u, db.units[i]); }
    }
  }

  /** Where each unit is after a request, exactly. */
  lemma PlacesAfter(db: Db, r: Request, i: int, rack: int, slot: int)
    requires Placed(db)
    ensures var (resp, t) := Handle(db, r);
            IsIn(t, i, rack, slot) <==>
              match r
              case CreateUnit(k, start, size, _, _) =>
                IsIn(db, i, rack, slot) ||
                (resp == Created(i) && rack == k && start - (if size == None then 1 else size.value) < slot <= start)
              case UpdateUnit(id, start, size, _, _) =>
                if resp != Done || i != id then IsIn(db, i, rack, slot)
                else
                  var u := db.units[id];
                  && rack == u.rack && slot <= (if start == None then u.start else start.value)
                  && slot > (if start == None then u.start else start.value) - (if size == None then u.size else size.value)
              case DeleteRack(id) => IsIn(db, i, rack, slot) && rack != id
              case DeleteUnit(id) => IsIn(db, i, rack, slot) && i != id
              case _ => IsIn(db, i, rack, slot)
  {
    hide AnyClash, OutOfRange;
  }

  /** What is known of a unit after a request: its name and asset are those given, a name not given stays,
      an asset not given is cleared, and all else stays. */
  lemma LabelsAfter(db: Db, r: Request, i: int)
    requires Placed(db) && i in Handle(db, r).1.units
    ensures var (resp, t) := Handle(db, r);
            var u := t.units[i];
            match r
            case CreateUnit(_, _, _, name, asset) =>
              if resp == Created(i) then u.name == name && u.asset == asset else i in db.units && u == db.units[i]
            case UpdateUnit(id, _, _, text, asset) =>
              && i in db.units
              && if resp == Done && i == id then u.asset == asset && u.name == (if text == None then db.units[i].name else text.value)
                 else u == db.units[i]
            case _ => i in db.units && u == db.units[i]
  {
    hide AnyClash, OutOfRange;
  }

  /** The heights after a request: a new rack has 42 slots if none are given, an update sets those given,
      and a deleted rack is gone. */
  lemma HeightsAfter(db: Db, r: Request, rack: int)
    requires Placed(db)
    ensures var (resp, t) := Handle(db, r);
            var height := if rack in t.racks then Some(t.racks[rack]) else None;
            var was := if rack in db.racks then Some(db.racks[rack]) else None;
            height == match r
                      case CreateRack(total, named) =>
                        if !named || rack != db.nextRack then was else if total == None then Some(42) else total
                      case UpdateRack(id, total) => if was != None && rack == id && total != None then total else was
                      case DeleteRack(id) => if rack == id then None else was
                      case _ => was
  {
    hide AnyClash, OutOfRange;
  }

  /** What the requests about racks are answered, and the deletes, in any table: a rack needs a name to be
      created and an id to be updated, and nothing tells whether it exists. */
  lemma RackAnswers(db: Db, r: Request)
    requires !r.CreateUnit? && !r.UpdateUnit?
    ensures var resp := Handle(db, r).0;
            var complete := (r.CreateRack? ==> r.named) && (r.UpdateRack? ==> r.id != 0);
            && (resp == Missing <==> !complete)
            && (resp == Created(db.nextRack) <==> complete && r.CreateRack?)
            && (resp == Done <==> complete && !r.CreateRack?)
            && (resp == Missing ==> Handle(db, r).1 == db)
  {
  }

  /** In any table, placed or not, an update that gives no place is never refused as overlapping. */
  lemma RelabelsExactly(db: Db, id: int, text: Option<string>, asset: Option<int>)
    requires id != 0 && id in db.units
    ensures var (resp, t) := Handle(db, UpdateUnit(id, None, None, text, asset));
            var u := db.units[id];
            && (resp == Done <==> u.rack !in db.racks || InRack(db, u.rack, u.start, u.size))
            && (resp == BadRange <==> u.rack in db.racks && !InRack(db, u.rack, u.start, u.size))
  {
  }

  /** How many creates of a rack, or of a unit, are accepted. */
  function Accepted(db: Db, rs: seq<Request>, racks: bool): nat
    decreases |rs|
  {
    if rs == [] then 0
    else
      (if (if racks then rs[0].CreateRack? else rs[0].CreateUnit?) && Handle(db, rs[0]).0.Created? then 1 else 0)
      + Accepted(Handle(db, rs[0]).1, rs[1..], racks)
  }

  /** Racks and units are numbered from one as they are created, and no number is used again. */
  lemma {:induction false} Numbered(db: Db, rs: seq<Request>)
    ensures Run(db, rs).nextRack == db.nextRack + Accepted(db, rs, true)
    ensures Run(db, rs).nextUnit == db.nextUnit + Accepted(db, rs, false)
    decreases |rs|
  {
    hide AnyClash, OutOfRange;
    if rs != [] { Numbered(Handle(db, rs[0]).1, rs[1..]); }
  }
}
