/** What the rack page derives from the units of one rack, and what its actions do. */
module RackPage {
  import opened Options
  import opened Racks

  /** A unit with its id, as the page receives it. */
  datatype Row = Row(id: int, unit: Unit)

  /** units.reduce((s, u) => s + u.size_u, 0) */
  function Used(rows: seq<Row>): int {
    if rows == [] then 0 else Used(rows[..|rows| - 1]) + rows[|rows| - 1].unit.size
  }

  /** Some unit fills the slot. */
  ghost predicate Occupied(rows: seq<Row>, slot: int) {
    exists r :: r in rows && r.unit.Fills(slot)
  }

  lemma OccupiedNext(rows: seq<Row>, k: nat, slot: int)
    requires k < |rows|
    ensures Occupied(rows[..k + 1], slot) <==> Occupied(rows[..k], slot) || rows[k].unit.Fills(slot)
  {
    assert rows[..k + 1] == rows[..k] + [rows[k]];
    if Occupied(rows[..k], slot) {
      var r :| r in rows[..k] && r.unit.Fills(slot);
      assert r in rows[..k + 1];
    }
    if rows[k].unit.Fills(slot) { assert rows[k] in rows[..k + 1]; }
  }

  /** The set holds exactly the occupied slots. */
  ghost predicate Collects(occupied: set<int>, rows: seq<Row>) {
    forall slot :: slot in occupied <==> Occupied(rows, slot)
  }

  /** The page's nested loops that collect the occupied slots. */
  method CollectOccupied(rows: seq<Row>) returns (occupied: set<int>)
    ensures Collects(occupied, rows)
  {
    occupied := {};
    for k := 0 to |rows|
      invariant Collects(occupied, rows[..k])
    {
      var u := rows[k].unit;
      ghost var before := occupied;
      var i := 0;
      while i < u.size
        invariant i == 0 || 0 < i <= u.size
        invariant forall slot :: slot in occupied <==> slot in before || u.start - i < slot <= u.start
      {
        occupied := occupied + {u.start - i};
        i := i + 1;
      }
      forall slot ensures slot in occupied <==> Occupied(rows[..k + 1], slot) {
        OccupiedNext(rows, k, slot);
      }
    }
    assert rows[..|rows|] == rows;
  }

  ghost predicate Decreasing(slots: seq<int>) {
    forall i, j :: 0 <= i < j < |slots| ==> slots[i] > slots[j]
  }

  /** The slots drawn as empty: from total_u down to 1, skipping the occupied ones. */
  method EmptySlots(totalU: int, occupied: set<int>) returns (slots: seq<int>)
    ensures forall slot :: slot in slots <==> 1 <= slot <= totalU && slot !in occupied
    ensures Decreasing(slots)
  {
    slots := [];
    var i := 0;
    while i < totalU
      invariant i == 0 || 0 < i <= totalU
      invariant forall slot :: slot in slots <==> totalU - i < slot <= totalU && slot !in occupied
      invariant Decreasing(slots)
    {
      var uNo := totalU - i;
      if uNo !in occupied {
        assert forall k :: 0 <= k < |slots| ==> slots[k] in slots;
        slots := slots + [uNo];
      }
      i := i + 1;
    }
  }

  // ---------- counting slots ----------

  /** The rows list exactly the units of a rack, each once. */
  ghost predicate ListsRack(rows: seq<Row>, db: Db, rack: int) {
    && (forall r :: r in rows ==> r.id in db.units && r.unit == db.units[r.id] && r.unit.rack == rack)
    && (forall i :: i in db.units && db.units[i].rack == rack ==> Row(i, db.units[i]) in rows)
    && (forall i, j :: 0 <= i < j < |rows| ==> rows[i].id != rows[j].id)
  }

  function Interval(lo: int, hi: int): (s: set<int>)
    ensures forall slot :: slot in s <==> lo <= slot <= hi
    ensures lo <= hi + 1 ==> |s| == hi - lo + 1
    decreases hi - lo
  {
    if hi < lo then {} else Interval(lo, hi - 1) + {hi}
  }

  lemma SubsetSize(a: set<int>, b: set<int>)
    requires a <= b
    ensures |a| <= |b| && |b - a| == |b| - |a|
  {
    assert b == a + (b - a);
  }

  ghost predicate RowsApart(rows: seq<Row>) {
    forall i, j :: 0 <= i < j < |rows| ==> Apart(rows[i].unit, rows[j].unit)
  }

  /** The last of pairwise disjoint units fills none of the slots of the others. */
  lemma LastFillsItsOwn(rows: seq<Row>, slot: int)
    requires rows != [] && RowsApart(rows)
    ensures var n := |rows| - 1;
            && (Occupied(rows, slot) <==> Occupied(rows[..n], slot) || rows[n].unit.Fills(slot))
            && !(Occupied(rows[..n], slot) && rows[n].unit.Fills(slot))
  {
    var n := |rows| - 1;
    OccupiedNext(rows, n, slot);
    assert rows[..n + 1] == rows;
    if Occupied(rows[..n], slot) {
      var r :| r in rows[..n] && r.unit.Fills(slot);
      var k :| 0 <= k < n && rows[..n][k] == r;
      assert Apart(rows[k].unit, rows[n].unit);
    }
  }

  /** Taking out the last unit's slots leaves those of the others, fewer by its size. */
  lemma SplitOffLast(rows: seq<Row>, occupied: set<int>) returns (rest: set<int>)
    requires rows != [] && RowsApart(rows) && Collects(occupied, rows) && rows[|rows| - 1].unit.size >= 1
    ensures Collects(rest, rows[..|rows| - 1]) && |occupied| == |rest| + rows[|rows| - 1].unit.size
  {
    hide Occupied, RowsApart;
    var n := |rows| - 1;
    var mine := Interval(rows[n].unit.Bottom(), rows[n].unit.start);
    rest := occupied - mine;
    forall slot ensures slot in rest <==> Occupied(rows[..n], slot) { LastFillsItsOwn(rows, slot); }
    forall slot | slot in mine ensures slot in occupied { LastFillsItsOwn(rows, slot); }
    assert mine <= occupied;
    SubsetSize(mine, occupied);
  }

  /** The occupied slots of pairwise disjoint units of a rack number as many as their sizes sum to. */
  lemma {:induction false} OccupiedSize(rows: seq<Row>, occupied: set<int>)
    requires Collects(occupied, rows) && RowsApart(rows) && forall r :: r in rows ==> r.unit.size >= 1
    ensures |occupied| == Used(rows)
  {
    if rows == [] {
      forall slot ensures slot !in occupied { assert !Occupied(rows, slot); }
      assert occupied <= {};
    } else {
      hide Collects;
      assert rows[|rows| - 1] in rows;
      var rest := SplitOffLast(rows, occupied);
      OccupiedSize(rows[..|rows| - 1], rest);
    }
  }

  lemma {:induction false} ListSize(slots: seq<int>, s: set<int>)
    requires forall slot :: slot in slots <==> slot in s
    requires Decreasing(slots)
    ensures |slots| == |s|
  {
    if slots == [] {
      forall slot ensures slot !in s { assert slot !in slots; }
      assert s <= {};
    } else {
      var n := |slots| - 1;
      assert slots == slots[..n] + [slots[n]];
      assert forall slot :: slot in slots[..n] ==> slot > slots[n];
      ListSize(slots[..n], s - {slots[n]});
    }
  }

  /** Under the placement invariant the page's counts agree: the occupied slots number used, the empty
      ones total_u - used, and used never exceeds total_u. */
  lemma CountsAgree(db: Db, rack: int, rows: seq<Row>, occupied: set<int>, empty: seq<int>)
    requires Placed(db) && rack in db.racks && db.racks[rack] >= 0 && ListsRack(rows, db, rack)
    requires Collects(occupied, rows)
    requires forall slot :: slot in empty <==> 1 <= slot <= db.racks[rack] && slot !in occupied
    requires Decreasing(empty)
    ensures |occupied| == Used(rows) <= db.racks[rack]
    ensures |empty| == db.racks[rack] - Used(rows)
  {
    var total := db.racks[rack];
    ListedRows(db, rack, rows);
    OccupiedSize(rows, occupied);
    var slots := Interval(1, total);
    forall slot | slot in occupied ensures slot in slots {
      var r :| r in rows && r.unit.Fills(slot);
    }
    SubsetSize(occupied, Interval(1, total));
    ListSize(empty, Interval(1, total) - occupied);
  }

  lemma ListedRows(db: Db, rack: int, rows: seq<Row>)
    requires Placed(db) && rack in db.racks && ListsRack(rows, db, rack)
    ensures forall r :: r in rows ==> Fits(db, r.unit) && r.unit.start <= db.racks[rack]
    ensures RowsApart(rows)
  {
    forall r | r in rows ensures Fits(db, r.unit) && r.unit.start <= db.racks[rack] {
      assert Fits(db, db.units[r.id]);
    }
    forall i, j | 0 <= i < j < |rows| ensures Apart(rows[i].unit, rows[j].unit) {
      assert rows[i] in rows && rows[j] in rows && rows[i].id != rows[j].id;
    }
  }

  // ---------- actions ----------

  /** A one-slot unit can be created exactly on the slots shown empty. */
  lemma CreateExactlyOnEmpty(db: Db, rack: int, rows: seq<Row>, slot: int, name: string, asset: Option<int>)
    requires Placed(db) && rack in db.racks && ListsRack(rows, db, rack) && name != ""
    ensures Handle(db, CreateUnit(rack, slot, None, name, asset)).0.Created? <==>
            1 <= slot <= db.racks[rack] && !Occupied(rows, slot)
  {
    if Occupied(rows, slot) {
      var r :| r in rows && r.unit.Fills(slot);
      assert Clashes(db.units[r.id], slot, 1);
    } else {
      forall i | i in db.units && db.units[i].rack == rack ensures !Clashes(db.units[i], slot, 1) {
        assert Row(i, db.units[i]) in rows;
        assert !db.units[i].Fills(slot);
      }
    }
  }

  datatype Direction = Up | Down

  function NewStart(u: Unit, d: Direction): int {
    if d.Up? then u.start + 1 else u.start - 1
  }

  /** moveUnit: a client-side range check, then update_unit with the new start alone. */
  function Move(db: Db, id: int, d: Direction): (Response, Db)
    requires id in db.units && db.units[id].rack in db.racks
  {
    var u := db.units[id];
    var newStart := NewStart(u, d);
    if OutOfRange(newStart, u.size, db.racks[u.rack]) then (BadRange, db)
    else Handle(db, UpdateUnit(id, Some(newStart), None, None, None))
  }

  /** The one slot a move newly fills. */
  function NewSlot(u: Unit, d: Direction): int {
    if d.Up? then u.start + 1 else u.Bottom() - 1
  }

  /** A one-step move is accepted exactly when its single new slot exists and is free; it then shifts
      the unit by one, and clears its asset. */
  lemma MoveExactly(db: Db, rows: seq<Row>, id: int, d: Direction)
    requires Placed(db) && id in db.units && ListsRack(rows, db, db.units[id].rack)
    ensures var u := db.units[id];
            var (resp, t) := Move(db, id, d);
            && Placed(t)
            && (resp.Done? <==> 1 <= NewSlot(u, d) <= db.racks[u.rack] && !Occupied(rows, NewSlot(u, d)))
            && (resp == BadRange <==> !(1 <= NewSlot(u, d) <= db.racks[u.rack]))
            && (resp == Overlap <==> 1 <= NewSlot(u, d) <= db.racks[u.rack] && Occupied(rows, NewSlot(u, d)))
            && (resp.Done? ==> t.units == db.units[id := u.(start := if d.Up? then u.start + 1 else u.start - 1, asset := None)])
            && (!resp.Done? ==> t == db)
  {
    hide Occupied, Placed, ListsRack, Handle;
    MoveOne(db, rows, id, d);
  }

  /** A taken slot next to a unit clashes with the unit moved there. */
  lemma TakenClashes(db: Db, rows: seq<Row>, id: int, d: Direction)
    requires Placed(db) && id in db.units && ListsRack(rows, db, db.units[id].rack)
    requires Occupied(rows, NewSlot(db.units[id], d))
    ensures AnyClash(db.units, db.units[id].rack, NewStart(db.units[id], d), db.units[id].size, Some(id))
  {
    var u := db.units[id];
    assert Fits(db, u);
    var r :| r in rows && r.unit.Fills(NewSlot(u, d));
    assert !u.Fills(NewSlot(u, d));
    assert Clashes(db.units[r.id], NewStart(u, d), u.size);
  }

  /** A free one does not. */
  lemma FreeFits(db: Db, rows: seq<Row>, id: int, d: Direction)
    requires Placed(db) && id in db.units && ListsRack(rows, db, db.units[id].rack)
    requires !Occupied(rows, NewSlot(db.units[id], d))
    ensures !AnyClash(db.units, db.units[id].rack, NewStart(db.units[id], d), db.units[id].size, Some(id))
  {
    var u := db.units[id];
    forall i | i in db.units && i != id && db.units[i].rack == u.rack ensures !Clashes(db.units[i], NewStart(u, d), u.size) {
      assert Row(i, db.units[i]) in rows;
      assert !db.units[i].Fills(NewSlot(u, d)) && Apart(db.units[i], u) && Fits(db, db.units[i]) && Fits(db, u);
    }
  }

  ghost predicate MovesRight(db: Db, rows: seq<Row>, id: int, d: Direction)
    requires id in db.units && db.units[id].rack in db.racks
  {
    var u := db.units[id];
    var (resp, t) := Move(db, id, d);
    && Placed(t)
    && (resp.Done? <==> 1 <= NewSlot(u, d) <= db.racks[u.rack] && !Occupied(rows, NewSlot(u, d)))
    && (resp == BadRange <==> !(1 <= NewSlot(u, d) <= db.racks[u.rack]))
    && (resp == Overlap <==> 1 <= NewSlot(u, d) <= db.racks[u.rack] && Occupied(rows, NewSlot(u, d)))
    && (resp.Done? ==> t.units == db.units[id := u.(start := NewStart(u, d), asset := None)])
    && (!resp.Done? ==> t == db)
  }

  lemma MoveOne(db: Db, rows: seq<Row>, id: int, d: Direction)
    requires Placed(db) && id in db.units && ListsRack(rows, db, db.units[id].rack)
    ensures MovesRight(db, rows, id, d)
  {
    var u := db.units[id];
    assert Fits(db, u);
    if Occupied(rows, NewSlot(u, d)) { TakenClashes(db, rows, id, d); } else { FreeFits(db, rows, id, d); }
    HandleKeepsExactly(db, UpdateUnit(id, Some(NewStart(u, d)), None, None, None));
    hide Occupied, Placed, ListsRack, AnyClash;
  }
}
