/** The organisation forest: rows that name a parent row, and the handlers that grow and rearrange it. */
module Organizations {
  import opened Options

  datatype Org = Org(parent: Option<int>, active: bool)

  type Rows = map<int, Org>

  /** The table and the next value of its id sequence. */
  datatype Db = Db(rows: Rows, next: int)

  const EMPTY := Db(map[], 1)

  const MAX_DEPTH := 3

  datatype Response =
    | Created(id: int)
    | Done
    | Missing      // no id, or a blank name
    | TooDeep
    | SelfParent
    | NoSuchParent // refused by the foreign key
    | Hangs        // the recursive query has no end

  datatype Request =
    | Create(named: bool, parent: Option<int>)
    | Update(id: int, named: bool, newParent: Option<int>)
    | Delete(id: int)

  /** The k-th ancestor of a row, itself when k is 0; none when the chain is shorter. */
  function Up(rows: Rows, id: int, k: nat): Option<int>
    decreases k
  {
    if id !in rows then None
    else if k == 0 then Some(id)
    else if rows[id].parent.None? then None
    else Up(rows, rows[id].parent.value, k - 1)
  }

  /** The parent chain of the row comes to an end. */
  predicate Ends(rows: Rows, id: int) {
    Up(rows, id, |rows|).None?
  }

  /** A zero id counts as none. */
  function NonZero(parent: Option<int>): Option<int> {
    if parent == Some(0) then None else parent
  }

  function Detached(rows: Rows, id: int): Rows {
    map i | i in rows :: Org(if rows[i].parent == Some(id) then None else rows[i].parent, rows[i].active && i != id)
  }

  /** The effect of one request. */
  function Handle(db: Db, r: Request): (Response, Db) {
    match r
    case Create(named, parent) =>
      var p := NonZero(parent);
      if !named then (Missing, db)
      else if p.Some? && !Ends(db.rows, p.value) then (Hangs, db)
      else if p.Some? && Up(db.rows, p.value, MAX_DEPTH - 1).Some? then (TooDeep, db)
      else if p.Some? && p.value !in db.rows then (NoSuchParent, db.(next := db.next + 1))
      else (Created(db.next), Db(db.rows[db.next := Org(p, true)], db.next + 1))
    case Update(id, named, parent) =>
      var p := NonZero(parent);
      if id == 0 || !named then (Missing, db)
      else if parent == Some(id) then (SelfParent, db)
      else if id !in db.rows then (Done, db)
      else if p.Some? && p.value !in db.rows then (NoSuchParent, db)
      else (Done, db.(rows := Moved(db.rows, id, p)))
    case Delete(id) =>
      (Done, db.(rows := Detached(db.rows, id)))
  }

  function Moved(rows: Rows, id: int, parent: Option<int>): Rows
    requires id in rows
  {
    rows[id := rows[id].(parent := parent)]
  }

  // ---------- the handlers ----------

  class OrgTable {
    var rows: Rows
    var next: int

    ghost function View(): Db
      reads this
    {
      Db(rows, next)
    }

    constructor ()
      ensures View() == EMPTY
    {
      rows, next := map[], 1;
    }

    /** The recursive query: joins the parent row until there is none, and returns the largest depth.  A
        query that has joined more rows than there are never ends (EndsMeans), and returns none here. */
    method DepthQuery(id: int) returns (depth: Option<nat>)
      ensures depth.Some? <==> Ends(rows, id)
      ensures depth.Some? ==> Up(rows, id, depth.value).None? && forall k: nat :: k < depth.value ==> Up(rows, id, k).Some?
    {
      var at, n := Some(id), 0;
      while at.Some? && at.value in rows && n <= |rows|
        invariant n <= |rows| + 1
        invariant at.Some? && at.value in rows ==> Up(rows, id, n) == at
        invariant at.None? || at.value !in rows ==> Up(rows, id, n).None?
        invariant forall k: nat :: k < n ==> Up(rows, id, k).Some?
        decreases |rows| + 1 - n
      {
        UpNext(rows, id, n);
        at, n := rows[at.value].parent, n + 1;
      }
      if n > |rows| { return None; }
      UpShrinks(rows, id, n, |rows|);
      return Some(n);
    }

    /** POST; where the query has no end the handler never answers. */
    method Post(named: bool, parent: Option<int>) returns (r: Response)
      modifies this
      ensures (r, View()) == Handle(old(View()), Create(named, parent))
    {
      var p := NonZero(parent);
      if !named { return Missing; }
      if p.Some? {
        var depth := DepthQuery(p.value);
        if depth.None? { return Hangs; }
        if depth.value >= MAX_DEPTH { return TooDeep; }
        UpShrinks(rows, p.value, depth.value, MAX_DEPTH - 1);
      }
      next := next + 1;
      if p.Some? && p.value !in rows { return NoSuchParent; }
      rows := rows[next - 1 := Org(p, true)];
      return Created(next - 1);
    }

    /** PUT: only the organisation itself is refused as its parent. */
    method Put(id: int, named: bool, parent: Option<int>) returns (r: Response)
      modifies this
      ensures (r, View()) == Handle(old(View()), Update(id, named, parent))
    {
      if id == 0 || !named { return Missing; }
      if parent == Some(id) { return SelfParent; }
      if id in rows {
        var p := NonZero(parent);
        if p.Some? && p.value !in rows { return NoSuchParent; }
        rows := rows[id := rows[id].(parent := p)];
      }
      return Done;
    }

    /** DELETE: the children become roots, the organisation is deactivated where it stands. */
    method Remove(id: int) returns (r: Response)
      modifies this
      ensures (r, View()) == Handle(old(View()), Delete(id))
    {
      rows := map i | i in rows :: if rows[i].parent == Some(id) then rows[i].(parent := None) else rows[i];
      if id in rows { rows := rows[id := rows[id].(active := false)]; }
      assert rows == Detached(old(rows), id);
      return Done;
    }
  }

  // ---------- chains ----------

  lemma {:induction false} UpNext(rows: Rows, id: int, k: nat)
    ensures Up(rows, id, k).Some? ==>
              var at := Up(rows, id, k).value;
              && at in rows
              && Up(rows, id, k + 1) == if rows[at].parent.None? then None else Up(rows, rows[at].parent.value, 0)
    decreases k
  {
    if k > 0 && id in rows && rows[id].parent.Some? {
      UpNext(rows, rows[id].parent.value, k - 1);
    }
  }

  lemma {:induction false} UpSum(rows: Rows, id: int, j: nat, k: nat)
    requires Up(rows, id, j).Some?
    ensures Up(rows, id, j + k) == Up(rows, Up(rows, id, j).value, k)
    decreases j
  {
    if j > 0 { UpSum(rows, rows[id].parent.value, j - 1, k); }
  }

  /** A chain that is over stays over. */
  lemma {:induction false} UpShrinks(rows: Rows, id: int, j: nat, k: nat)
    requires j <= k && Up(rows, id, j).None?
    ensures Up(rows, id, k).None?
    decreases j
  {
    if j > 0 && id in rows && rows[id].parent.Some? {
      UpShrinks(rows, rows[id].parent.value, j - 1, k - 1);
    }
  }

  /** No organisation is among its own proper ancestors. */
  ghost predicate Acyclic(rows: Rows) {
    forall id, k: nat :: k > 0 ==> Up(rows, id, k) != Some(id)
  }

  ghost predicate AllEnd(rows: Rows) {
    forall id :: Ends(rows, id)
  }

  /** More entries than values: some value comes twice. */
  lemma {:induction false} Pigeonhole(s: seq<int>, values: set<int>)
    requires |s| > |values| && forall i :: 0 <= i < |s| ==> s[i] in values
    ensures exists i, j :: 0 <= i < j < |s| && s[i] == s[j]
    decreases |s|
  {
    var last := |s| - 1;
    var rest := s[..last];
    if i :| 0 <= i < last && s[i] == s[last] {
    } else {
      Pigeonhole(rest, values - {s[last]});
      var i, j :| 0 <= i < j < last && rest[i] == rest[j];
      assert s[i] == s[j];
    }
  }

  /** The first n ancestors, from the row itself up. */
  ghost function Chain(rows: Rows, id: int, n: nat): (s: seq<int>)
    requires forall k: nat :: k < n ==> Up(rows, id, k).Some?
    ensures |s| == n && forall k: nat :: k < n ==> s[k] == Up(rows, id, k).value
  {
    seq(n, k requires 0 <= k < n => Up(rows, id, k).value)
  }

  /** A chain longer than the number of rows runs into a cycle. */
  lemma LongChainRepeats(rows: Rows, id: int)
    requires !Ends(rows, id)
    ensures exists x, i: nat, k: nat :: k > 0 && Up(rows, id, i) == Some(x) && Up(rows, x, k) == Some(x)
  {
    var n := |rows| + 1;
    forall k: nat | k < n ensures Up(rows, id, k).Some? && Up(rows, id, k).value in rows.Keys {
      if Up(rows, id, k).None? { UpShrinks(rows, id, k, |rows|); }
      UpNext(rows, id, k);
    }
    var s := Chain(rows, id, n);
    assert |rows.Keys| == |rows|;
    Pigeonhole(s, rows.Keys);
    var i, j :| 0 <= i < j < |s| && s[i] == s[j];
    UpSum(rows, id, i, j - i);
    assert Up(rows, id, i) == Some(s[i]) && Up(rows, s[i], j - i) == Some(s[i]);
  }

  lemma {:induction false} CycleNeverEnds(rows: Rows, id: int, k: nat, n: nat)
    requires k > 0 && Up(rows, id, k) == Some(id)
    ensures Up(rows, id, n).Some?
    decreases n
  {
    if n < k {
      if Up(rows, id, n).None? { UpShrinks(rows, id, n, k); }
    } else {
      CycleNeverEnds(rows, id, k, n - k);
      UpSum(rows, id, k, n - k);
    }
  }

  /** The depth query ends from every row exactly when the parent links have no cycle. */
  lemma AcyclicIsAllEnd(rows: Rows)
    ensures Acyclic(rows) <==> AllEnd(rows)
  {
    if Acyclic(rows) {
      forall id ensures Ends(rows, id) {
        if !Ends(rows, id) { LongChainRepeats(rows, id); }
      }
    }
    if AllEnd(rows) {
      forall id, k: nat | k > 0 ensures Up(rows, id, k) != Some(id) {
        assert Ends(rows, id);
        if Up(rows, id, k) == Some(id) { CycleNeverEnds(rows, id, k, |rows|); }
      }
    }
  }

  /** Ends is no matter of the bound: a chain that ends at all ends within the number of rows. */
  lemma EndsMeans(rows: Rows, id: int, n: nat)
    requires Up(rows, id, n).None?
    ensures Ends(rows, id)
  {
    if !Ends(rows, id) {
      LongChainRepeats(rows, id);
      var x, i: nat, k: nat :| k > 0 && Up(rows, id, i) == Some(x) && Up(rows, x, k) == Some(x);
      CycleNeverEnds(rows, x, k, n);
      UpSum(rows, id, i, n);
      UpShrinks(rows, id, n, i + n);
    }
  }

  // ---------- creating and deleting ----------

  /** Parents exist, ids come from the sequence, and no chain is longer than three. */
  ghost predicate Forest(db: Db) {
    && db.next > 0
    && (forall i :: i in db.rows ==> 0 < i < db.next)
    && (forall i :: i in db.rows && db.rows[i].parent.Some? ==> db.rows[i].parent.value in db.rows)
    && Shallow(db.rows)
  }

  ghost predicate Shallow(rows: Rows) {
    forall id :: Up(rows, id, MAX_DEPTH).None?
  }

  lemma ShallowIsAcyclic(rows: Rows)
    requires Shallow(rows)
    ensures Acyclic(rows)
  {
    forall id, k: nat | k > 0 ensures Up(rows, id, k) != Some(id) {
      if Up(rows, id, k) == Some(id) { CycleNeverEnds(rows, id, k, MAX_DEPTH); }
    }
  }

  /** Cutting links only shortens chains. */
  lemma {:induction false} CutShortens(rows: Rows, cut: Rows, id: int, k: nat)
    requires cut.Keys == rows.Keys
    requires forall i :: i in rows ==> cut[i].parent.None? || cut[i].parent == rows[i].parent
    requires Up(rows, id, k).None?
    ensures Up(cut, id, k).None?
    decreases k
  {
    if k > 0 && id in cut && cut[id].parent.Some? {
      CutShortens(rows, cut, cut[id].parent.value, k - 1);
    }
  }

  /** A row no one points to does not change the other chains. */
  lemma {:induction false} NewRowAside(rows: Rows, added: int, org: Org, id: int, k: nat)
    requires added !in rows && id != added
    requires forall i :: i in rows && rows[i].parent.Some? ==> rows[i].parent.value in rows
    ensures Up(rows[added := org], id, k) == Up(rows, id, k)
    decreases k
  {
    if k > 0 && id in rows && rows[id].parent.Some? {
      NewRowAside(rows, added, org, rows[id].parent.value, k - 1);
    }
  }

  /** In a forest the depth query always ends, and creating and deleting keep it a forest. */
  lemma HandleKeepsForest(db: Db, r: Request)
    requires Forest(db) && !r.Update?
    ensures Forest(Handle(db, r).1) && !Handle(db, r).0.Hangs?
  {
    var t := Handle(db, r).1;
    match r
    case Create(named, parent) =>
      var p := NonZero(parent);
      if p.Some? { EndsMeans(db.rows, p.value, MAX_DEPTH); }
      if Handle(db, r).0.Created? {
        forall id ensures Up(t.rows, id, MAX_DEPTH).None? {
          if id == db.next {
            if p.Some? { NewRowAside(db.rows, db.next, Org(p, true), p.value, MAX_DEPTH - 1); }
          } else {
            NewRowAside(db.rows, db.next, Org(p, true), id, MAX_DEPTH);
          }
        }
      }
    case Delete(id) =>
      forall i ensures Up(t.rows, i, MAX_DEPTH).None? {
        CutShortens(db.rows, t.rows, i, MAX_DEPTH);
      }
  }

  /** A deleted organisation is nobody's ancestor any more; its own parent and all other links stay. */
  lemma DeleteDetaches(db: Db, id: int, x: int, k: nat)
    ensures var rows := Handle(db, Delete(id)).1.rows;
            && rows.Keys == db.rows.Keys
            && (id in rows ==> !rows[id].active)
            && (k > 0 ==> Up(rows, x, k) != Some(id))
            && (x in rows && db.rows[x].parent != Some(id) ==> rows[x].parent == db.rows[x].parent)
            && (x in rows && x != id ==> rows[x].active == db.rows[x].active)
  {
    var rows := Handle(db, Delete(id)).1.rows;
    if k > 0 && Up(rows, x, k) == Some(id) {
      if Up(rows, x, k - 1).None? { UpShrinks(rows, x, k - 1, k); }
      UpNext(rows, x, k - 1);
    }
  }

  function Run(db: Db, rs: seq<Request>): Db
    decreases |rs|
  {
    if rs == [] then db else Run(Handle(db, rs[0]).1, rs[1..])
  }

  lemma {:induction false} RunKeepsForest(db: Db, rs: seq<Request>)
    requires Forest(db) && forall i :: 0 <= i < |rs| ==> !rs[i].Update?
    ensures Forest(Run(db, rs))
    decreases |rs|
  {
    hide Forest, Handle;
    if rs != [] {
      HandleKeepsForest(db, rs[0]);
      RunKeepsForest(Handle(db, rs[0]).1, rs[1..]);
    }
  }

  /** Every run of creates and deletes leaves no cycle, no chain over three, and a query that ends. */
  lemma ReachableForest(rs: seq<Request>, id: int)
    requires forall i :: 0 <= i < |rs| ==> !rs[i].Update?
    ensures var rows := Run(EMPTY, rs).rows;
            Acyclic(rows) && Up(rows, id, MAX_DEPTH).None? && Ends(rows, id)
  {
    RunKeepsForest(EMPTY, rs);
    var rows := Run(EMPTY, rs).rows;
    ShallowIsAcyclic(rows);
    EndsMeans(rows, id, MAX_DEPTH);
  }

  // ---------- moving a subtree ----------

  /** x lies in the subtree of id, which holds id itself. */
  ghost predicate InSubtree(rows: Rows, id: int, x: int) {
    exists k: nat :: Up(rows, x, k) == Some(id)
  }

  /** Outside the subtree chains are as before. */
  lemma {:induction false} OutsideSame(rows: Rows, id: int, parent: Option<int>, x: int, k: nat)
    requires id in rows && forall j: nat :: j < k ==> Up(rows, x, j) != Some(id)
    ensures Up(Moved(rows, id, parent), x, k) == Up(rows, x, k)
    decreases k
  {
    if k > 0 { assert Up(rows, x, 0) != Some(id); }
    if k > 0 && x in rows && rows[x].parent.Some? {
      var y := rows[x].parent.value;
      forall j: nat | j < k - 1 ensures Up(rows, y, j) != Some(id) {
        assert Up(rows, x, j + 1) == Up(rows, y, j);
      }
      OutsideSame(rows, id, parent, y, k - 1);
    }
  }

  /** Up to the moved row too. */
  lemma {:induction false} StillReaches(rows: Rows, id: int, parent: Option<int>, x: int, h: nat)
    requires id in rows && Acyclic(rows) && Up(rows, x, h) == Some(id)
    ensures Up(Moved(rows, id, parent), x, h) == Some(id)
    decreases h
  {
    if h > 0 {
      assert x != id;
      StillReaches(rows, id, parent, rows[x].parent.value, h - 1);
    }
  }

  /** Past the moved row a chain goes on from the new parent. */
  lemma ReachesAcross(rows: Rows, id: int, parent: int, x: int, h: nat, m: nat)
    requires id in rows && Acyclic(rows) && Up(rows, x, h) == Some(id)
    ensures var moved := Moved(rows, id, Some(parent)); Up(moved, x, h + 1 + m) == Up(moved, parent, m)
  {
    var moved := Moved(rows, id, Some(parent));
    StillReaches(rows, id, Some(parent), x, h);
    UpSum(moved, x, h, 1 + m);
  }

  lemma {:induction false} ChainsStillEnd(rows: Rows, id: int, parent: int, x: int, n: nat, end: nat)
    requires id in rows
    requires Up(rows, x, n).None? && Up(Moved(rows, id, Some(parent)), parent, end).None?
    ensures exists m: nat :: Up(Moved(rows, id, Some(parent)), x, m).None?
    decreases n
  {
    var moved := Moved(rows, id, Some(parent));
    if x !in rows {
      assert Up(moved, x, 0).None?;
    } else if x == id {
      assert Up(moved, x, end + 1).None?;
    } else if rows[x].parent.None? {
      assert Up(moved, x, 1).None?;
    } else {
      ChainsStillEnd(rows, id, parent, rows[x].parent.value, n - 1, end);
      var m: nat :| Up(moved, rows[x].parent.value, m).None?;
      assert Up(moved, x, m + 1).None?;
    }
  }

  /** Re-parenting keeps the links acyclic exactly when the new parent is outside the moved subtree. */
  lemma MoveKeepsAcyclicExactly(rows: Rows, id: int, parent: int)
    requires Acyclic(rows) && id in rows
    ensures Acyclic(Moved(rows, id, Some(parent))) <==> !InSubtree(rows, id, parent)
  {
    hide Acyclic;
    var moved := Moved(rows, id, Some(parent));
    AcyclicIsAllEnd(rows);
    AcyclicIsAllEnd(moved);
    if InSubtree(rows, id, parent) {
      var k: nat :| Up(rows, parent, k) == Some(id);
      StillReaches(rows, id, Some(parent), parent, k);
      assert Up(moved, id, k + 1) == Some(id);
      CycleNeverEnds(moved, id, k + 1, |moved|);
      assert !Ends(moved, id);
    } else {
      assert Ends(rows, parent);
      OutsideSame(rows, id, Some(parent), parent, |rows|);
      forall x ensures Ends(moved, x) {
        assert Ends(rows, x);
        ChainsStillEnd(rows, id, parent, x, |rows|, |rows|);
        var m: nat :| Up(moved, x, m).None?;
        EndsMeans(moved, x, m);
      }
    }
  }

  /** The depth of the new parent and the height of the moved subtree together stay within three. */
  ghost predicate FitsBelow(rows: Rows, id: int, parent: int) {
    forall x, h: nat :: h < MAX_DEPTH && Up(rows, x, h) == Some(id) ==> Up(rows, parent, MAX_DEPTH - 1 - h).None?
  }

  lemma FitsBelowIsOutside(rows: Rows, id: int, parent: int)
    requires Shallow(rows) && parent != id && FitsBelow(rows, id, parent)
    ensures !InSubtree(rows, id, parent)
  {
    if k: nat :| Up(rows, parent, k) == Some(id) {
      if k >= MAX_DEPTH { UpShrinks(rows, parent, MAX_DEPTH, k); }
      assert Up(rows, parent, MAX_DEPTH - 1 - k).None?;
      if MAX_DEPTH - 1 - k <= k { UpShrinks(rows, parent, MAX_DEPTH - 1 - k, k); }
    }
  }

  /** A move the handler accepts keeps every chain within three exactly when the subtree fits below. */
  lemma MoveKeepsDepthExactly(rows: Rows, id: int, parent: int)
    requires Shallow(rows) && id in rows && parent != id
    ensures Shallow(Moved(rows, id, Some(parent))) <==> FitsBelow(rows, id, parent)
  {
    var moved := Moved(rows, id, Some(parent));
    ShallowIsAcyclic(rows);
    MoveKeepsAcyclicExactly(rows, id, parent);
    if Shallow(moved) {
      ShallowIsAcyclic(moved);
      forall x, h: nat | h < MAX_DEPTH && Up(rows, x, h) == Some(id)
        ensures Up(rows, parent, MAX_DEPTH - 1 - h).None?
      {
        ReachesAcross(rows, id, parent, x, h, MAX_DEPTH - 1 - h);
        OutsideSame(rows, id, Some(parent), parent, MAX_DEPTH - 1 - h);
      }
    }
    if FitsBelow(rows, id, parent) {
      FitsBelowIsOutside(rows, id, parent);
      forall x ensures Up(moved, x, MAX_DEPTH).None? {
        if h: nat :| h < MAX_DEPTH && Up(rows, x, h) == Some(id) {
          ReachesAcross(rows, id, parent, x, h, MAX_DEPTH - 1 - h);
          OutsideSame(rows, id, Some(parent), parent, MAX_DEPTH - 1 - h);
        } else {
          OutsideSame(rows, id, Some(parent), x, MAX_DEPTH);
        }
      }
    }
  }

  /** What the handler does with a move: the forest is kept exactly when the subtree fits below its
      new parent, or the request changes nothing. */
  lemma UpdateKeepsForestExactly(db: Db, r: Request)
    requires Forest(db) && r.Update?
    ensures Forest(Handle(db, r).1) <==>
              || Handle(db, r).1 == db
              || NonZero(r.newParent).None?
              || FitsBelow(db.rows, r.id, NonZero(r.newParent).value)
  {
    var t := Handle(db, r).1;
    var p := NonZero(r.newParent);
    if t != db {
      if p.Some? {
        MoveKeepsDepthExactly(db.rows, r.id, p.value);
      } else {
        forall i ensures Up(t.rows, i, MAX_DEPTH).None? {
          CutShortens(db.rows, t.rows, i, MAX_DEPTH);
        }
      }
    }
  }

  /** The self-parent check is not enough: a parent may be put below its own child, and after that
      no organisation can be created below either. */
  lemma ParentBelowChild()
    ensures var db := Run(EMPTY, [Create(true, None), Create(true, Some(1)), Update(1, true, Some(2))]);
            && !Acyclic(db.rows)
            && Handle(db, Create(true, Some(2))) == (Hangs, db)
  {
    var a := Handle(EMPTY, Create(true, None)).1;
    assert a == Db(map[1 := Org(None, true)], 2);
    assert Up(a.rows, 1, 1).None?;
    var b := Handle(a, Create(true, Some(1))).1;
    assert b == Db(map[1 := Org(None, true), 2 := Org(Some(1), true)], 3);
    var c := Handle(b, Update(1, true, Some(2))).1;
    assert c == Db(map[1 := Org(Some(2), true), 2 := Org(Some(1), true)], 3);
    var rs := [Create(true, None), Create(true, Some(1)), Update(1, true, Some(2))];
    assert rs[1..] == [Create(true, Some(1)), Update(1, true, Some(2))];
    assert rs[1..][1..] == [Update(1, true, Some(2))];
    assert rs[1..][1..][1..] == [];
    assert Run(EMPTY, rs) == c;
    assert Up(c.rows, 2, 1) == Some(1);
    assert Up(c.rows, 2, 2) == Some(2);
    CycleNeverEnds(c.rows, 2, 2, |c.rows|);
  }

  // ---------- what one request answers ----------

  /** An organisation below one that is itself below another. */
  ghost predicate Third(rows: Rows, id: int) {
    && id in rows && rows[id].parent != None
    && rows[id].parent.value in rows && rows[rows[id].parent.value].parent != None
  }

  /** What a create is answered in a forest, exactly: it is accepted when it has a name and is to be a root, or
      its parent exists and is not on the third level, and then it is added below that and nothing else
      changes; a missing parent alone uses up an id. */
  lemma CreatedExactly(db: Db, named: bool, parent: Option<int>)
    requires Forest(db)
    ensures var (resp, t) := Handle(db, Create(named, parent));
            var asRoot := parent == None || parent.value == 0;
            && (resp == Created(db.next) <==> named && (asRoot || (parent.value in db.rows && !Third(db.rows, parent.value))))
            && (resp == Created(db.next) ==> t.rows == db.rows[db.next := Org(if asRoot then None else parent, true)])
            && (resp == Missing <==> !named)
            && (resp == TooDeep <==> named && !asRoot && Third(db.rows, parent.value))
            && (resp == NoSuchParent <==> named && !asRoot && parent.value !in db.rows)
            && (resp != Created(db.next) ==> t.rows == db.rows)
            && t.next == (if !named || resp == TooDeep then db.next else db.next + 1)
  {
    var p := NonZero(parent);
    if p.Some? {
      EndsMeans(db.rows, p.value, MAX_DEPTH);
      ThirdIsUpTwo(db.rows, p.value);
    }
  }

  lemma ThirdIsUpTwo(rows: Rows, id: int)
    requires forall i :: i in rows && rows[i].parent.Some? ==> rows[i].parent.value in rows
    ensures Up(rows, id, 2).Some? <==> Third(rows, id)
  {
    if id in rows && rows[id].parent.Some? {
      assert Up(rows, id, 2) == Up(rows, rows[id].parent.value, 1);
    }
  }

  /** Three levels can be made, and no fourth. */
  lemma ThreeLevels()
    ensures var db := Run(EMPTY, [Create(true, None), Create(true, Some(1)), Create(true, Some(2))]);
            && db == Db(map[1 := Org(None, true), 2 := Org(Some(1), true), 3 := Org(Some(2), true)], 4)
            && Handle(db, Create(true, Some(3))) == (TooDeep, db)
  {
    var rs := [Create(true, None), Create(true, Some(1)), Create(true, Some(2))];
    assert Run(EMPTY, rs) == Run(Handle(EMPTY, rs[0]).1, rs[1..]);
  }

  /** What an update is answered, exactly; it sets the parent given, and no other row or column. */
  lemma UpdatedExactly(db: Db, id: int, named: bool, parent: Option<int>, x: int)
    requires 0 !in db.rows
    ensures var (resp, t) := Handle(db, Update(id, named, parent));
            var unknown := id in db.rows && parent != None && parent.value !in db.rows.Keys + {0};
            && t.rows.Keys == db.rows.Keys && t.next == db.next
            && (resp == Missing <==> id == 0 || !named)
            && (resp == SelfParent <==> id != 0 && named && parent == Some(id))
            && (resp == NoSuchParent <==> id != 0 && named && parent != Some(id) && unknown)
            && (resp == Done <==> id != 0 && named && parent != Some(id) && !unknown)
            && (x in db.rows ==>
                  && t.rows[x].active == db.rows[x].active
                  && t.rows[x].parent == (if x != id || resp != Done then db.rows[x].parent
                                          else if parent == Some(0) then None else parent))
  {
  }
}
