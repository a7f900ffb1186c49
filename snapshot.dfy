/** Loading the whole database from the store (`getInitialData`,
    src/services/supabase.provider.ts:39-60) and replacing it by a snapshot
    (`replaceAllData`, src/services/supabase.provider.ts:62-95). */
module Snapshot {
  import opened JsonValue
  import opened KeyCodec
  import opened CaseCodec
  import opened Tables
  import opened Store

  /** The application's database: one collection per table; `categories`
      holds the category names themselves. */
  datatype DB = DB(
    items: seq<Json>, redShelfItems: seq<Json>, technicians: seq<Json>,
    suppliers: seq<Json>, movements: seq<Json>, categories: seq<Json>,
    auditLogs: seq<Json>, purchaseOrders: seq<Json>, pickingLists: seq<Json>,
    kits: seq<Json>, reservations: seq<Json>, users: seq<Json>)

  const EmptyDB: DB := DB([], [], [], [], [], [], [], [], [], [], [], [])

  /** The collection kept for table `t`. */
  function Collection(db: DB, t: Table): seq<Json>
  {
    match t
    case Items => db.items
    case RedShelfItems => db.redShelfItems
    case Technicians => db.technicians
    case Suppliers => db.suppliers
    case Movements => db.movements
    case AuditLogs => db.auditLogs
    case PurchaseOrders => db.purchaseOrders
    case PickingLists => db.pickingLists
    case Kits => db.kits
    case Reservations => db.reservations
    case Users => db.users
    case Categories => db.categories
  }

  /** Two databases with the same collections are the same. */
  lemma DBExtensional(a: DB, b: DB)
    requires forall t :: Collection(a, t) == Collection(b, t)
    ensures a == b
  {
    assert Collection(a, Items) == Collection(b, Items);
    assert Collection(a, RedShelfItems) == Collection(b, RedShelfItems);
    assert Collection(a, Technicians) == Collection(b, Technicians);
    assert Collection(a, Suppliers) == Collection(b, Suppliers);
    assert Collection(a, Movements) == Collection(b, Movements);
    assert Collection(a, AuditLogs) == Collection(b, AuditLogs);
    assert Collection(a, PurchaseOrders) == Collection(b, PurchaseOrders);
    assert Collection(a, PickingLists) == Collection(b, PickingLists);
    assert Collection(a, Kits) == Collection(b, Kits);
    assert Collection(a, Reservations) == Collection(b, Reservations);
    assert Collection(a, Users) == Collection(b, Users);
    assert Collection(a, Categories) == Collection(b, Categories);
  }

  /** Where the result for table `t` sits among the load results. */
  function LoadIndex(t: Table): (i: nat)
    ensures i < |LoadOrder| && LoadOrder[i] == t
  {
    match t
    case Items => 0
    case RedShelfItems => 1
    case Technicians => 2
    case Suppliers => 3
    case Movements => 4
    case AuditLogs => 5
    case PurchaseOrders => 6
    case PickingLists => 7
    case Kits => 8
    case Reservations => 9
    case Users => 10
    case Categories => 11
  }

  /** Where table `t` sits in the delete order. */
  function DeleteIndex(t: Table): (i: nat)
    ensures i < |DeleteOrder| && DeleteOrder[i] == t
  {
    match t
    case Movements => 0
    case PickingLists => 1
    case PurchaseOrders => 2
    case Reservations => 3
    case Kits => 4
    case Items => 5
    case RedShelfItems => 6
    case Technicians => 7
    case Suppliers => 8
    case Users => 9
    case AuditLogs => 10
    case Categories => 11
  }

  /** Where table `t` sits in the insert order. */
  function InsertIndex(t: Table): (i: nat)
    ensures i < |InsertOrder| && InsertOrder[i] == t
  {
    match t
    case Categories => 0
    case AuditLogs => 1
    case Users => 2
    case Suppliers => 3
    case Technicians => 4
    case RedShelfItems => 5
    case Items => 6
    case Kits => 7
    case Reservations => 8
    case PurchaseOrders => 9
    case PickingLists => 10
    case Movements => 11
  }

  // ---------------------------------------------------------------- loading

  /** `r.data?.map(d => this.snakeToCamel(d)) || []`. */
  function Camelized(r: Response): (rows: seq<Json>)
    ensures r.data.None? ==> rows == []
    ensures r.data.Some? ==> |rows| == |r.data.value|
    ensures forall i :: 0 <= i < |rows| ==> rows[i] == ToCamel(r.data.value[i]) && CamelClean(rows[i])
  {
    if r.data.Some? then
      var d := r.data.value;
      var rows := seq(|d|, i requires 0 <= i < |d| => ToCamel(d[i]));
      forall i | 0 <= i < |d| ensures CamelClean(rows[i]) {
        ToCamelIsClean(d[i]);
      }
      rows
    else []
  }

  /** `.map(c => c.name)`. */
  function Names(rows: seq<Json>): (names: seq<Json>)
    ensures |names| == |rows|
    ensures forall i :: 0 <= i < |rows| ==> names[i] == Field(rows[i], "name")
  {
    seq(|rows|, i requires 0 <= i < |rows| => Field(rows[i], "name"))
  }

  /** `.map(c => c.name)` distributes over concatenation. */
  lemma NamesAppend(a: seq<Json>, b: seq<Json>)
    ensures Names(a + b) == Names(a) + Names(b)
  {
  }

  predicate AnyError(results: seq<Response>)
  {
    exists i :: 0 <= i < |results| && results[i].error.Some?
  }

  /** Whether `.map(c => c.name)` meets a `null` category row, on which
      reading `name` throws. */
  predicate NullCategory(results: seq<Response>)
    requires |results| == |LoadOrder|
  {
    JNull in Camelized(results[LoadIndex(Categories)])
  }

  /** The database assembled from twelve results that all succeeded, given
      in `LoadOrder`. */
  function Assembled(results: seq<Response>): (db: DB)
    requires |results| == |LoadOrder|
    ensures db.categories == Names(Camelized(results[LoadIndex(Categories)]))
  {
    DB(Camelized(results[0]), Camelized(results[1]), Camelized(results[2]), Camelized(results[3]),
       Camelized(results[4]), Names(Camelized(results[11])), Camelized(results[5]), Camelized(results[6]),
       Camelized(results[7]), Camelized(results[8]), Camelized(results[9]), Camelized(results[10]))
  }

  /** Each collection other than the categories is the camelCase image of its result. */
  lemma AssembledCollection(results: seq<Response>, t: Table)
    requires |results| == |LoadOrder| && t != Categories
    ensures Collection(Assembled(results), t) == Camelized(results[LoadIndex(t)])
  {
  }

  /** The database `getInitialData` builds from the twelve results, given in
      `LoadOrder`: an error thrown, by a failed result or by a `null` category
      row, is caught and yields the empty database; otherwise every collection
      is the camelCase image of its rows and `categories` is the list of the
      category rows' names. */
  function LoadSnapshot(results: seq<Response>): (db: DB)
    requires |results| == |LoadOrder|
    ensures AnyError(results) || NullCategory(results) ==> db == EmptyDB
    ensures !AnyError(results) && !NullCategory(results) ==>
      forall t :: t != Categories ==> Collection(db, t) == Camelized(results[LoadIndex(t)])
    ensures !AnyError(results) && !NullCategory(results) ==>
      db.categories == Names(Camelized(results[LoadIndex(Categories)]))
  {
    if AnyError(results) || NullCategory(results) then EmptyDB
    else
      assert forall t :: t != Categories ==> Collection(Assembled(results), t) == Camelized(results[LoadIndex(t)]) by {
        forall t | t != Categories
          ensures Collection(Assembled(results), t) == Camelized(results[LoadIndex(t)])
        {
          AssembledCollection(results, t);
        }
      }
      Assembled(results)
  }

  /** The request `getInitialData` sends for table `t`: `select('*')`. */
  function LoadOp(t: Table): Op
  {
    Select(t, NoFilter)
  }

  /** The store's answers to the twelve load requests. */
  function LoadAnswers(s: State, faults: map<Op, string>): (rs: seq<Response>)
    ensures |rs| == |LoadOrder|
    ensures forall i :: 0 <= i < |LoadOrder| ==> rs[i] == Answer(s, faults, LoadOp(LoadOrder[i]))
  {
    seq(|LoadOrder|, i requires 0 <= i < |LoadOrder| => Answer(s, faults, LoadOp(LoadOrder[i])))
  }

  /** A select without a filter returns the whole table. */
  lemma {:induction false} PickAll(rows: seq<Json>)
    ensures Pick(rows, NoFilter) == rows
  {
    if rows != [] {
      PickAll(rows[1..]);
      assert rows == [rows[0]] + rows[1..];
    }
  }

  /** When the store accepts the twelve selects, no result carries an error
      and each loaded collection is the camelCase image of its table. */
  lemma LoadedRows(s: State, faults: map<Op, string>, t: Table)
    requires forall u :: LoadOp(u) !in faults
    ensures !AnyError(LoadAnswers(s, faults))
    ensures var c := Camelized(LoadAnswers(s, faults)[LoadIndex(t)]);
      |c| == |Rows(s, t)| && forall i :: 0 <= i < |c| ==> c[i] == ToCamel(Rows(s, t)[i])
  {
    var rs := LoadAnswers(s, faults);
    forall i | 0 <= i < |rs| ensures rs[i].error.None? {
      assert rs[i] == Answer(s, faults, LoadOp(LoadOrder[i]));
    }
    PickAll(Rows(s, t));
  }

  /** A row loads as `null` exactly when it is `null`. */
  lemma {:induction false} NullRowLoads(rows: seq<Json>, c: seq<Json>)
    requires |c| == |rows| && forall i :: 0 <= i < |c| ==> c[i] == ToCamel(rows[i])
    ensures JNull in c <==> JNull in rows
  {
    if JNull in c {
      var i :| 0 <= i < |c| && c[i] == JNull;
      assert rows[i] == JNull;
    }
    if JNull in rows {
      var i :| 0 <= i < |rows| && rows[i] == JNull;
      assert c[i] == JNull;
    }
  }

  /** A refused load request empties the whole snapshot. */
  lemma LoadRefused(s: State, faults: map<Op, string>, u: Table)
    requires LoadOp(u) in faults
    ensures LoadSnapshot(LoadAnswers(s, faults)) == EmptyDB
  {
    assert LoadAnswers(s, faults)[LoadIndex(u)].error.Some?;
  }

  /** A `null` category row, with every request answered, empties the whole snapshot. */
  lemma LoadNullCategory(s: State, faults: map<Op, string>)
    requires forall u :: LoadOp(u) !in faults
    requires JNull in Rows(s, Categories)
    ensures LoadSnapshot(LoadAnswers(s, faults)) == EmptyDB
  {
    var rs := LoadAnswers(s, faults);
    LoadedRows(s, faults, Categories);
    NullRowLoads(Rows(s, Categories), Camelized(rs[LoadIndex(Categories)]));
  }

  /** With every request answered and no `null` category row, a collection
      is the camelCase image of its table. */
  lemma LoadedRecords(s: State, faults: map<Op, string>, t: Table)
    requires forall u :: LoadOp(u) !in faults
    requires JNull !in Rows(s, Categories) && t != Categories
    ensures var c := Collection(LoadSnapshot(LoadAnswers(s, faults)), t);
      |c| == |Rows(s, t)| && forall i :: 0 <= i < |c| ==> c[i] == ToCamel(Rows(s, t)[i])
  {
    var rs := LoadAnswers(s, faults);
    LoadedRows(s, faults, t);
    LoadedRows(s, faults, Categories);
    NullRowLoads(Rows(s, Categories), Camelized(rs[LoadIndex(Categories)]));
  }

  /** With every request answered and no `null` category row, the categories
      are the names of the category rows. */
  lemma LoadedNames(s: State, faults: map<Op, string>)
    requires forall u :: LoadOp(u) !in faults
    requires JNull !in Rows(s, Categories)
    ensures var c := LoadSnapshot(LoadAnswers(s, faults)).categories;
      var rows := Rows(s, Categories);
      |c| == |rows| && forall i :: 0 <= i < |c| ==> c[i] == Field(ToCamel(rows[i]), "name")
  {
    var rs := LoadAnswers(s, faults);
    LoadedRows(s, faults, Categories);
    NullRowLoads(Rows(s, Categories), Camelized(rs[LoadIndex(Categories)]));
  }

  /** If the store refuses any load request, or the categories table holds a
      `null` row, the application starts from the empty database; otherwise
      every collection is the camelCase image of its table, row for row, and
      the categories are the rows' names. */
  lemma LoadShape(s: State, faults: map<Op, string>, t: Table)
    ensures (exists u :: LoadOp(u) in faults) ==> LoadSnapshot(LoadAnswers(s, faults)) == EmptyDB
    ensures (forall u :: LoadOp(u) !in faults) && JNull in Rows(s, Categories) ==>
      LoadSnapshot(LoadAnswers(s, faults)) == EmptyDB
    ensures (forall u :: LoadOp(u) !in faults) && JNull !in Rows(s, Categories) && t != Categories ==>
      var c := Collection(LoadSnapshot(LoadAnswers(s, faults)), t);
      |c| == |Rows(s, t)| && forall i :: 0 <= i < |c| ==> c[i] == ToCamel(Rows(s, t)[i])
    ensures (forall u :: LoadOp(u) !in faults) && JNull !in Rows(s, Categories) ==>
      var c := LoadSnapshot(LoadAnswers(s, faults)).categories;
      var rows := Rows(s, Categories);
      |c| == |rows| && forall i :: 0 <= i < |c| ==> c[i] == Field(ToCamel(rows[i]), "name")
  {
    if exists u :: LoadOp(u) in faults {
      var u :| LoadOp(u) in faults;
      LoadRefused(s, faults, u);
    } else if JNull in Rows(s, Categories) {
      LoadNullCategory(s, faults);
    } else {
      if t != Categories {
        LoadedRecords(s, faults, t);
      }
      LoadedNames(s, faults);
    }
  }

  function LoadOps(ts: seq<Table>): (ops: seq<Op>)
    ensures |ops| == |ts|
    ensures forall i :: 0 <= i < |ts| ==> ops[i] == LoadOp(ts[i])
  {
    seq(|ts|, i requires 0 <= i < |ts| => LoadOp(ts[i]))
  }

  /** `getInitialData`: one `select('*')` per table, then the shaping above. */
  method GetInitialData(b: Backend) returns (db: DB)
    requires b.Valid()
    modifies b
    ensures b.Valid()
    ensures b.tables == old(b.tables)
    ensures b.log == old(b.log) + LoadOps(LoadOrder)
    ensures db == LoadSnapshot(LoadAnswers(old(b.tables), b.faults))
  {
    var results := SelectAll(b, LoadOps(LoadOrder));
    assert results == LoadAnswers(old(b.tables), b.faults);
    db := LoadSnapshot(results);
  }

  /** Sends the selects `ops` one after another and collects their responses. */
  method SelectAll(b: Backend, ops: seq<Op>) returns (results: seq<Response>)
    requires b.Valid()
    requires forall i :: 0 <= i < |ops| ==> ops[i].Select?
    modifies b
    ensures b.Valid()
    ensures b.tables == old(b.tables)
    ensures b.log == old(b.log) + ops
    ensures |results| == |ops|
    ensures forall i :: 0 <= i < |ops| ==> results[i] == Answer(old(b.tables), b.faults, ops[i])
  {
    results := [];
    for i := 0 to |ops|
      invariant b.Valid()
      invariant b.tables == old(b.tables)
      invariant b.log == old(b.log) + ops[..i]
      invariant |results| == i
      invariant forall j :: 0 <= j < i ==> results[j] == Answer(old(b.tables), b.faults, ops[j])
    {
      var r := b.Execute(ops[i]);
      TakeSnoc(ops, i);
      results := results + [r];
    }
    assert ops[..|ops|] == ops;
  }

  // -------------------------------------------------------------- replacing

  const RestoreFailure: string := "Falha na restauração do banco de dados: "

  /** How the returned promise settles: resolved, or rejected with an `Error`
      carrying this message. */
  datatype Outcome = Done | Failed(message: string)

  /** The delete the restore sends for table `t`: every row, filtered on the
      table's key column. */
  function DeleteOp(t: Table): (op: Op)
    ensures op == Delete(t, NeqFresh(if t == Categories then "name" else "id"))
  {
    Delete(t, NeqFresh(KeyColumn(t)))
  }

  function DeleteOps(ts: seq<Table>): (ops: seq<Op>)
    ensures |ops| == |ts|
    ensures forall i :: 0 <= i < |ts| ==> ops[i] == DeleteOp(ts[i])
  {
    seq(|ts|, i requires 0 <= i < |ts| => DeleteOp(ts[i]))
  }

  /** The position of the first request of `ops` the store refuses, or `|ops|`. */
  function FirstRefused(ops: seq<Op>, faults: map<Op, string>): (k: nat)
    ensures k <= |ops|
    ensures forall j :: 0 <= j < k ==> ops[j] !in faults
    ensures k < |ops| ==> ops[k] in faults
  {
    FirstRefusedFrom(ops, faults, 0)
  }

  /** The position of the first refused request of `ops` from position `i` on. */
  function FirstRefusedFrom(ops: seq<Op>, faults: map<Op, string>, i: nat): (k: nat)
    requires i <= |ops|
    ensures i <= k <= |ops|
    ensures forall j :: i <= j < k ==> ops[j] !in faults
    ensures k < |ops| ==> ops[k] in faults
    decreases |ops| - i
  {
    if i == |ops| then i
    else if ops[i] in faults then i
    else FirstRefusedFrom(ops, faults, i + 1)
  }

  /** The rows inserted into table `t`: `{ name }` per category, the
      snake_case form of each record otherwise. */
  function InsertRows(db: DB, t: Table): (rows: seq<Json>)
    ensures |rows| == |Collection(db, t)|
    ensures t == Categories ==>
      forall i :: 0 <= i < |rows| ==> rows[i] == JObj([("name", Collection(db, t)[i])])
    ensures t != Categories ==>
      forall i :: 0 <= i < |rows| ==> rows[i] == ToSnake(Collection(db, t)[i])
  {
    var c := Collection(db, t);
    if t == Categories then seq(|c|, i requires 0 <= i < |c| => JObj([("name", c[i])]))
    else seq(|c|, i requires 0 <= i < |c| => ToSnake(c[i]))
  }

  /** `if (db.<collection>?.length) await ...insert(...)`: an empty collection
      sends nothing. */
  function InsertStep(db: DB, t: Table): (ops: seq<Op>)
    ensures |Collection(db, t)| == 0 ==> ops == []
    ensures |Collection(db, t)| > 0 ==> ops == [Insert(t, InsertRows(db, t))]
  {
    if |Collection(db, t)| > 0 then [Insert(t, InsertRows(db, t))] else []
  }

  /** The inserts for the tables `ts`, in that order; only tables of `ts`
      with a non-empty collection get one. */
  function InsertSteps(db: DB, ts: seq<Table>): seq<Op>
  {
    if ts == [] then []
    else InsertSteps(db, ts[..|ts| - 1]) + InsertStep(db, ts[|ts| - 1])
  }

  /** Whether the insert for table `t` throws before it is sent: the records
      are converted by the detached `camelToSnake`, which throws on one that
      is a non-empty array or an object with a key other than `poNumber`.
      The category rows are built by an arrow function and never throw. */
  predicate Throws(db: DB, t: Table)
  {
    t != Categories &&
    exists i :: 0 <= i < |Collection(db, t)| && !ConvertsUnbound(Collection(db, t)[i])
  }

  /** No collection's insert throws. */
  predicate Restorable(db: DB)
  {
    forall t :: !Throws(db, t)
  }

  /** `db.<collection>.map(this.camelToSnake)`: the snake_case records, or the
      `TypeError` of the first record the detached method cannot convert. */
  function WrittenRows(c: seq<Json>): (r: Result<seq<Json>>)
    ensures r.Ok? <==> forall i :: 0 <= i < |c| ==> ConvertsUnbound(c[i])
    ensures r.Ok? ==> |r.value| == |c| && forall i :: 0 <= i < |c| ==> r.value[i] == ToSnake(c[i])
    ensures r.Err? ==> r.message == UnboundCallMessage
  {
    if c == [] then Ok([])
    else
      var x := UnboundToSnake(c[0]);
      if x.Err? then Err(x.message)
      else
        var rest := WrittenRows(c[1..]);
        if rest.Err? then rest
        else
          assert forall i :: 1 <= i < |c| ==> c[i] == c[1..][i - 1];
          Ok([x.value] + rest.value)
  }

  /** The position in `ts` of the first table whose insert throws, or `|ts|`. */
  function FirstThrowing(db: DB, ts: seq<Table>): (k: nat)
    ensures k <= |ts|
    ensures forall j :: 0 <= j < k ==> !Throws(db, ts[j])
    ensures k < |ts| ==> Throws(db, ts[k])
  {
    FirstThrowingFrom(db, ts, 0)
  }

  /** The position of the first table of `ts` from position `i` on whose insert throws. */
  function FirstThrowingFrom(db: DB, ts: seq<Table>, i: nat): (k: nat)
    requires i <= |ts|
    ensures i <= k <= |ts|
    ensures forall j :: i <= j < k ==> !Throws(db, ts[j])
    ensures k < |ts| ==> Throws(db, ts[k])
    decreases |ts| - i
  {
    if i == |ts| then i
    else if Throws(db, ts[i]) then i
    else FirstThrowingFrom(db, ts, i + 1)
  }

  /** The inserts the insert phase over `ts` sends: those of the tables before
      the first one whose insert throws. */
  function InsertsSent(db: DB, ts: seq<Table>): seq<Op>
  {
    InsertSteps(db, ts[..FirstThrowing(db, ts)])
  }

  /** The message the insert phase over `ts` throws, if it throws. */
  function InsertError(db: DB, ts: seq<Table>): Option<string>
  {
    if FirstThrowing(db, ts) < |ts| then Some(UnboundCallMessage) else None
  }

  /** The deletes the delete phase over `ts` sends: up to and including the
      first refused one, or all of them. */
  function DeletesSent(faults: map<Op, string>, ts: seq<Table>): seq<Op>
  {
    var ops := DeleteOps(ts);
    var k := FirstRefused(ops, faults);
    if k < |ops| then ops[..k + 1] else ops
  }

  /** The message of the first refused delete of the delete phase over `ts`, if any. */
  function DeleteError(faults: map<Op, string>, ts: seq<Table>): Option<string>
  {
    var ops := DeleteOps(ts);
    var k := FirstRefused(ops, faults);
    if k < |ops| then Some(faults[ops[k]]) else None
  }

  /** The requests a restore that empties `dts` and then fills `its` sends:
      the deletes up to and including the first refused one; if none is
      refused, every delete and then the inserts up to the first table whose
      records throw. */
  function RestoreOps(faults: map<Op, string>, db: DB, dts: seq<Table>, its: seq<Table>): seq<Op>
  {
    if DeleteError(faults, dts).Some? then DeletesSent(faults, dts)
    else DeletesSent(faults, dts) + InsertsSent(db, its)
  }

  /** How such a restore settles: a refused delete or a thrown conversion
      rejects the call.  The inserts' responses are never looked at. */
  function RestoreOutcome(faults: map<Op, string>, db: DB, dts: seq<Table>, its: seq<Table>): Outcome
  {
    match DeleteError(faults, dts)
    case Some(m) => Failed(RestoreFailure + m)
    case None =>
      match InsertError(db, its)
      case Some(m) => Failed(RestoreFailure + m)
      case None => Done
  }

  /** The requests `replaceAllData(db)` sends. */
  function ReplaceOps(faults: map<Op, string>, db: DB): seq<Op>
  {
    RestoreOps(faults, db, DeleteOrder, InsertOrder)
  }

  /** How `replaceAllData(db)` settles. */
  function ReplaceOutcome(faults: map<Op, string>, db: DB): Outcome
  {
    RestoreOutcome(faults, db, DeleteOrder, InsertOrder)
  }

  /** The requests of the restore as evidently intended, with every record
      converted by a bound `camelToSnake`: the deletes, then every insert. */
  function BoundReplaceOps(faults: map<Op, string>, db: DB): seq<Op>
  {
    if DeleteError(faults, DeleteOrder).Some? then DeletesSent(faults, DeleteOrder)
    else DeletesSent(faults, DeleteOrder) + InsertSteps(db, InsertOrder)
  }

  /** How the intended restore settles: only a refused delete rejects it. */
  function BoundReplaceOutcome(faults: map<Op, string>): Outcome
  {
    match DeleteError(faults, DeleteOrder)
    case Some(m) => Failed(RestoreFailure + m)
    case None => Done
  }

  /** `replaceAllData`: the delete loop over `tablesToDelete` stops at the
      first error; the inserts that follow are sent whatever their responses
      say, until converting a collection's records throws. */
  method ReplaceAllData(b: Backend, db: DB) returns (r: Outcome)
    requires b.Valid()
    modifies b
    ensures b.Valid()
    ensures r == ReplaceOutcome(b.faults, db)
    ensures b.log == old(b.log) + ReplaceOps(b.faults, db)
    ensures b.tables == RunAll(old(b.tables), b.faults, ReplaceOps(b.faults, db))
  {
    r := Restore(b, db, DeleteOrder, InsertOrder);
    RunAllAppend(b.initial, b.faults, old(b.log), ReplaceOps(b.faults, db));
  }

  /** The body of `replaceAllData` for the delete order `dts` and the insert
      order `its`. */
  method Restore(b: Backend, db: DB, dts: seq<Table>, its: seq<Table>) returns (r: Outcome)
    requires b.Valid()
    modifies b
    ensures b.Valid()
    ensures r == RestoreOutcome(b.faults, db, dts, its)
    ensures b.log == old(b.log) + RestoreOps(b.faults, db, dts, its)
  {
    ghost var sent := DeletesSent(b.faults, dts);
    var error := DeleteTables(b, dts);
    if error.Some? {
      assert RestoreOps(b.faults, db, dts, its) == sent;
      return Failed(RestoreFailure + error.value);
    }
    assert RestoreOps(b.faults, db, dts, its) == sent + InsertsSent(db, its);
    var thrown := InsertCollections(b, db, its);
    AppendAssoc(old(b.log), sent, InsertsSent(db, its));
    if thrown.Some? {
      return Failed(RestoreFailure + thrown.value);
    }
    r := Done;
  }

  /** The delete phase: every row of each table of `ts` in turn, stopping at
      the first refusal, whose message is returned. */
  method DeleteTables(b: Backend, ts: seq<Table>) returns (error: Option<string>)
    requires b.Valid()
    modifies b
    ensures b.Valid()
    ensures error == DeleteError(b.faults, ts)
    ensures b.log == old(b.log) + DeletesSent(b.faults, ts)
  {
    ghost var ops := DeleteOps(ts);
    for i := 0 to |ts|
      invariant b.Valid()
      invariant b.log == old(b.log) + ops[..i]
      invariant FirstRefused(ops, b.faults) == FirstRefusedFrom(ops, b.faults, i)
    {
      var t := ts[i];
      var key := KeyColumn(t);
      assert ops[i] == Delete(t, NeqFresh(key));
      var response := b.Execute(Delete(t, NeqFresh(key)));
      TakeSnoc(ops, i);
      AppendAssoc(old(b.log), ops[..i], [ops[i]]);
      if response.error.Some? {
        assert FirstRefused(ops, b.faults) == i;
        assert DeletesSent(b.faults, ts) == ops[..i + 1];
        return response.error;
      }
    }
    assert FirstRefused(ops, b.faults) == |ts|;
    assert DeletesSent(b.faults, ts) == ops[..|ts|];
    error := None;
  }

  /** The conditional inserts, one table after another, their responses
      unread; converting a collection's records may throw, which ends the
      phase with the thrown message. */
  method InsertCollections(b: Backend, db: DB, ts: seq<Table>) returns (thrown: Option<string>)
    requires b.Valid()
    modifies b
    ensures b.Valid()
    ensures thrown == InsertError(db, ts)
    ensures b.log == old(b.log) + InsertsSent(db, ts)
  {
    assert ts[..0] == [];
    for i := 0 to |ts|
      invariant b.Valid()
      invariant b.log == old(b.log) + InsertSteps(db, ts[..i])
      invariant FirstThrowing(db, ts) == FirstThrowingFrom(db, ts, i)
    {
      var t := ts[i];
      var c := Collection(db, t);
      if |c| > 0 {
        if t == Categories {
          var ignored := b.Execute(Insert(t, InsertRows(db, t)));
        } else {
          var rows := WrittenRows(c);
          if rows.Err? {
            assert FirstThrowing(db, ts) == i;
            return Some(rows.message);
          }
          assert rows.value == InsertRows(db, t);
          var ignored := b.Execute(Insert(t, rows.value));
        }
      }
      InsertStepsSnoc(db, ts, i);
      AppendAssoc(old(b.log), InsertSteps(db, ts[..i]), InsertStep(db, t));
    }
    assert FirstThrowing(db, ts) == |ts|;
    assert ts[..|ts|] == ts;
    thrown := None;
  }

  // ------------------------------------------------------------ properties

  /** `FirstRefused` is the one position where the refusals start. */
  lemma FirstRefusedAt(ops: seq<Op>, faults: map<Op, string>, k: nat)
    requires k <= |ops|
    requires forall j :: 0 <= j < k ==> ops[j] !in faults
    requires k < |ops| ==> ops[k] in faults
    ensures FirstRefused(ops, faults) == k
  {
  }

  /** Refusing a request that is not among `ops` does not move the first refusal. */
  lemma FirstRefusedIgnores(ops: seq<Op>, faults: map<Op, string>, op: Op, m: string)
    requires op !in ops
    ensures FirstRefused(ops, faults[op := m]) == FirstRefused(ops, faults)
  {
    var k := FirstRefused(ops, faults);
    forall j | 0 <= j <= k && j < |ops| ensures ops[j] != op {
      assert ops[j] in ops;
    }
    FirstRefusedAt(ops, faults[op := m], k);
  }

  /** The store accepts all twelve deletes exactly when none is refused. */
  lemma DeletesAcceptedIff(faults: map<Op, string>)
    ensures DeleteError(faults, DeleteOrder).None? <==> forall t :: DeleteOp(t) !in faults
  {
    var ops := DeleteOps(DeleteOrder);
    if forall t :: DeleteOp(t) !in faults {
      FirstRefusedAt(ops, faults, |ops|);
    } else {
      var t :| DeleteOp(t) in faults;
      assert ops[DeleteIndex(t)] in faults;
    }
  }

  /** The insert phase runs to the end exactly when no collection throws. */
  lemma FirstThrowingIff(db: DB)
    ensures FirstThrowing(db, InsertOrder) == |InsertOrder| <==> Restorable(db)
  {
    if FirstThrowing(db, InsertOrder) == |InsertOrder| {
      forall t ensures !Throws(db, t) {
        assert InsertOrder[InsertIndex(t)] == t;
      }
    }
  }

  /** The restore succeeds exactly when the store accepts all twelve deletes
      and no collection holds a record the detached conversion throws on; with
      the deletes accepted, such a record rejects the call with the
      `TypeError` message. */
  lemma ReplaceSucceedsIff(faults: map<Op, string>, db: DB)
    ensures ReplaceOutcome(faults, db) == Done <==> (forall t :: DeleteOp(t) !in faults) && Restorable(db)
    ensures (forall t :: DeleteOp(t) !in faults) && !Restorable(db) ==>
      ReplaceOutcome(faults, db) == Failed(RestoreFailure + UnboundCallMessage)
  {
    DeletesAcceptedIff(faults);
    FirstThrowingIff(db);
  }

  /** The intended restore succeeds exactly when the store accepts all twelve deletes. */
  lemma BoundReplaceSucceedsIff(faults: map<Op, string>)
    ensures BoundReplaceOutcome(faults) == Done <==> forall t :: DeleteOp(t) !in faults
  {
    DeletesAcceptedIff(faults);
  }

  /** Without a record that throws, the restore as written is the intended one. */
  lemma RestorableAgrees(faults: map<Op, string>, db: DB)
    requires Restorable(db)
    ensures ReplaceOps(faults, db) == BoundReplaceOps(faults, db)
    ensures ReplaceOutcome(faults, db) == BoundReplaceOutcome(faults)
  {
    FirstThrowingIff(db);
    assert InsertOrder[..|InsertOrder|] == InsertOrder;
  }

  /** An insert the store refuses changes neither how the restore settles nor
      the requests it sends: the inserts' errors are never inspected. */
  lemma InsertRefusalsIgnored(faults: map<Op, string>, db: DB, op: Op, m: string)
    requires op.Insert?
    ensures ReplaceOutcome(faults[op := m], db) == ReplaceOutcome(faults, db)
    ensures ReplaceOps(faults[op := m], db) == ReplaceOps(faults, db)
  {
    var ops := DeleteOps(DeleteOrder);
    assert forall i :: 0 <= i < |ops| ==> ops[i].Delete?;
    FirstRefusedIgnores(ops, faults, op, m);
    var k := FirstRefused(ops, faults);
    if k < |ops| {
      assert ops[k] != op;
    }
  }

  lemma InPrefix<T>(ts: seq<T>, t: T)
    requires ts != []
    ensures t in ts <==> t in ts[..|ts| - 1] || t == ts[|ts| - 1]
  {
    assert ts == ts[..|ts| - 1] + [ts[|ts| - 1]];
  }

  /** In a list without repeats, the `j`-th entry is among the first `k` exactly when `j < k`. */
  lemma PrefixMember<T>(ts: seq<T>, k: nat, j: nat)
    requires NoDuplicates(ts) && k <= |ts| && j < |ts|
    ensures ts[j] in ts[..k] <==> j < k
  {
    if j < k {
      assert ts[..k][j] == ts[j];
    }
  }

  lemma NoDuplicatesPrefix<T>(ts: seq<T>, k: nat)
    requires NoDuplicates(ts) && k <= |ts|
    ensures NoDuplicates(ts[..k])
  {
    assert forall i :: 0 <= i < k ==> ts[..k][i] == ts[i];
  }

  /** One delete of every row empties its table and no other. */
  lemma DeleteStepRows(s: State, faults: map<Op, string>, u: Table, t: Table)
    requires DeleteOp(u) !in faults
    ensures Rows(Step(s, faults, DeleteOp(u)), t) == if t == u then [] else Rows(s, t)
  {
    if t == u {
      KeepAll(Rows(s, t), NeqFresh(KeyColumn(t)));
    }
  }

  lemma DeletesSnoc(s: State, faults: map<Op, string>, ts: seq<Table>)
    requires ts != []
    ensures RunAll(s, faults, DeleteOps(ts)) ==
      Step(RunAll(s, faults, DeleteOps(ts[..|ts| - 1])), faults, DeleteOp(ts[|ts| - 1]))
  {
    assert DeleteOps(ts)[..|ts| - 1] == DeleteOps(ts[..|ts| - 1]);
  }

  /** The accepted deletes `ts` each empty their table and touch no other. */
  lemma {:induction false} DeletesEmpty(s: State, faults: map<Op, string>, ts: seq<Table>, t: Table)
    requires forall i :: 0 <= i < |ts| ==> DeleteOp(ts[i]) !in faults
    ensures Rows(RunAll(s, faults, DeleteOps(ts)), t) == if t in ts then [] else Rows(s, t)
  {
    if ts == [] {
      assert DeleteOps(ts) == [];
    } else {
      var n := |ts| - 1;
      DeletesEmpty(s, faults, ts[..n], t);
      DeletesSnoc(s, faults, ts);
      DeleteStepRows(RunAll(s, faults, DeleteOps(ts[..n])), faults, ts[n], t);
      InPrefix(ts, t);
    }
  }

  /** After the `k`-th delete of `ts` is refused, the tables before it in `ts`
      are empty and the others are as they were. */
  lemma AbortRows(s: State, faults: map<Op, string>, ts: seq<Table>, k: nat)
    requires NoDuplicates(ts)
    requires k == FirstRefused(DeleteOps(ts), faults) && k < |ts|
    ensures forall j :: 0 <= j < |ts| ==>
      Rows(RunAll(s, faults, DeleteOps(ts)[..k + 1]), ts[j]) == if j < k then [] else Rows(s, ts[j])
  {
    var ops := DeleteOps(ts);
    RunAllSnoc(s, faults, ops, k);
    assert ops[..k] == DeleteOps(ts[..k]);
    forall j | 0 <= j < |ts|
      ensures Rows(RunAll(s, faults, DeleteOps(ts[..k])), ts[j]) == if j < k then [] else Rows(s, ts[j])
    {
      DeletesEmpty(s, faults, ts[..k], ts[j]);
      PrefixMember(ts, k, j);
    }
  }

  /** When the `k`-th delete is refused, the restore sends the first `k + 1`
      deletes and nothing else. */
  lemma AbortOps(faults: map<Op, string>, db: DB, k: nat)
    requires k == FirstRefused(DeleteOps(DeleteOrder), faults) && k < |DeleteOrder|
    ensures ReplaceOps(faults, db) == DeleteOps(DeleteOrder)[..k + 1]
    ensures ReplaceOutcome(faults, db) == Failed(RestoreFailure + faults[DeleteOp(DeleteOrder[k])])
  {
  }

  /** When the store accepts every delete, the restore sends all twelve and
      then the inserts up to the first collection that throws. */
  lemma CompleteOps(faults: map<Op, string>, db: DB)
    requires FirstRefused(DeleteOps(DeleteOrder), faults) == |DeleteOrder|
    ensures ReplaceOps(faults, db) == DeleteOps(DeleteOrder) + InsertsSent(db, InsertOrder)
    ensures ReplaceOutcome(faults, db) ==
      if FirstThrowing(db, InsertOrder) < |InsertOrder| then Failed(RestoreFailure + UnboundCallMessage) else Done
  {
  }

  /** When a delete is refused, the restore rejects with the store's message,
      the tables deleted before it are empty, the refused table and those after
      it are as they were, and no insert is sent. */
  lemma RestoreAbort(s: State, faults: map<Op, string>, db: DB, k: nat)
    requires k == FirstRefused(DeleteOps(DeleteOrder), faults) && k < |DeleteOrder|
    ensures ReplaceOutcome(faults, db) == Failed(RestoreFailure + faults[DeleteOp(DeleteOrder[k])])
    ensures forall j :: 0 <= j < k ==> Rows(RunAll(s, faults, ReplaceOps(faults, db)), DeleteOrder[j]) == []
    ensures forall j :: k <= j < |DeleteOrder| ==>
      Rows(RunAll(s, faults, ReplaceOps(faults, db)), DeleteOrder[j]) == Rows(s, DeleteOrder[j])
    ensures forall i :: 0 <= i < |ReplaceOps(faults, db)| ==> ReplaceOps(faults, db)[i].Delete?
  {
    AbortOps(faults, db, k);
    OrdersArePermutations();
    AbortRows(s, faults, DeleteOrder, k);
  }

  /** Every request of the insert phase is an insert of a table of `ts` whose
      collection has records, carrying exactly that collection's rows; and
      such a table gets one. */
  lemma {:induction false} InsertStepsShape(db: DB, ts: seq<Table>)
    ensures forall op :: op in InsertSteps(db, ts) ==>
      op.Insert? && op.table in ts && |Collection(db, op.table)| > 0 && op.rows == InsertRows(db, op.table)
    ensures forall t :: t in ts && |Collection(db, t)| > 0 ==> Insert(t, InsertRows(db, t)) in InsertSteps(db, ts)
  {
    if ts != [] {
      var n := |ts| - 1;
      InsertStepsShape(db, ts[..n]);
      forall t ensures t in ts <==> t in ts[..n] || t == ts[n] {
        InPrefix(ts, t);
      }
    }
  }

  /** The insert phase as written sends, in order, the inserts of the tables
      before the first one that throws, and nothing for that table or any
      after it. */
  lemma InsertsSentShape(db: DB, ts: seq<Table>)
    ensures forall op :: op in InsertsSent(db, ts) ==>
      op.Insert? && op.table in ts[..FirstThrowing(db, ts)] &&
      |Collection(db, op.table)| > 0 && op.rows == InsertRows(db, op.table)
    ensures forall i :: 0 <= i < FirstThrowing(db, ts) && |Collection(db, ts[i])| > 0 ==>
      Insert(ts[i], InsertRows(db, ts[i])) in InsertsSent(db, ts)
    ensures NoDuplicates(ts) ==>
      forall i, op :: FirstThrowing(db, ts) <= i < |ts| && op in InsertsSent(db, ts) ==> op.table != ts[i]
  {
    var k := FirstThrowing(db, ts);
    InsertStepsShape(db, ts[..k]);
    forall i | 0 <= i < k ensures ts[i] in ts[..k] {
      assert ts[..k][i] == ts[i];
    }
    if NoDuplicates(ts) {
      forall i, op | k <= i < |ts| && op in InsertsSent(db, ts) ensures op.table != ts[i] {
        PrefixMember(ts, k, i);
      }
    }
  }

  /** The inserts of every collection that has records are accepted. */
  predicate InsertsAccepted(faults: map<Op, string>, db: DB)
  {
    forall t :: |Collection(db, t)| > 0 ==> Insert(t, InsertRows(db, t)) !in faults
  }

  /** An accepted insert step appends the collection's rows to its table only. */
  lemma InsertStepRows(s: State, faults: map<Op, string>, db: DB, u: Table, t: Table)
    requires InsertsAccepted(faults, db)
    ensures Rows(RunAll(s, faults, InsertStep(db, u)), t) ==
      if t == u then Rows(s, t) + InsertRows(db, t) else Rows(s, t)
  {
    if |Collection(db, u)| > 0 {
      RunAllSingle(s, faults, Insert(u, InsertRows(db, u)));
    } else {
      assert InsertRows(db, u) == [];
    }
  }

  lemma InsertStepsSnoc(db: DB, ts: seq<Table>, i: nat)
    requires i < |ts|
    ensures InsertSteps(db, ts[..i + 1]) == InsertSteps(db, ts[..i]) + InsertStep(db, ts[i])
  {
    assert ts[..i + 1][..i] == ts[..i];
  }

  lemma InsertsSnoc(s: State, faults: map<Op, string>, db: DB, ts: seq<Table>, i: nat)
    requires i < |ts|
    ensures InsertSteps(db, ts[..i + 1]) == InsertSteps(db, ts[..i]) + InsertStep(db, ts[i])
    ensures RunAll(s, faults, InsertSteps(db, ts[..i + 1])) ==
      RunAll(RunAll(s, faults, InsertSteps(db, ts[..i])), faults, InsertStep(db, ts[i]))
  {
    InsertStepsSnoc(db, ts, i);
    RunAllAppend(s, faults, InsertSteps(db, ts[..i]), InsertStep(db, ts[i]));
  }

  /** The accepted inserts for `ts` append each collection's rows to its table. */
  lemma {:induction false} InsertsAppend(s: State, faults: map<Op, string>, db: DB, ts: seq<Table>, t: Table)
    requires NoDuplicates(ts) && InsertsAccepted(faults, db)
    ensures Rows(RunAll(s, faults, InsertSteps(db, ts)), t) ==
      if t in ts then Rows(s, t) + InsertRows(db, t) else Rows(s, t)
  {
    if ts != [] {
      var n := |ts| - 1;
      NoDuplicatesPrefix(ts, n);
      InsertsAppend(s, faults, db, ts[..n], t);
      InsertsSnoc(s, faults, db, ts, n);
      assert ts[..n + 1] == ts;
      InsertStepRows(RunAll(s, faults, InsertSteps(db, ts[..n])), faults, db, ts[n], t);
      InPrefix(ts, t);
      PrefixMember(ts, n, n);
    }
  }

  /** The store accepts every request the restore sends. */
  predicate Accepts(faults: map<Op, string>, db: DB)
  {
    (forall t :: DeleteOp(t) !in faults) && InsertsAccepted(faults, db)
  }

  /** When the store accepts every request, the intended restore succeeds and
      leaves each table holding exactly the rows written for its collection. */
  lemma BoundRestoreWrites(s: State, faults: map<Op, string>, db: DB, t: Table)
    requires Accepts(faults, db)
    ensures BoundReplaceOutcome(faults) == Done
    ensures Rows(RunAll(s, faults, BoundReplaceOps(faults, db)), t) == InsertRows(db, t)
  {
    var ops := DeleteOps(DeleteOrder);
    FirstRefusedAt(ops, faults, |ops|);
    var plan := InsertSteps(db, InsertOrder);
    assert BoundReplaceOps(faults, db) == ops + plan;
    RunAllAppend(s, faults, ops, plan);
    OrdersArePermutations();
    DeletesEmpty(s, faults, DeleteOrder, t);
    assert DeleteOrder[DeleteIndex(t)] == t;
    InsertsAppend(RunAll(s, faults, ops), faults, db, InsertOrder, t);
    assert InsertOrder[InsertIndex(t)] == t;
  }

  /** When the store accepts every request and no record throws, the restore
      succeeds and leaves each table holding exactly the rows written for its
      collection. */
  lemma RestoreWrites(s: State, faults: map<Op, string>, db: DB, t: Table)
    requires Accepts(faults, db) && Restorable(db)
    ensures ReplaceOutcome(faults, db) == Done
    ensures Rows(RunAll(s, faults, ReplaceOps(faults, db)), t) == InsertRows(db, t)
  {
    RestorableAgrees(faults, db);
    BoundRestoreWrites(s, faults, db, t);
  }

  /** When the store accepts every request but a collection holds a record
      that throws, the restore rejects with the `TypeError` message: the
      tables before that collection in the insert order hold their rows, and
      it and every table after it are left empty. */
  lemma RestoreStopsAtRecord(s: State, faults: map<Op, string>, db: DB)
    requires Accepts(faults, db) && !Restorable(db)
    ensures ReplaceOutcome(faults, db) == Failed(RestoreFailure + UnboundCallMessage)
    ensures var k := FirstThrowing(db, InsertOrder);
      forall i :: 0 <= i < |InsertOrder| ==>
        Rows(RunAll(s, faults, ReplaceOps(faults, db)), InsertOrder[i]) ==
          if i < k then InsertRows(db, InsertOrder[i]) else []
  {
    ReplaceSucceedsIff(faults, db);
    var ops := DeleteOps(DeleteOrder);
    FirstRefusedAt(ops, faults, |ops|);
    var k := FirstThrowing(db, InsertOrder);
    var plan := InsertsSent(db, InsertOrder);
    assert ReplaceOps(faults, db) == ops + plan;
    RunAllAppend(s, faults, ops, plan);
    OrdersArePermutations();
    NoDuplicatesPrefix(InsertOrder, k);
    forall i | 0 <= i < |InsertOrder|
      ensures Rows(RunAll(s, faults, ReplaceOps(faults, db)), InsertOrder[i]) ==
        if i < k then InsertRows(db, InsertOrder[i]) else []
    {
      var t := InsertOrder[i];
      DeletesEmpty(s, faults, DeleteOrder, t);
      assert DeleteOrder[DeleteIndex(t)] == t;
      InsertsAppend(RunAll(s, faults, ops), faults, db, InsertOrder[..k], t);
      PrefixMember(InsertOrder, k, i);
    }
  }

  /** After a restore stopped by a record that throws, the table of that
      record and every table after it in the insert order load back empty. */
  lemma LostFromRecord(s: State, faults: map<Op, string>, db: DB, i: nat)
    requires Accepts(faults, db) && !Restorable(db)
    requires forall u :: LoadOp(u) !in faults
    requires FirstThrowing(db, InsertOrder) <= i < |InsertOrder|
    ensures Collection(LoadSnapshot(LoadAnswers(RunAll(s, faults, ReplaceOps(faults, db)), faults)), InsertOrder[i]) == []
  {
    var s1 := RunAll(s, faults, ReplaceOps(faults, db));
    var t := InsertOrder[i];
    RestoreStopsAtRecord(s, faults, db);
    assert Rows(s1, t) == [];
    assert t != Categories by {
      assert InsertOrder[0] == Categories && !Throws(db, Categories);
      OrdersArePermutations();
      PrefixMember(InsertOrder, 1, i);
      assert InsertOrder[..1] == [Categories];
    }
    LoadShape(s1, faults, t);
  }

  /** Records that come back from the codec as they went in. */
  predicate Clean(db: DB)
  {
    forall t, i :: 0 <= i < |Collection(db, t)| ==> CamelClean(Collection(db, t)[i])
  }

  lemma NameKey()
    ensures CamelKey("name") == "name"
  {
    CamelKeyFixpoint("name");
  }

  /** The row `{ name: c }` of a clean category loads back as `c`. */
  lemma NameRowLoads(c: Json)
    requires CamelClean(c)
    ensures Field(ToCamel(JObj([("name", c)])), "name") == c
  {
    var fs := [("name", c)];
    NameKey();
    CamelInOrder(fs);
    ToCamelOfClean(c);
  }

  /** Clean records taken to snake_case and back are the records again. */
  lemma {:induction false} RoundTripRows(c: seq<Json>, rows: seq<Json>, back: seq<Json>)
    requires forall i :: 0 <= i < |c| ==> CamelClean(c[i])
    requires |rows| == |c| && forall i :: 0 <= i < |c| ==> rows[i] == ToSnake(c[i])
    requires |back| == |rows| && forall i :: 0 <= i < |rows| ==> back[i] == ToCamel(rows[i])
    ensures back == c
  {
    forall i | 0 <= i < |c| ensures back[i] == c[i] {
      CamelOfSnakeValue(c[i]);
    }
  }

  /** Clean names written as `{ name }` rows and read back through `name`. */
  lemma {:induction false} NameRows(c: seq<Json>, rows: seq<Json>, back: seq<Json>)
    requires forall i :: 0 <= i < |c| ==> CamelClean(c[i])
    requires |rows| == |c| && forall i :: 0 <= i < |c| ==> rows[i] == JObj([("name", c[i])])
    requires |back| == |rows| && forall i :: 0 <= i < |rows| ==> back[i] == Field(ToCamel(rows[i]), "name")
    ensures back == c
  {
    forall i | 0 <= i < |c| ensures back[i] == c[i] {
      NameRowLoads(c[i]);
    }
  }

  /** Categories written as `{ name }` rows load back as the names. */
  lemma NamesLoadBack(s: State, faults: map<Op, string>, db: DB)
    requires Clean(db)
    requires forall u :: LoadOp(u) !in faults
    requires Rows(s, Categories) == InsertRows(db, Categories)
    ensures LoadSnapshot(LoadAnswers(s, faults)).categories == db.categories
  {
    LoadShape(s, faults, Categories);
    var c := Collection(db, Categories);
    assert forall i :: 0 <= i < |c| ==> CamelClean(c[i]);
    NameRows(c, Rows(s, Categories), LoadSnapshot(LoadAnswers(s, faults)).categories);
  }

  /** Records written in snake_case load back as they were. */
  lemma RecordsLoadBack(s: State, faults: map<Op, string>, db: DB, t: Table)
    requires t != Categories && Clean(db)
    requires forall u :: LoadOp(u) !in faults
    requires Rows(s, t) == InsertRows(db, t) && JNull !in Rows(s, Categories)
    ensures Collection(LoadSnapshot(LoadAnswers(s, faults)), t) == Collection(db, t)
  {
    LoadShape(s, faults, t);
    var c := Collection(db, t);
    assert forall i :: 0 <= i < |c| ==> CamelClean(c[i]);
    RoundTripRows(c, Rows(s, t), Collection(LoadSnapshot(LoadAnswers(s, faults)), t));
  }

  /** A collection restored as intended loads back unchanged. */
  lemma BoundRestoredCollectionLoads(s: State, faults: map<Op, string>, db: DB, t: Table)
    requires Clean(db) && Accepts(faults, db)
    requires forall u :: LoadOp(u) !in faults
    ensures Collection(LoadSnapshot(LoadAnswers(RunAll(s, faults, BoundReplaceOps(faults, db)), faults)), t) ==
      Collection(db, t)
  {
    var s1 := RunAll(s, faults, BoundReplaceOps(faults, db));
    BoundRestoreWrites(s, faults, db, t);
    if t == Categories {
      NamesLoadBack(s1, faults, db);
    } else {
      BoundRestoreWrites(s, faults, db, Categories);
      RecordsLoadBack(s1, faults, db, t);
    }
  }

  /** Restoring a clean snapshot as intended and loading it again gives the
      snapshot back, when the store accepts every request. */
  lemma BoundRestoreThenLoad(s: State, faults: map<Op, string>, db: DB)
    requires Clean(db) && Accepts(faults, db)
    requires forall t :: LoadOp(t) !in faults
    ensures LoadSnapshot(LoadAnswers(RunAll(s, faults, BoundReplaceOps(faults, db)), faults)) == db
  {
    var back := LoadSnapshot(LoadAnswers(RunAll(s, faults, BoundReplaceOps(faults, db)), faults));
    forall t ensures Collection(back, t) == Collection(db, t) {
      BoundRestoredCollectionLoads(s, faults, db, t);
    }
    DBExtensional(back, db);
  }

  /** Restoring a clean snapshot none of whose records throws and loading it
      again gives the snapshot back, when the store accepts every request. */
  lemma RestoreThenLoad(s: State, faults: map<Op, string>, db: DB)
    requires Clean(db) && Accepts(faults, db) && Restorable(db)
    requires forall t :: LoadOp(t) !in faults
    ensures LoadSnapshot(LoadAnswers(RunAll(s, faults, ReplaceOps(faults, db)), faults)) == db
  {
    RestorableAgrees(faults, db);
    BoundRestoreThenLoad(s, faults, db);
  }

  /** A snapshot with one ordinary audit record. */
  const OneAuditRecord: DB := EmptyDB.(auditLogs := [JObj([("id", JStr("1")), ("action", JStr("x"))])])

  /** Its audit record is the first record that throws, at position 1 of
      the insert order. */
  lemma OneAuditRecordThrows()
    ensures FirstThrowing(OneAuditRecord, InsertOrder) == 1
    ensures !Restorable(OneAuditRecord)
  {
    var db := OneAuditRecord;
    var record: Fields := [("id", JStr("1")), ("action", JStr("x"))];
    assert Collection(db, AuditLogs)[0] == JObj(record);
    assert record[0].0 != PoNumberKey by { assert |record[0].0| != |PoNumberKey|; }
    assert !ConvertsUnbound(Collection(db, AuditLogs)[0]);
    assert Throws(db, AuditLogs);
    assert InsertOrder[0] == Categories && InsertOrder[1] == AuditLogs;
  }

  /** Its one record comes back from the codec as it went in. */
  lemma OneAuditRecordClean()
    ensures Clean(OneAuditRecord)
  {
    var record: Fields := [("id", JStr("1")), ("action", JStr("x"))];
    assert DistinctKeys(record) by {
      assert |record[0].0| != |record[1].0|;
    }
    assert CamelClean(JObj(record));
    forall t, i | 0 <= i < |Collection(OneAuditRecord, t)|
      ensures CamelClean(Collection(OneAuditRecord, t)[i])
    {
      assert t == AuditLogs;
    }
  }

  /** Restoring it with every request accepted rejects with the `TypeError`
      after the twelve deletes, and sends no insert. */
  lemma OneAuditRecordOps()
    ensures ReplaceOutcome(map[], OneAuditRecord) == Failed(RestoreFailure + UnboundCallMessage)
    ensures ReplaceOps(map[], OneAuditRecord) == DeleteOps(DeleteOrder)
  {
    var db := OneAuditRecord;
    OneAuditRecordThrows();
    var ops := DeleteOps(DeleteOrder);
    FirstRefusedAt(ops, map[], |ops|);
    assert InsertOrder[..1] == [Categories];
    assert InsertSteps(db, [Categories]) == [] by {
      assert [Categories][..0] == [];
    }
    assert ReplaceOps(map[], db) == ops + [];
  }

  /** Restoring it with every request accepted rejects with the `TypeError`,
      sends the twelve deletes and no insert, and a later load does not give
      it back, although the intended restore would. */
  lemma OrdinaryRecordNotRestored(s: State)
    ensures ReplaceOutcome(map[], OneAuditRecord) == Failed(RestoreFailure + UnboundCallMessage)
    ensures ReplaceOps(map[], OneAuditRecord) == DeleteOps(DeleteOrder)
    ensures LoadSnapshot(LoadAnswers(RunAll(s, map[], ReplaceOps(map[], OneAuditRecord)), map[])) != OneAuditRecord
    ensures Clean(OneAuditRecord) && Accepts(map[], OneAuditRecord)
  {
    OneAuditRecordOps();
    OneAuditRecordThrows();
    OneAuditRecordClean();
    LostFromRecord(s, map[], OneAuditRecord, 1);
    assert InsertOrder[1] == AuditLogs;
  }
}
