/** The remote store as the provider drives it: tables of rows, the four
    kinds of request the provider issues (select, insert, update, delete,
    each on one table with at most one filter), and the response each gets.
    Whether the store refuses a request is not something the provider can
    see in advance, so `Backend` carries a fault table: a request listed in
    `faults` is answered with that error message and changes nothing. */
module Store {
  import opened JsonValue
  import opened Tables

  /** The row filters the provider uses.  `NeqFresh(column)` is
      `.neq(column, crypto.randomUUID())`: no row carries a freshly drawn
      identifier, so it selects every row. */
  datatype Filter =
    | NoFilter
    | NeqFresh(column: string)
    | Eq(column: string, value: Json)

  datatype Op =
    | Select(table: Table, filter: Filter)
    | Insert(table: Table, rows: seq<Json>)
    | Update(table: Table, column: string, value: Json, filter: Filter)
    | Delete(table: Table, filter: Filter)

  /** `{ data, error }` as returned by the client. */
  datatype Response = Response(data: Option<seq<Json>>, error: Option<string>)

  type State = map<Table, seq<Json>>

  predicate Matches(row: Json, f: Filter)
  {
    match f
    case NoFilter => true
    case NeqFresh(_) => true
    case Eq(c, v) => Field(row, c) == v
  }

  /** The rows of table `t`; a table never written is empty. */
  function Rows(s: State, t: Table): seq<Json>
  {
    if t in s then s[t] else []
  }

  /** The rows a delete with filter `f` leaves behind. */
  function Keep(rows: seq<Json>, f: Filter): (r: seq<Json>)
    ensures forall x :: x in r <==> x in rows && !Matches(x, f)
    ensures |r| <= |rows|
  {
    if rows == [] then []
    else (if Matches(rows[0], f) then [] else [rows[0]]) + Keep(rows[1..], f)
  }

  /** The rows a select with filter `f` returns, in table order. */
  function Pick(rows: seq<Json>, f: Filter): (r: seq<Json>)
    ensures forall x :: x in r <==> x in rows && Matches(x, f)
    ensures |r| <= |rows|
  {
    if rows == [] then []
    else (if Matches(rows[0], f) then [rows[0]] else []) + Pick(rows[1..], f)
  }

  /** The rows after `update({ column: value })` with filter `f`. */
  function Assign(rows: seq<Json>, column: string, value: Json, f: Filter): (r: seq<Json>)
    ensures |r| == |rows|
    ensures forall i :: 0 <= i < |rows| && Matches(rows[i], f) && rows[i].JObj? ==>
      r[i].JObj? && Field(r[i], column) == value &&
      (forall k :: k != column ==> Field(r[i], k) == Field(rows[i], k)) &&
      KeySet(r[i].fields) == KeySet(rows[i].fields) + {column}
    ensures forall i :: 0 <= i < |rows| && !(Matches(rows[i], f) && rows[i].JObj?) ==> r[i] == rows[i]
  {
    var r := seq(|rows|, i requires 0 <= i < |rows| =>
      if Matches(rows[i], f) && rows[i].JObj? then SetField(rows[i], column, value) else rows[i]);
    forall i | 0 <= i < |rows| && Matches(rows[i], f) && rows[i].JObj?
      ensures Field(r[i], column) == value
      ensures forall k :: k != column ==> Field(r[i], k) == Field(rows[i], k)
      ensures KeySet(r[i].fields) == KeySet(rows[i].fields) + {column}
    {
      PutKeys(rows[i].fields, column, value);
      forall k ensures Get(r[i].fields, k) == if k == column then Some(value) else Get(rows[i].fields, k) {
        PutGet(rows[i].fields, column, value, k);
      }
    }
    r
  }

  /** A request's effect on the tables when the store accepts it. */
  function Effect(s: State, op: Op): State
  {
    match op
    case Select(_, _) => s
    case Insert(t, rows) => s[t := Rows(s, t) + rows]
    case Update(t, c, v, f) => s[t := Assign(Rows(s, t), c, v, f)]
    case Delete(t, f) => s[t := Keep(Rows(s, t), f)]
  }

  /** The response to a request: a refused request gets only its error; an
      accepted select gets the matching rows, any other accepted request no data. */
  function Answer(s: State, faults: map<Op, string>, op: Op): (r: Response)
    ensures r.error.Some? <==> op in faults
    ensures r.data.Some? <==> op !in faults && op.Select?
    ensures op in faults ==> r.error.value == faults[op]
    ensures op !in faults && op.Select? ==> r.data.value == Pick(Rows(s, op.table), op.filter)
  {
    if op in faults then Response(None, Some(faults[op]))
    else if op.Select? then Response(Some(Pick(Rows(s, op.table), op.filter)), None)
    else Response(None, None)
  }

  /** One request: a refused request changes nothing. */
  function Step(s: State, faults: map<Op, string>, op: Op): State
  {
    if op in faults then s else Effect(s, op)
  }

  /** The tables after the requests `ops`, issued one after another. */
  function RunAll(s: State, faults: map<Op, string>, ops: seq<Op>): State
  {
    if ops == [] then s else Step(RunAll(s, faults, ops[..|ops| - 1]), faults, ops[|ops| - 1])
  }

  /** A delete with a filter every row matches empties the table, and only it. */
  lemma {:induction false} KeepAll(rows: seq<Json>, f: Filter)
    requires f.NoFilter? || f.NeqFresh?
    ensures Keep(rows, f) == []
  {
    if rows != [] {
      KeepAll(rows[1..], f);
    }
  }

  /** Running `a` and then `b` is running `a + b`. */
  lemma {:induction false} RunAllAppend(s: State, faults: map<Op, string>, a: seq<Op>, b: seq<Op>)
    ensures RunAll(s, faults, a + b) == RunAll(RunAll(s, faults, a), faults, b)
  {
    if b != [] {
      var n := |b| - 1;
      assert (a + b)[..|a + b| - 1] == a + b[..n];
      RunAllAppend(s, faults, a, b[..n]);
    } else {
      assert a + b == a;
    }
  }

  /** The first `i + 1` requests are the first `i` and then request `i`. */
  lemma RunAllSnoc(s: State, faults: map<Op, string>, ops: seq<Op>, i: nat)
    requires i < |ops|
    ensures RunAll(s, faults, ops[..i + 1]) == Step(RunAll(s, faults, ops[..i]), faults, ops[i])
  {
    assert ops[..i + 1][..i] == ops[..i];
  }

  lemma AppendAssoc<T>(a: seq<T>, b: seq<T>, c: seq<T>)
    ensures (a + b) + c == a + (b + c)
  {
  }

  lemma TakeSnoc<T>(xs: seq<T>, i: nat)
    requires i < |xs|
    ensures xs[..i + 1] == xs[..i] + [xs[i]]
  {
  }

  lemma RunAllSingle(s: State, faults: map<Op, string>, op: Op)
    ensures RunAll(s, faults, [op]) == Step(s, faults, op)
  {
    assert [op][..0] == [];
  }

  lemma RunAllTwo(s: State, faults: map<Op, string>, a: Op, b: Op)
    ensures RunAll(s, faults, [a, b]) == Step(Step(s, faults, a), faults, b)
  {
    assert [a, b][..1] == [a];
    RunAllSingle(s, faults, a);
  }

  lemma RunAllThree(s: State, faults: map<Op, string>, a: Op, b: Op, c: Op)
    ensures RunAll(s, faults, [a, b, c]) == Step(Step(Step(s, faults, a), faults, b), faults, c)
  {
    assert [a, b, c][..2] == [a, b];
    RunAllTwo(s, faults, a, b);
  }

  /** The store as one client sees it.  `log` is every request received, in
      order; the tables are always what those requests made of `initial`. */
  class Backend {
    var tables: State
    var log: seq<Op>
    const faults: map<Op, string>
    ghost const initial: State

    ghost predicate Valid()
      reads this
    {
      tables == RunAll(initial, faults, log)
    }

    constructor(initial: State, faults: map<Op, string>)
      ensures Valid()
      ensures tables == initial && log == [] && this.faults == faults && this.initial == initial
    {
      tables := initial;
      log := [];
      this.faults := faults;
      this.initial := initial;
    }

    /** Sends one request to the store and waits for its response. */
    method Execute(op: Op) returns (r: Response)
      requires Valid()
      modifies this
      ensures Valid()
      ensures log == old(log) + [op]
      ensures tables == Step(old(tables), faults, op)
      ensures r == Answer(old(tables), faults, op)
    {
      r := Answer(tables, faults, op);
      tables := Step(tables, faults, op);
      log := log + [op];
      assert log[..|log| - 1] == old(log);
    }
  }
}
