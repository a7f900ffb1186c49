/** Deleting a category (src/services/supabase.provider.ts:162-182): three
    requests in order (find the items in the category, move them to the
    fallback category if there are any, delete the category row), then a
    locally computed new state built from the snapshot the caller holds. */
module CategoryDeletion {
  import opened JsonValue
  import opened Tables
  import opened Store
  import opened Snapshot

  /** The category the items of a deleted category are moved to. */
  const Fallback: string := "Outros"

  /** `{ updatedItems, updatedRedShelfItems, updatedCategories }`. */
  datatype CategoryState = CategoryState(items: seq<Json>, redShelfItems: seq<Json>, categories: seq<Json>)

  /** `i.category === categoryToDelete`. */
  predicate InCategory(item: Json, name: string)
  {
    Field(item, "category") == JStr(name)
  }

  /** The `TypeError` reading `i.category` of a `null` item raises (V8's wording). */
  const NullItemMessage: string := "Cannot read properties of null (reading 'category')"

  /** `i => i.category === categoryToDelete ? { ...i, category: 'Outros' } : i`:
      a `null` item throws; an item of the category is moved to the fallback;
      any other item is kept. */
  function Reassign(item: Json, name: string): (r: Result<Json>)
    ensures r.Err? <==> item == JNull
    ensures r.Err? ==> r.message == NullItemMessage
    ensures r.Ok? && InCategory(item, name) ==> r.value.JObj? && Field(r.value, "category") == JStr(Fallback)
    ensures r.Ok? && InCategory(item, name) ==> forall k :: k != "category" ==> Field(r.value, k) == Field(item, k)
    ensures r.Ok? && !InCategory(item, name) ==> r.value == item
  {
    if item == JNull then Err(NullItemMessage)
    else if InCategory(item, name) then
      var r := SetField(item, "category", JStr(Fallback));
      assert forall k :: Get(r.fields, k) == if k == "category" then Some(JStr(Fallback)) else Get(item.fields, k) by {
        forall k ensures Get(r.fields, k) == if k == "category" then Some(JStr(Fallback)) else Get(item.fields, k) {
          PutGet(item.fields, "category", JStr(Fallback), k);
        }
      }
      Ok(r)
    else Ok(item)
  }

  /** `updatedItems`: fails with the `TypeError` when an item is `null`;
      otherwise the items in their order, those of the deleted category moved
      to the fallback with every other field kept. */
  function ReassignCategory(items: seq<Json>, name: string): (r: Result<seq<Json>>)
    ensures r.Ok? <==> JNull !in items
    ensures r.Err? ==> r.message == NullItemMessage
    ensures r.Ok? ==> |r.value| == |items|
    ensures r.Ok? ==> forall i :: 0 <= i < |items| && InCategory(items[i], name) ==>
      Field(r.value[i], "category") == JStr(Fallback) &&
      forall k :: k != "category" ==> Field(r.value[i], k) == Field(items[i], k)
    ensures r.Ok? ==> forall i :: 0 <= i < |items| && !InCategory(items[i], name) ==> r.value[i] == items[i]
    ensures r.Ok? && name != Fallback ==> forall i :: 0 <= i < |r.value| ==> !InCategory(r.value[i], name)
  {
    if JNull in items then Err(NullItemMessage)
    else Ok(seq(|items|, i requires 0 <= i < |items| && items[i] != JNull => Reassign(items[i], name).value))
  }

  /** `updatedCategories`: `categories.filter(c => c !== categoryToDelete)`. */
  function RemoveCategory(categories: seq<Json>, name: string): (r: seq<Json>)
    ensures forall c :: c in r <==> c in categories && c != JStr(name)
    ensures |r| <= |categories|
  {
    if categories == [] then []
    else (if categories[0] == JStr(name) then [] else [categories[0]]) + RemoveCategory(categories[1..], name)
  }

  // --------------------------------------------------------------- requests

  /** `from('items').select('id').eq('category', categoryToDelete)`; only the
      number of rows found is used. */
  function FetchOp(name: string): Op
  {
    Select(Items, Eq("category", JStr(name)))
  }

  /** `from('items').update({ category: 'Outros' }).eq('category', categoryToDelete)`. */
  function MoveOp(name: string): Op
  {
    Update(Items, "category", JStr(Fallback), Eq("category", JStr(name)))
  }

  /** `from('categories').delete().eq('name', categoryToDelete)`. */
  function RemoveOp(name: string): Op
  {
    Delete(Categories, Eq("name", JStr(name)))
  }

  /** Whether the fetch finds an item of the category in the items table. */
  predicate Found(s: State, name: string)
  {
    |Pick(Rows(s, Items), Eq("category", JStr(name)))| > 0
  }

  /** The requests `deleteCategory` sends: each one only if those before it
      were accepted, and the move only if the fetch found something. */
  function DeleteCategoryOps(s: State, faults: map<Op, string>, name: string): seq<Op>
  {
    if FetchOp(name) in faults then [FetchOp(name)]
    else if !Found(s, name) then [FetchOp(name), RemoveOp(name)]
    else if MoveOp(name) in faults then [FetchOp(name), MoveOp(name)]
    else [FetchOp(name), MoveOp(name), RemoveOp(name)]
  }

  /** How `deleteCategory` settles: rejected with the first refused
      request's message, or, once every request is accepted, with the
      `TypeError` of a `null` item in the caller's items, or resolved with the
      locally computed state. */
  function DeleteCategoryResult(s: State, faults: map<Op, string>, name: string, db: DB): Result<CategoryState>
  {
    if FetchOp(name) in faults then Err(faults[FetchOp(name)])
    else if Found(s, name) && MoveOp(name) in faults then Err(faults[MoveOp(name)])
    else if RemoveOp(name) in faults then Err(faults[RemoveOp(name)])
    else
      match ReassignCategory(db.items, name)
      case Err(m) => Err(m)
      case Ok(items) => Ok(CategoryState(items, db.redShelfItems, RemoveCategory(db.categories, name)))
  }

  /** `deleteCategory(categoryToDelete, currentDb)`. */
  method DeleteCategory(b: Backend, name: string, current: DB) returns (r: Result<CategoryState>)
    requires b.Valid()
    modifies b
    ensures b.Valid()
    ensures r == DeleteCategoryResult(old(b.tables), b.faults, name, current)
    ensures b.log == old(b.log) + DeleteCategoryOps(old(b.tables), b.faults, name)
    ensures b.tables == RunAll(old(b.tables), b.faults, DeleteCategoryOps(old(b.tables), b.faults, name))
  {
    RunAllAppend(b.initial, b.faults, b.log, DeleteCategoryOps(b.tables, b.faults, name));
    var fetched := b.Execute(Select(Items, Eq("category", JStr(name))));
    if fetched.error.Some? {
      return Err(fetched.error.value);
    }
    if fetched.data.Some? && |fetched.data.value| > 0 {
      var moved := b.Execute(Update(Items, "category", JStr(Fallback), Eq("category", JStr(name))));
      if moved.error.Some? {
        return Err(moved.error.value);
      }
    }
    var removed := b.Execute(Delete(Categories, Eq("name", JStr(name))));
    if removed.error.Some? {
      return Err(removed.error.value);
    }
    var items := ReassignCategory(current.items, name);
    if items.Err? {
      return Err(items.message);
    }
    var categories := RemoveCategory(current.categories, name);
    r := Ok(CategoryState(items.value, current.redShelfItems, categories));
  }

  // ------------------------------------------------------------- properties

  /** The fetch finds something exactly when some item is in the category. */
  lemma FoundIff(s: State, name: string)
    ensures Found(s, name) <==> exists i :: 0 <= i < |Rows(s, Items)| && InCategory(Rows(s, Items)[i], name)
  {
    var rows := Rows(s, Items);
    var p := Pick(rows, Eq("category", JStr(name)));
    if Found(s, name) {
      assert p[0] in p;
      var i :| 0 <= i < |rows| && rows[i] == p[0];
    }
    if exists i :: 0 <= i < |rows| && InCategory(rows[i], name) {
      var i :| 0 <= i < |rows| && InCategory(rows[i], name);
      assert rows[i] in p;
    }
  }

  /** The move to the fallback is requested exactly when the fetch was
      accepted and some item is in the category. */
  lemma MoveSentIff(s: State, faults: map<Op, string>, name: string)
    ensures MoveOp(name) in DeleteCategoryOps(s, faults, name) <==>
      FetchOp(name) !in faults && exists i :: 0 <= i < |Rows(s, Items)| && InCategory(Rows(s, Items)[i], name)
  {
    FoundIff(s, name);
    assert MoveOp(name) != FetchOp(name) && MoveOp(name) != RemoveOp(name);
  }

  /** `deleteCategory` resolves exactly when the store accepts every request
      it sends and no item of the caller's is `null`; with every request
      accepted, a `null` item rejects it with the `TypeError`. */
  lemma SucceedsIffAllAccepted(s: State, faults: map<Op, string>, name: string, db: DB)
    ensures DeleteCategoryResult(s, faults, name, db).Ok? <==>
      (forall i :: 0 <= i < |DeleteCategoryOps(s, faults, name)| ==> DeleteCategoryOps(s, faults, name)[i] !in faults) &&
      JNull !in db.items
    ensures ((forall i :: 0 <= i < |DeleteCategoryOps(s, faults, name)| ==> DeleteCategoryOps(s, faults, name)[i] !in faults) &&
      JNull in db.items) ==> DeleteCategoryResult(s, faults, name, db) == Err(NullItemMessage)
  {
    var ops := DeleteCategoryOps(s, faults, name);
    if FetchOp(name) in faults {
      assert ops[0] in faults;
    } else if !Found(s, name) {
      if RemoveOp(name) in faults {
        assert ops[1] in faults;
      }
    } else if MoveOp(name) in faults {
      assert ops[1] in faults;
    } else if RemoveOp(name) in faults {
      assert ops[2] in faults;
    }
  }

  /** The returned state is the caller's items reassigned, the caller's
      red-shelf items as they were and the caller's categories without the
      deleted one; unless the deleted category is the fallback itself, no item
      and no category entry is left under its name. */
  lemma ReturnedState(s: State, faults: map<Op, string>, name: string, db: DB)
    requires DeleteCategoryResult(s, faults, name, db).Ok?
    ensures var st := DeleteCategoryResult(s, faults, name, db).value;
      ReassignCategory(db.items, name).Ok? &&
      st.items == ReassignCategory(db.items, name).value &&
      st.redShelfItems == db.redShelfItems &&
      st.categories == RemoveCategory(db.categories, name) &&
      |st.items| == |db.items| &&
      (name != Fallback ==> forall i :: 0 <= i < |st.items| ==> !InCategory(st.items[i], name)) &&
      JStr(name) !in st.categories
  {
  }

  /** With no item in the category, the items come back as they were, unless
      one is `null`. */
  lemma ReassignNone(items: seq<Json>, name: string)
    requires forall i :: 0 <= i < |items| ==> !InCategory(items[i], name)
    ensures ReassignCategory(items, name) == if JNull in items then Err(NullItemMessage) else Ok(items)
  {
    if JNull !in items {
      var r := ReassignCategory(items, name).value;
      assert forall i :: 0 <= i < |items| ==> r[i] == items[i];
      assert r == items;
    }
  }

  /** The local update of rows none of which is `null` is the store's update
      of the items table. */
  lemma ReassignIsStoreUpdate(rows: seq<Json>, name: string)
    ensures JNull !in rows ==>
      ReassignCategory(rows, name) == Ok(Assign(rows, "category", JStr(Fallback), Eq("category", JStr(name))))
  {
    if JNull !in rows {
      var a := Assign(rows, "category", JStr(Fallback), Eq("category", JStr(name)));
      var r := ReassignCategory(rows, name).value;
      forall i | 0 <= i < |rows| ensures r[i] == a[i] {
        if InCategory(rows[i], name) {
          assert Matches(rows[i], Eq("category", JStr(name))) && rows[i].JObj?;
        }
      }
      assert r == a;
    }
  }

  /** The filter works piece by piece, so it keeps the other entries in order. */
  lemma {:induction false} RemoveAppend(a: seq<Json>, b: seq<Json>, name: string)
    ensures RemoveCategory(a + b, name) == RemoveCategory(a, name) + RemoveCategory(b, name)
  {
    if a == [] {
      assert a + b == b;
    } else {
      assert (a + b)[1..] == a[1..] + b;
      RemoveAppend(a[1..], b, name);
    }
  }

  /** A list without the deleted name comes back as it was. */
  lemma {:induction false} RemoveAbsent(categories: seq<Json>, name: string)
    requires JStr(name) !in categories
    ensures RemoveCategory(categories, name) == categories
  {
    if categories != [] {
      assert JStr(name) !in categories[1..];
      RemoveAbsent(categories[1..], name);
    }
  }

  /** The local filter of the category names is the names the store keeps
      after deleting the category row. */
  lemma {:induction false} RemoveIsStoreDelete(rows: seq<Json>, name: string)
    ensures Names(Keep(rows, Eq("name", JStr(name)))) == RemoveCategory(Names(rows), name)
  {
    if rows != [] {
      var f := Eq("name", JStr(name));
      var n := Names(rows);
      var head: seq<Json> := if Matches(rows[0], f) then [] else [rows[0]];
      var first: seq<Json> := if n[0] == JStr(name) then [] else [n[0]];
      assert n[1..] == Names(rows[1..]);
      assert Names(head) == first;
      calc {
        Names(Keep(rows, f));
        { NamesAppend(head, Keep(rows[1..], f)); }
        Names(head) + Names(Keep(rows[1..], f));
        { RemoveIsStoreDelete(rows[1..], name); }
        first + RemoveCategory(n[1..], name);
        RemoveCategory(n, name);
      }
    }
  }

  /** With nothing found, the accepted fetch and delete leave the items as
      they were and drop the category's rows. */
  lemma AcceptedWithoutMove(s: State, faults: map<Op, string>, name: string, t: Table)
    requires FetchOp(name) !in faults && RemoveOp(name) !in faults && !Found(s, name)
    ensures var s1 := RunAll(s, faults, [FetchOp(name), RemoveOp(name)]);
      Rows(s1, Items) == Rows(s, Items) &&
      Rows(s1, Categories) == Keep(Rows(s, Categories), Eq("name", JStr(name))) &&
      (t != Items && t != Categories ==> Rows(s1, t) == Rows(s, t))
  {
    RunAllTwo(s, faults, FetchOp(name), RemoveOp(name));
  }

  /** The accepted fetch, move and delete move the category's items to the
      fallback and drop the category's rows. */
  lemma AcceptedWithMove(s: State, faults: map<Op, string>, name: string, t: Table)
    requires FetchOp(name) !in faults && MoveOp(name) !in faults && RemoveOp(name) !in faults
    ensures var s1 := RunAll(s, faults, [FetchOp(name), MoveOp(name), RemoveOp(name)]);
      Rows(s1, Items) == Assign(Rows(s, Items), "category", JStr(Fallback), Eq("category", JStr(name))) &&
      Rows(s1, Categories) == Keep(Rows(s, Categories), Eq("name", JStr(name))) &&
      (t != Items && t != Categories ==> Rows(s1, t) == Rows(s, t))
  {
    RunAllThree(s, faults, FetchOp(name), MoveOp(name), RemoveOp(name));
  }

  /** When `deleteCategory` resolves, the store holds what the returned state
      says about the rows it read: the items table is the local update of its
      rows (stored rows are never `null`), the category names are the local
      filter of its names, and every other table, the red shelf among them, is
      as it was. */
  lemma StoreAgreesOnSuccess(s: State, faults: map<Op, string>, name: string, db: DB, t: Table)
    requires DeleteCategoryResult(s, faults, name, db).Ok?
    ensures var s1 := RunAll(s, faults, DeleteCategoryOps(s, faults, name));
      (JNull !in Rows(s, Items) ==> ReassignCategory(Rows(s, Items), name) == Ok(Rows(s1, Items))) &&
      Names(Rows(s1, Categories)) == RemoveCategory(Names(Rows(s, Categories)), name) &&
      (t != Items && t != Categories ==> Rows(s1, t) == Rows(s, t))
  {
    ReassignIsStoreUpdate(Rows(s, Items), name);
    if Found(s, name) {
      AcceptedWithMove(s, faults, name, t);
    } else {
      AcceptedWithoutMove(s, faults, name, t);
      FoundIff(s, name);
      ReassignNone(Rows(s, Items), name);
    }
    RemoveIsStoreDelete(Rows(s, Categories), name);
  }

  /** There is no transaction: when the store refuses the final delete after
      accepting the move, the call rejects, yet the items have already been
      moved and the category row is still there. */
  lemma RefusedDeleteLeavesItemsMoved(s: State, faults: map<Op, string>, name: string, db: DB)
    requires FetchOp(name) !in faults && MoveOp(name) !in faults && RemoveOp(name) in faults
    requires Found(s, name)
    ensures DeleteCategoryResult(s, faults, name, db) == Err(faults[RemoveOp(name)])
    ensures var s1 := RunAll(s, faults, DeleteCategoryOps(s, faults, name));
      (JNull !in Rows(s, Items) ==> ReassignCategory(Rows(s, Items), name) == Ok(Rows(s1, Items))) &&
      Rows(s1, Categories) == Rows(s, Categories)
  {
    ReassignIsStoreUpdate(Rows(s, Items), name);
    RunAllThree(s, faults, FetchOp(name), MoveOp(name), RemoveOp(name));
  }
}
