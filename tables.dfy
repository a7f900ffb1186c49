/** The tables the provider works with
    (src/services/supabase.provider.ts:8-20, 40, 64, 75-86).  The twelve
    tables are a datatype; `TableName` is the name the store knows a table by. */
module Tables {
  import opened KeyCodec

  datatype Table =
    | Items | RedShelfItems | Technicians | Suppliers | Movements | AuditLogs
    | PurchaseOrders | PickingLists | Kits | Reservations | Users | Categories

  function TableName(t: Table): string
  {
    match t
    case Items => "items"
    case RedShelfItems => "red_shelf_items"
    case Technicians => "technicians"
    case Suppliers => "suppliers"
    case Movements => "movements"
    case AuditLogs => "audit_logs"
    case PurchaseOrders => "purchase_orders"
    case PickingLists => "picking_lists"
    case Kits => "kits"
    case Reservations => "reservations"
    case Users => "users"
    case Categories => "categories"
  }

  /** The tables read by `getInitialData`, in the order of its results. */
  const LoadOrder: seq<Table> :=
    [Items, RedShelfItems, Technicians, Suppliers, Movements, AuditLogs,
     PurchaseOrders, PickingLists, Kits, Reservations, Users, Categories]

  /** `tablesToDelete`: the order in which `replaceAllData` empties the tables. */
  const DeleteOrder: seq<Table> :=
    [Movements, PickingLists, PurchaseOrders, Reservations, Kits, Items,
     RedShelfItems, Technicians, Suppliers, Users, AuditLogs, Categories]

  /** The order of the twelve conditional inserts of `replaceAllData`. */
  const InsertOrder: seq<Table> :=
    [Categories, AuditLogs, Users, Suppliers, Technicians, RedShelfItems,
     Items, Kits, Reservations, PurchaseOrders, PickingLists, Movements]

  /** `collectionToTableMap`: collection name to table name. */
  const CollectionToTable: map<string, string> :=
    map[
      "items" := "items",
      "redShelfItems" := "red_shelf_items",
      "technicians" := "technicians",
      "suppliers" := "suppliers",
      "movements" := "movements",
      "auditLogs" := "audit_logs",
      "purchaseOrders" := "purchase_orders",
      "pickingLists" := "picking_lists",
      "kits" := "kits",
      "reservations" := "reservations",
      "users" := "users"
    ]

  /** The column the delete phase filters on: categories are keyed by name. */
  function KeyColumn(t: Table): (c: string)
    ensures t == Categories ==> c == "name"
    ensures t != Categories ==> c == "id"
  {
    if t == Categories then "name" else "id"
  }

  function Reverse<T>(s: seq<T>): (r: seq<T>)
    ensures |r| == |s|
    ensures forall i :: 0 <= i < |s| ==> r[i] == s[|s| - 1 - i]
  {
    seq(|s|, i requires 0 <= i < |s| => s[|s| - 1 - i])
  }

  predicate NoDuplicates<T(==)>(s: seq<T>)
  {
    forall i, j :: 0 <= i < j < |s| ==> s[i] != s[j]
  }

  /** The insert phase runs in exactly the reverse of the delete order. */
  lemma InsertIsReverseOfDelete()
    ensures InsertOrder == Reverse(DeleteOrder)
  {
  }

  /** Each order lists every table exactly once: all three are permutations
      of the twelve tables. */
  lemma OrdersArePermutations()
    ensures |LoadOrder| == |DeleteOrder| == |InsertOrder| == 12
    ensures NoDuplicates(LoadOrder) && NoDuplicates(DeleteOrder) && NoDuplicates(InsertOrder)
    ensures forall t: Table :: t in LoadOrder && t in DeleteOrder && t in InsertOrder
  {
    forall t: Table ensures t in LoadOrder && t in DeleteOrder && t in InsertOrder {
      match t
      case Items => assert LoadOrder[0] == t && DeleteOrder[5] == t && InsertOrder[6] == t;
      case RedShelfItems => assert LoadOrder[1] == t && DeleteOrder[6] == t && InsertOrder[5] == t;
      case Technicians => assert LoadOrder[2] == t && DeleteOrder[7] == t && InsertOrder[4] == t;
      case Suppliers => assert LoadOrder[3] == t && DeleteOrder[8] == t && InsertOrder[3] == t;
      case Movements => assert LoadOrder[4] == t && DeleteOrder[0] == t && InsertOrder[11] == t;
      case AuditLogs => assert LoadOrder[5] == t && DeleteOrder[10] == t && InsertOrder[1] == t;
      case PurchaseOrders => assert LoadOrder[6] == t && DeleteOrder[2] == t && InsertOrder[9] == t;
      case PickingLists => assert LoadOrder[7] == t && DeleteOrder[1] == t && InsertOrder[10] == t;
      case Kits => assert LoadOrder[8] == t && DeleteOrder[4] == t && InsertOrder[7] == t;
      case Reservations => assert LoadOrder[9] == t && DeleteOrder[3] == t && InsertOrder[8] == t;
      case Users => assert LoadOrder[10] == t && DeleteOrder[9] == t && InsertOrder[2] == t;
      case Categories => assert LoadOrder[11] == t && DeleteOrder[11] == t && InsertOrder[0] == t;
    }
  }

  /** The collection name the application model uses for each table. */
  function CollectionName(t: Table): string
  {
    match t
    case Items => "items"
    case RedShelfItems => "redShelfItems"
    case Technicians => "technicians"
    case Suppliers => "suppliers"
    case Movements => "movements"
    case AuditLogs => "auditLogs"
    case PurchaseOrders => "purchaseOrders"
    case PickingLists => "pickingLists"
    case Kits => "kits"
    case Reservations => "reservations"
    case Users => "users"
    case Categories => "categories"
  }

  /** `collectionToTableMap` sends every collection except `categories` to its table. */
  lemma TableMapEntries(t: Table)
    ensures t != Categories ==>
      CollectionName(t) in CollectionToTable && CollectionToTable[CollectionName(t)] == TableName(t)
    ensures t == Categories ==> CollectionName(t) !in CollectionToTable
  {
  }

  lemma RedShelfItemsKey()
    ensures SnakeKey(CollectionName(RedShelfItems)) == TableName(RedShelfItems)
  {
    TwoCapitals("redShelfItems", "red", 'S', "helf", 'I', "tems", "red_shelf_items");
  }

  lemma AuditLogsKey()
    ensures SnakeKey(CollectionName(AuditLogs)) == TableName(AuditLogs)
  {
    OneCapital("auditLogs", "audit", 'L', "ogs", "audit_logs");
  }

  lemma PurchaseOrdersKey()
    ensures SnakeKey(CollectionName(PurchaseOrders)) == TableName(PurchaseOrders)
  {
    OneCapital("purchaseOrders", "purchase", 'O', "rders", "purchase_orders");
  }

  lemma PickingListsKey()
    ensures SnakeKey(CollectionName(PickingLists)) == TableName(PickingLists)
  {
    OneCapital("pickingLists", "picking", 'L', "ists", "picking_lists");
  }

  /** The collection names of the tables whose names are two words or more. */
  lemma CompoundNames(t: Table)
    requires t in {RedShelfItems, AuditLogs, PurchaseOrders, PickingLists}
    ensures SnakeKey(CollectionName(t)) == TableName(t)
  {
    match t
    case RedShelfItems => RedShelfItemsKey();
    case AuditLogs => AuditLogsKey();
    case PurchaseOrders => PurchaseOrdersKey();
    case PickingLists => PickingListsKey();
  }

  lemma NoUnderscoreInFirstNames(t: Table)
    requires t in {Items, RedShelfItems, Technicians, Suppliers, Movements, AuditLogs}
    ensures '_' !in CollectionName(t)
  {
  }

  lemma NoUnderscoreInLastNames(t: Table)
    requires t in {PurchaseOrders, PickingLists, Kits, Reservations, Users, Categories}
    ensures '_' !in CollectionName(t)
  {
  }

  /** No collection name holds a `_` followed by a-z. */
  lemma CollectionNameNoHump(t: Table)
    ensures NoHump(CollectionName(t))
  {
    if t in {Items, RedShelfItems, Technicians, Suppliers, Movements, AuditLogs} {
      NoUnderscoreInFirstNames(t);
    } else {
      NoUnderscoreInLastNames(t);
    }
    NoUnderscore(CollectionName(t));
  }

  /** The one-word tables share their name with their collection. */
  lemma PlainName(t: Table)
    requires t !in {RedShelfItems, AuditLogs, PurchaseOrders, PickingLists}
    ensures CollectionName(t) == TableName(t)
    ensures NoUpper(TableName(t))
  {
  }

  /** Every table name is the `camelToSnake` key rule applied to its
      collection name, and the `snakeToCamel` rule turns it back. */
  lemma TableNameFollowsKeyRule(t: Table)
    ensures SnakeKey(CollectionName(t)) == TableName(t)
    ensures CamelKey(TableName(t)) == CollectionName(t)
  {
    if t in {RedShelfItems, AuditLogs, PurchaseOrders, PickingLists} {
      CompoundNames(t);
    } else {
      PlainName(t);
      SnakeKeyFixpoint(TableName(t));
    }
    CollectionNameNoHump(t);
    KeyRoundTrip(CollectionName(t), TableName(t));
  }

  /** The keys of `collectionToTableMap` are the collection names of the
      tables other than `categories`. */
  lemma TableMapKeys()
    ensures forall c :: c in CollectionToTable ==> exists t :: t != Categories && c == CollectionName(t)
  {
    forall c | c in CollectionToTable ensures exists t :: t != Categories && c == CollectionName(t) {
      if c == "items" { assert c == CollectionName(Items); }
      else if c == "redShelfItems" { assert c == CollectionName(RedShelfItems); }
      else if c == "technicians" { assert c == CollectionName(Technicians); }
      else if c == "suppliers" { assert c == CollectionName(Suppliers); }
      else if c == "movements" { assert c == CollectionName(Movements); }
      else if c == "auditLogs" { assert c == CollectionName(AuditLogs); }
      else if c == "purchaseOrders" { assert c == CollectionName(PurchaseOrders); }
      else if c == "pickingLists" { assert c == CollectionName(PickingLists); }
      else if c == "kits" { assert c == CollectionName(Kits); }
      else if c == "reservations" { assert c == CollectionName(Reservations); }
      else { assert c == CollectionName(Users); }
    }
  }

  /** Every entry of `collectionToTableMap` is the `camelToSnake` key rule
      applied to its collection, `snakeToCamel` recovers the collection from
      the table, and so no two collections share a table. */
  lemma TableMapFollowsKeyRule()
    ensures forall c :: c in CollectionToTable ==> CollectionToTable[c] == SnakeKey(c)
    ensures forall c :: c in CollectionToTable ==> CamelKey(CollectionToTable[c]) == c
    ensures forall c, d :: c in CollectionToTable && d in CollectionToTable && c != d ==>
      CollectionToTable[c] != CollectionToTable[d]
  {
    TableMapKeys();
    forall c | c in CollectionToTable
      ensures CollectionToTable[c] == SnakeKey(c) && CamelKey(CollectionToTable[c]) == c
    {
      var t :| t != Categories && c == CollectionName(t);
      TableMapEntries(t);
      TableNameFollowsKeyRule(t);
    }
  }
}
