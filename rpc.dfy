/** The two wrappers around stored procedures
    (src/services/supabase.provider.ts:184-224).  What the procedures do to
    the stock is not part of this model; only how each wrapper turns the
    procedure's `{ data, error }` into its own result. */
module StoredProcedures {
  import opened JsonValue
  import opened CaseCodec

  const MovementRecorded: string := "Movimentação registrada."

  /** `{ success, message, newMovement?, updatedItem? }` of `addMovement`. */
  datatype MovementReply = MovementReply(
    success: bool, message: string, newMovement: Option<Json>, updatedItem: Option<Json>)

  /** `{ newMovement, updatedItem }`, both in camelCase. */
  datatype Changed = Changed(newMovement: Json, updatedItem: Json)

  /** The two records of a procedure's answer, `data.newMovement` and
      `data.updatedItem`, converted to camelCase. */
  function ChangedRecords(data: Json): (c: Changed)
    ensures CamelClean(c.newMovement) && CamelClean(c.updatedItem)
    ensures ToCamel(c.newMovement) == c.newMovement && ToCamel(c.updatedItem) == c.updatedItem
  {
    var c := Changed(ToCamel(Field(data, "newMovement")), ToCamel(Field(data, "updatedItem")));
    ToCamelIsClean(Field(data, "newMovement"));
    ToCamelIsClean(Field(data, "updatedItem"));
    ToCamelIdempotent(Field(data, "newMovement"));
    ToCamelIdempotent(Field(data, "updatedItem"));
    c
  }

  /** The converted records are the answer's `newMovement` and `updatedItem`
      fields: a field that is already camel-clean comes back as it is. */
  lemma ChangedRecordsOfClean(data: Json)
    ensures CamelClean(Field(data, "newMovement")) ==> ChangedRecords(data).newMovement == Field(data, "newMovement")
    ensures CamelClean(Field(data, "updatedItem")) ==> ChangedRecords(data).updatedItem == Field(data, "updatedItem")
  {
    if CamelClean(Field(data, "newMovement")) {
      ToCamelOfClean(Field(data, "newMovement"));
    }
    if CamelClean(Field(data, "updatedItem")) {
      ToCamelOfClean(Field(data, "updatedItem"));
    }
  }

  /** `addMovement`: an error is reported, not thrown, as a failure carrying
      the store's message; otherwise success with the two converted records. */
  function AddMovementReply(data: Json, error: Option<string>): (r: MovementReply)
    ensures r.success <==> error.None?
    ensures error.Some? ==> r.message == error.value && r.newMovement.None? && r.updatedItem.None?
    ensures error.None? ==>
      r.message == MovementRecorded &&
      r.newMovement == Some(ChangedRecords(data).newMovement) &&
      r.updatedItem == Some(ChangedRecords(data).updatedItem)
  {
    match error
    case Some(m) => MovementReply(false, m, None, None)
    case None =>
      var c := ChangedRecords(data);
      MovementReply(true, MovementRecorded, Some(c.newMovement), Some(c.updatedItem))
  }

  /** `adjustItemQuantity`: an error is thrown with the store's message;
      otherwise the two converted records. */
  function AdjustQuantityReply(data: Json, error: Option<string>): (r: Result<Changed>)
    ensures r.Err? <==> error.Some?
    ensures error.Some? ==> r.message == error.value
    ensures error.None? ==> r.value == ChangedRecords(data)
  {
    match error
    case Some(m) => Err(m)
    case None => Ok(ChangedRecords(data))
  }

  /** The two wrappers differ only in how they report: given the same answer,
      `addMovement` succeeds exactly when `adjustItemQuantity` resolves, with
      the same records, and fails with exactly the message the other throws. */
  lemma WrappersAgree(data: Json, error: Option<string>)
    ensures AddMovementReply(data, error).success <==> AdjustQuantityReply(data, error).Ok?
    ensures AdjustQuantityReply(data, error).Err? ==>
      AddMovementReply(data, error).message == AdjustQuantityReply(data, error).message
    ensures AdjustQuantityReply(data, error).Ok? ==>
      AddMovementReply(data, error).newMovement == Some(AdjustQuantityReply(data, error).value.newMovement) &&
      AddMovementReply(data, error).updatedItem == Some(AdjustQuantityReply(data, error).value.updatedItem)
  {
  }
}
