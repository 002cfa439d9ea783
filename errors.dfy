/** The four error kinds the domain and application layers raise. */
module LibraryErrors {

  /** Which lookup missed, for `NotFound`. */
  datatype Entity = BookEntity | BorrowerEntity | CatalogEntryEntity

  /** `Validation`: IllegalArgumentException from a value object or an aggregate;
      `NotFound`: the *NotFoundException family, with the key text it was given;
      `Conflict`: duplicate e-mail or catalog metadata mismatch;
      `State`: IllegalStateException from the lending state machine. */
  datatype Error =
    | Validation(msg: string)
    | NotFound(entity: Entity, key: string)
    | Conflict(msg: string)
    | State(msg: string)
}
