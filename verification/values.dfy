/** Values, column descriptions and error kinds shared by the whole data-set engine. */
module Values {

  /** The semantic kind of a column (`COLUMN_TYPE`). */
  datatype Kind = Text | Select | MultiSelect | Date

  /** A column description (`DataColumn`): compared by kind and name. */
  datatype Column = Column(kind: Kind, name: string)

  /**
   * A field value. The engine stores whatever an adapter hands it; the model
   * keeps the three shapes the engine's callers use: no value (`None`), a
   * string, and a list of strings (tags, multi-select options).
   */
  datatype Value = Null | Str(s: string) | List(items: seq<string>)

  /** Only values Python can hash may serve as keys of the key index; lists cannot. */
  predicate Hashable(v: Value)
  {
    !v.List?
  }

  /** The ways an operation of the engine can fail. */
  datatype Error =
    | ColumnNotFound       // ColumnError(COLUMN_NOT_FOUND)
    | ColumnAlreadyExists  // a rename onto a name already in use
    | KeyError             // a dictionary lookup of a missing name or slot
    | Unhashable           // a list used as a key of the key index
    | IndexError           // the first element of an empty list

  datatype Result<T> = Ok(value: T) | Err(error: Error)

  /** The outcome of an operation that returns nothing on success. */
  datatype Status = Done | Failed(error: Error)
}
