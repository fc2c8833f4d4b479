/** The typed values a clause or a stored record holds. */
module Values {

  /** A Python `bool`, `int` or `str` as produced by the value parser and
      stored in a table's records. */
  datatype Value = Bool(b: bool) | Int(i: int) | Str(s: string)

  /** One row of a table: column name to value. */
  type Record = map<string, Value>
}
