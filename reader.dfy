/** What a generated piggy back reader returns when it is called
    (define_piggy_back_read_method, lib/piggy_back.rb:103-124). The reader
    is compiled from text with class_eval; here its behaviour is a function
    of the record's attribute hash. */
module Reader {
  import opened PiggyTypes

  /** A raw attribute value as Ruby sees it; only nil and false are falsy. */
  datatype Value = Nil | Bool(b: bool) | Str(s: string)

  predicate Truthy(v: Value)
  {
    v != Nil && v != Bool(false)
  }

  /** The reader `<assoc>_<col>`: when the record's attributes hold its key
      (the row came through the piggy back join) it returns the raw value, or
      `(v = raw) && cast(v)` when the column has a cast; otherwise it reads
      the attribute through the live association, given here as
      `viaAssociation` because that is a query. A fetched nil or false is
      returned as it is: `&&` never reaches the cast. */
  function Read(column: Column, key: string, attributes: map<string, Value>,
                viaAssociation: Value, cast: (string, Value) -> Value): (v: Value)
    ensures key in attributes && !Truthy(attributes[key]) ==> v == attributes[key]
  {
    if key in attributes then
      var v := attributes[key];
      match column.castKind
      case None => v
      case Some(kind) => if Truthy(v) then cast(kind, v) else v
    else viaAssociation
  }

  /** How the ORM reads the same column natively on the target record: nil
      stays nil, anything else is cast. */
  function NativeRead(column: Column, raw: Value, cast: (string, Value) -> Value): Value
  {
    if raw == Nil then Nil
    else match column.castKind
      case None => raw
      case Some(kind) => cast(kind, raw)
  }

  /** Both paths of the reader give what the target record would: a row that
      fetched the raw value through the join reads it as the ORM would read
      the column natively, nil included, and a row without the key returns
      the association's own reading. The two differ only for a raw `false`
      in a column with a cast: `&&` returns it uncast. */
  lemma PathsAgree(column: Column, key: string, attributes: map<string, Value>,
                   raw: Value, viaAssociation: Value, cast: (string, Value) -> Value)
    ensures column.castKind.None? || raw != Bool(false) ==>
              Read(column, key, attributes[key := raw], viaAssociation, cast) == NativeRead(column, raw, cast)
    ensures key !in attributes ==> Read(column, key, attributes, viaAssociation, cast) == viaAssociation
    ensures column.castKind.Some? ==>
              Read(column, key, attributes[key := Bool(false)], viaAssociation, cast) == Bool(false)
  {
  }
}
