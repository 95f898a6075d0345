/** Values shared by the whole model of lib/piggy_back.rb: the schema metadata
    ActiveRecord hands to a piggy back declaration, the arguments of the
    declaration, the find option `:piggy`, and the errors the code raises. */
module PiggyTypes {

  datatype Option<+T> = None | Some(value: T) {
    /** `value || default`, as Ruby's `||=` reads an option that may be nil. */
    function GetOr(default: T): T {
      match this
      case Some(v) => v
      case None => default
    }
  }

  datatype Result<+T, +E> = Ok(value: T) | Err(error: E)

  datatype Outcome<+E> = Pass | Fail(error: E)

  /** The macro an association was declared with. */
  datatype Macro = BelongsTo | HasOne | HasMany | HasAndBelongsToMany {
    /** The two macros that can be piggy backed: one target row per owner row. */
    predicate ToOne() {
      this == BelongsTo || this == HasOne
    }
  }

  /** A column of the association's target class. `castKind` is None when the
      column's `type_cast_code` yields nil (the raw value is returned as is),
      otherwise it names the cast the ORM applies to a raw value. */
  datatype Column = Column(name: string, castKind: Option<string>)

  /** What `reflections[name]` provides: the association's name and macro, the
      target's table, the foreign key column (`primary_key_name`), and the
      target class's `content_columns` and `columns_hash`. */
  datatype Reflection = Reflection(
    name: string,
    macro: Macro,
    tableName: string,
    foreignKey: string,
    contentColumns: seq<Column>,
    columnsHash: map<string, Column>)

  /** The arguments after the piggy back name: either the hash form
      `:from => assoc, :attributes => [...]` (each key may be missing), or the
      positional form `assoc, attr1, attr2, ...`. */
  datatype Args =
    | HashForm(from: Option<string>, attributes: Option<seq<string>>)
    | Positional(args: seq<string>)

  /** The pair stored under a piggy back name: select items and join clause. */
  datatype Fragment = Fragment(select: string, joins: string)

  /** An instance method of a model class: a generated piggy back reader, or
      any other method the class already has. */
  datatype Method =
    | PiggyReader(key: string, association: string, column: Column)
    | OtherMethod

  /** A present `:piggy` option: nil or false (`Falsy`), a lone Symbol, or a
      list of piggy back names. */
  datatype Directive = Falsy | Sym(name: string) | Names(names: seq<string>)

  /** What the code raises. Only UnsupportedMacro is raised on purpose; the
      others are the NoMethodError of calling a method on nil. */
  datatype Error =
    | NilReflection                  // reflections[name] is nil: nil.macro
    | UnsupportedMacro(macro: Macro) // "can't piggy back ..."
    | NilAttributes                  // hash form without :attributes: nil.empty?
    | NilColumn(attribute: string)   // columns_hash has no such column: nil.name
    | NilPiggyBackInfo(name: string) // no piggy back of that name: nil[0]
}
