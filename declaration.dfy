/** The value-level part of a piggy back declaration (piggy_back,
    lib/piggy_back.rb:57-81): reading the two call forms, resolving the
    association, choosing the columns, and the readers the declaration adds
    to a class's method table (define_piggy_back_read_method, lines 103-124). */
module Declaration {
  import opened PiggyTypes
  import opened Fragments

  /** The association name and the attribute list, each None where Ruby has
      nil: a hash without :from or :attributes, or a positional call with no
      argument at all (`[][1..-1]` is nil). */
  function NormalizeArgs(args: Args): (Option<string>, Option<seq<string>>)
  {
    match args
    case HashForm(from, attributes) => (from, attributes)
    case Positional(xs) => if xs == [] then (None, None) else (Some(xs[0]), Some(xs[1..]))
  }

  /** The association's name as given, its reflection, and the attribute
      list as given (possibly empty). */
  datatype Resolved = Resolved(name: string, reflection: Reflection, attributes: seq<string>)

  /** Everything the declaration checks before it changes anything, in
      this order: the reflection lookup (a nil reflection fails on `.macro`
      whatever the attributes), the macro check, and `attributes.empty?`
      (fails on a nil list, only for a to-one association). */
  function Resolve(reflections: map<string, Reflection>, args: Args): (r: Result<Resolved, Error>)
    ensures r.Ok? ==> r.value.reflection.macro.ToOne()
    ensures r.Ok? ==> r.value.name in reflections && reflections[r.value.name] == r.value.reflection
    ensures r.Ok? ==> NormalizeArgs(args) == (Some(r.value.name), Some(r.value.attributes))
    ensures NormalizeArgs(args).0.None? || NormalizeArgs(args).0.value !in reflections ==> r == Err(NilReflection)
    ensures r == Err(NilAttributes) ==>
      && NormalizeArgs(args).0.Some? && NormalizeArgs(args).0.value in reflections
      && reflections[NormalizeArgs(args).0.value].macro.ToOne()
      && NormalizeArgs(args).1.None?
  {
    var (name, attributes) := NormalizeArgs(args);
    if name.None? || name.value !in reflections then Err(NilReflection)
    else if !reflections[name.value].macro.ToOne() then Err(UnsupportedMacro(reflections[name.value].macro))
    else if attributes.None? then Err(NilAttributes)
    else Ok(Resolved(name.value, reflections[name.value], attributes.value))
  }

  /** A to-many association is rejected whichever call form names it, and
      whatever attributes follow. */
  lemma ToManyRejected(reflections: map<string, Reflection>, args: Args)
    requires NormalizeArgs(args).0.Some? && NormalizeArgs(args).0.value in reflections
    requires !reflections[NormalizeArgs(args).0.value].macro.ToOne()
    ensures Resolve(reflections, args) == Err(UnsupportedMacro(reflections[NormalizeArgs(args).0.value].macro))
  {
  }

  /** `piggy_back n, assoc, a1, ...` and `piggy_back n, :from => assoc,
      :attributes => [a1, ...]` declare the same thing. */
  lemma CallFormsAgree(reflections: map<string, Reflection>, association: string, attributes: seq<string>)
    ensures Resolve(reflections, Positional([association] + attributes))
         == Resolve(reflections, HashForm(Some(association), Some(attributes)))
  {
    assert ([association] + attributes)[1..] == attributes;
  }

  /** `columns_hash[name]` for each name, nil for a name it does not have. */
  function LookupColumns(columnsHash: map<string, Column>, names: seq<string>): (cols: seq<Option<Column>>)
    ensures |cols| == |names|
    ensures forall j :: 0 <= j < |cols| ==>
              cols[j] == (if names[j] in columnsHash then Some(columnsHash[names[j]]) else None)
  {
    if names == [] then []
    else [if names[0] in columnsHash then Some(columnsHash[names[0]]) else None]
         + LookupColumns(columnsHash, names[1..])
  }

  /** The columns that get readers: every content column when no attribute is
      named, otherwise the column of each named attribute. */
  function ColumnsFor(reflection: Reflection, attributes: seq<string>): seq<Option<Column>>
  {
    if attributes == [] then
      seq(|reflection.contentColumns|, j requires 0 <= j < |reflection.contentColumns| => Some(reflection.contentColumns[j]))
    else
      LookupColumns(reflection.columnsHash, attributes)
  }

  /** The attributes the select list is built from: `[:*]` when none is
      named, so the list always gets at least one item. */
  function SelectAttributes(attributes: seq<string>): (s: seq<string>)
    ensures s != []
  {
    if attributes == [] then ["*"] else attributes
  }

  /** The columns before the first nil one: those whose readers get defined
      before `nil.name` aborts the declaration. */
  function PresentPrefix(cols: seq<Option<Column>>): (r: seq<Column>)
    ensures |r| <= |cols|
    ensures forall j :: 0 <= j < |r| ==> cols[j] == Some(r[j])
    ensures |r| < |cols| ==> cols[|r|].None?
  {
    if cols == [] || cols[0].None? then [] else [cols[0].value] + PresentPrefix(cols[1..])
  }

  /** PresentPrefix is the one prefix its contract describes. */
  lemma PresentPrefixUnique(cols: seq<Option<Column>>, r: seq<Column>)
    requires |r| <= |cols|
    requires forall j :: 0 <= j < |r| ==> cols[j] == Some(r[j])
    requires |r| < |cols| ==> cols[|r|].None?
    ensures PresentPrefix(cols) == r
  {
    var p := PresentPrefix(cols);
    assert |p| == |r|;
    forall j | 0 <= j < |r| ensures p[j] == r[j] {
      assert Some(p[j]) == cols[j] == Some(r[j]);
    }
  }

  /** The columns whose readers a declaration defines: those before the
      first attribute that columns_hash does not have. */
  function DeclaredColumns(reflection: Reflection, attributes: seq<string>): seq<Column>
  {
    PresentPrefix(ColumnsFor(reflection, attributes))
  }

  /** The first named attribute that columns_hash does not have, if any: the
      one whose nil column aborts the declaration. With no attribute named
      every content column is used, so none is missing. */
  function MissingColumn(reflection: Reflection, attributes: seq<string>): (m: Option<string>)
    ensures m.None? <==> forall j :: 0 <= j < |attributes| ==> attributes[j] in reflection.columnsHash
    ensures m.Some? ==>
      var k := |DeclaredColumns(reflection, attributes)|;
      && k < |attributes| && attributes[k] == m.value && m.value !in reflection.columnsHash
      && forall j :: 0 <= j < k ==> attributes[j] in reflection.columnsHash
  {
    var cols := ColumnsFor(reflection, attributes);
    var k := |PresentPrefix(cols)|;
    if k < |cols| then
      assert attributes != [];
      Some(attributes[k])
    else
      None
  }

  /** The `[select, joins]` a complete declaration registers for a class
      with table `ownerTable` and primary key `ownerKey`. Both compose onto
      what a request already has: the select part is never empty and starts
      with ", ", the join part is set off by spaces. */
  function DeclaredFragment(ownerTable: string, ownerKey: string,
                            reflection: Reflection, attributes: seq<string>): (f: Fragment)
    requires reflection.macro.ToOne()
    ensures |f.select| >= 2 && f.select[..2] == ", "
    ensures |f.joins| >= 2 && f.joins[0] == ' ' && f.joins[|f.joins| - 1] == ' '
  {
    SelectFragmentShape(reflection.tableName, reflection.name, SelectAttributes(attributes));
    Fragment(SelectFragment(reflection.tableName, reflection.name, SelectAttributes(attributes)),
             JoinFragment(reflection.macro, reflection.tableName, ownerTable, ownerKey, reflection.foreignKey))
  }

  /** With no attribute named, every content column gets a reader, none is
      missing, and the select list is built from the single attribute `*`. */
  lemma NoAttributesMeansAllColumns(reflection: Reflection)
    ensures DeclaredColumns(reflection, []) == reflection.contentColumns
    ensures MissingColumn(reflection, []) == None
    ensures SelectAttributes([]) == ["*"]
  {
    var cols := ColumnsFor(reflection, []);
    var p := PresentPrefix(cols);
    assert forall j :: 0 <= j < |cols| ==> cols[j].Some?;
    forall j | 0 <= j < |p| ensures p[j] == reflection.contentColumns[j] {
      assert Some(p[j]) == cols[j];
    }
  }

  /** With attributes named, a reader is defined for each of them, in order,
      exactly when every one of them is a column. */
  lemma NamedAttributesColumns(reflection: Reflection, attributes: seq<string>)
    requires attributes != []
    requires MissingColumn(reflection, attributes).None?
    ensures |DeclaredColumns(reflection, attributes)| == |attributes|
    ensures forall j :: 0 <= j < |attributes| ==>
              DeclaredColumns(reflection, attributes)[j] == reflection.columnsHash[attributes[j]]
  {
    var cols := ColumnsFor(reflection, attributes);
    var p := PresentPrefix(cols);
    forall j | 0 <= j < |attributes| ensures p[j] == reflection.columnsHash[attributes[j]] {
      assert Some(p[j]) == cols[j];
    }
  }

  /** ActiveRecord builds `columns_hash` from the columns by name, so every
      column is filed under its own name. */
  predicate ColumnsNamedByKey(reflection: Reflection)
  {
    forall k :: k in reflection.columnsHash ==> reflection.columnsHash[k].name == k
  }

  /** In a schema that files columns by name, a complete declaration with
      named attributes defines reader j under exactly the alias that select
      item j gives its column: `<assoc>_<attr>` is both the reader's name
      (from `column.name`) and the alias (from the attribute as written). */
  lemma ReadersMatchAliases(reflection: Reflection, attributes: seq<string>)
    requires ColumnsNamedByKey(reflection)
    requires attributes != []
    requires MissingColumn(reflection, attributes).None?
    ensures |DeclaredColumns(reflection, attributes)| == |attributes|
    ensures forall j :: 0 <= j < |attributes| ==>
              AttrKey(reflection.name, DeclaredColumns(reflection, attributes)[j].name)
              == AttrKey(reflection.name, attributes[j])
    ensures forall j :: 0 <= j < |attributes| ==>
              SelectFragment(reflection.tableName, reflection.name, attributes)
              == SelectFragment(reflection.tableName, reflection.name, attributes[..j])
                 + (", " + reflection.tableName + "." + attributes[j] + " AS "
                    + AttrKey(reflection.name, DeclaredColumns(reflection, attributes)[j].name))
                 + SelectFragment(reflection.tableName, reflection.name, attributes[j + 1..])
  {
    NamedAttributesColumns(reflection, attributes);
    forall j | 0 <= j < |attributes|
      ensures SelectFragment(reflection.tableName, reflection.name, attributes)
              == SelectFragment(reflection.tableName, reflection.name, attributes[..j])
                 + (", " + reflection.tableName + "." + attributes[j] + " AS "
                    + AttrKey(reflection.name, DeclaredColumns(reflection, attributes)[j].name))
                 + SelectFragment(reflection.tableName, reflection.name, attributes[j + 1..])
    {
      SelectFragmentAt(reflection.tableName, reflection.name, attributes, j);
    }
  }

  /** One call of define_piggy_back_read_method: the reader `<assoc>_<col>`
      is added unless the class already has an instance method of that name,
      its own or inherited. No existing method is replaced, afterwards the
      name is taken, and the only method added is that reader. */
  function AddReader(own: map<string, Method>, inherited: set<string>,
                     association: string, column: Column): (m: map<string, Method>)
    ensures forall k :: k in own ==> k in m && m[k] == own[k]
    ensures AttrKey(association, column.name) in m.Keys + inherited
    ensures forall k :: k in m && k !in own ==>
              k == AttrKey(association, column.name) && k !in inherited
              && m[k] == PiggyReader(k, association, column)
  {
    var key := AttrKey(association, column.name);
    if key in own || key in inherited then own
    else own[key := PiggyReader(key, association, column)]
  }

  /** The method table after defining the readers of `columns` in order. */
  function WithReaders(own: map<string, Method>, inherited: set<string>,
                       association: string, columns: seq<Column>): map<string, Method>
    decreases |columns|
  {
    if columns == [] then own
    else AddReader(WithReaders(own, inherited, association, columns[..|columns| - 1]),
                   inherited, association, columns[|columns| - 1])
  }

  /** Defining readers never replaces an existing method; afterwards every
      column has a method under its reader's name; and every method added is
      the reader of one of the columns, under that column's key, with no
      inherited method of that name. */
  lemma {:induction false} WithReadersSpec(own: map<string, Method>, inherited: set<string>,
                                           association: string, columns: seq<Column>)
    ensures var w := WithReaders(own, inherited, association, columns);
      && (forall k :: k in own ==> k in w && w[k] == own[k])
      && (forall c :: c in columns ==> AttrKey(association, c.name) in w.Keys + inherited)
      && (forall k :: k in w && k !in own ==>
            && k !in inherited
            && w[k].PiggyReader? && w[k].key == k && w[k].association == association
            && w[k].column in columns && AttrKey(association, w[k].column.name) == k)
    decreases |columns|
  {
    if columns != [] {
      var n := |columns| - 1;
      WithReadersSpec(own, inherited, association, columns[..n]);
      assert columns == columns[..n] + [columns[n]];
      forall c | c in columns ensures AttrKey(association, c.name) in WithReaders(own, inherited, association, columns).Keys + inherited {
        if c != columns[n] {
          assert c in columns[..n];
        }
      }
    }
  }
}
