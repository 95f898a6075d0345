# piggy_back in Dafny

A model of the piggy back extension for ActiveRecord (`lib/piggy_back.rb`).
A model class declares, once, that it wants to "piggy back" selected
attributes of a `belongs_to` or `has_one` association:

    piggy_back :owner_name, :owner, :name

The declaration does three things. It builds a SQL select fragment and a
LEFT JOIN fragment. It stores them under the piggy back's name in a
registry that the whole class hierarchy shares. It defines one reader
method per attribute (`owner_name`) on the class. A later
`find(..., :piggy => :owner_name)` turns the `:piggy` option into those
`:select` and `:joins` additions. It also forces the records it returns to be
read-only.

The project has seven modules:

- `PiggyTypes` (`piggy_types.dfy`): the values the code handles.
  - Associations (`Reflection`: name, macro, target table, foreign key, content columns, columns hash).
  - Columns, the two call forms of `piggy_back`, `[select, joins]` fragments, the `:piggy` directive.
  - Method-table entries.
  - The errors the code raises. Every one of them is Ruby's NoMethodError on nil, or the explicit `raise` for a to-many association.
- `Fragments` (`fragments.dfy`): the select items and join clauses that `add_piggy_back_selects_and_joins!` writes, and what they mean.
- `Declaration` (`declaration.dfy`): the value-level part of `piggy_back` and `define_piggy_back_read_method`.
  - Reading the two call forms.
  - Resolving the association.
  - Choosing the columns.
  - The method table after the readers are defined.
- `Merge` (`merge.dfy`): the value-level part of `add_piggy_back!`, which merges the requested names into `:select` and `:joins`.
- `Reader` (`reader.dfy`): what a generated reader returns when it is called.
- `PiggyBack` (`model_class.dfy`): the imperative part of the code.
  - `ModelClass` is an ActiveRecord subclass: its table, primary key, associations and superclass, its mutable method table, and its memo `@piggy_back_info`.
  - `Registry` is the memoised Hash, shared by reference.
  - `Options` is the find-option bag that `add_piggy_back!` and `set_readonly_option!` change in place.
- `Scenarios` (`scenarios.dfy`): concrete hierarchies.
  - A piggy back declared on one subclass is visible from a sibling subclass.
  - A sibling that memoised the registry before a declaration still sees it, through the same Hash object.
  - A request naming an unregistered piggy back fails after `:select` and `:joins` were already extended.

## Model

| member | source | states |
|---|---|---|
| Declaration.Resolve | lib/piggy_back.rb:57-73 | A declaration passes its checks only for a to-one association that exists under the given name, with a non-nil attribute list. A missing association fails as a nil reflection whatever the attributes. A nil attribute list is reported only once the macro check has passed. |
| Declaration.ToManyRejected | lib/piggy_back.rb:66-69 | An association whose macro is not belongs_to or has_one is rejected with that macro, whichever call form names it. |
| Declaration.NormalizeArgs | lib/piggy_back.rb:58-65 | The association name and attribute list of the two call forms, nil where Ruby has nil. Its partner is CallFormsAgree. |
| Declaration.CallFormsAgree | lib/piggy_back.rb:58-65 | The positional form `piggy_back n, assoc, a1, ...` and the hash form `:from => assoc, :attributes => [a1, ...]` resolve identically. |
| Declaration.SelectAttributes | lib/piggy_back.rb:71-73 | The attributes the select list is built from, `[:*]` when none is named: never empty. |
| Declaration.LookupColumns | lib/piggy_back.rb:75 | `columns_hash[name]` per attribute, in order, with nil exactly for the names the hash lacks. |
| Declaration.PresentPrefix | lib/piggy_back.rb:77 | The columns before the first nil one: a prefix of the column list that stops exactly at a nil column or at the end. |
| Declaration.PresentPrefixUnique | lib/piggy_back.rb:77 | That prefix is the only one with these properties. |
| Declaration.MissingColumn | lib/piggy_back.rb:75-77 | No attribute is missing iff every named attribute is a column. When one is missing, it is the first one, at the position where the readers stop. |
| Declaration.ColumnsFor | lib/piggy_back.rb:71-76 | The columns chosen for readers: the content columns when no attribute is named, otherwise `columns_hash` of each. Its properties are NoAttributesMeansAllColumns, NamedAttributesColumns and MissingColumn. |
| Declaration.DeclaredColumns | lib/piggy_back.rb:71-77 | The columns whose readers a declaration defines: those before the first nil one. Its properties are NoAttributesMeansAllColumns, NamedAttributesColumns and MissingColumn. |
| Declaration.NoAttributesMeansAllColumns | lib/piggy_back.rb:71-73 | An empty attribute list defines readers for all content columns, misses none, and selects the single attribute `*`. |
| Declaration.DeclaredFragment | lib/piggy_back.rb:79-80 | The `[select, joins]` a complete declaration registers. The select part is never empty and starts with ", ". The join part starts and ends with a space. |
| Declaration.AddReader | lib/piggy_back.rb:104-106 | One reader definition. No existing method is replaced, and afterwards the reader's name is taken. The only method it adds is that column's reader, under a name no inherited method has. |
| Declaration.WithReaders | lib/piggy_back.rb:77 | The method table after defining the readers of the columns in order. Its properties are WithReadersSpec. |
| Declaration.NamedAttributesColumns | lib/piggy_back.rb:74-77 | When every named attribute is a column, one reader column is chosen per attribute, in order: `columns_hash[attribute]`. |
| Declaration.ReadersMatchAliases | lib/piggy_back.rb:105-133 | In a schema whose `columns_hash` files each column under its own name, a complete declaration with named attributes defines reader j under exactly the alias `<assoc>_<attr>` that select item j gives its column. So every reader finds its value in a row fetched through the join. |
| Declaration.WithReadersSpec | lib/piggy_back.rb:103-107 | Defining readers never replaces an existing method, and afterwards every column has a method under its reader's name. Every added method is the reader of one of the columns, under that column's key, and no inherited method has that name. |
| Fragments.SelectFragment | lib/piggy_back.rb:132-134 | The select items of the attributes in order, one `, <atn>.<attr> AS <assoc>_<attr>` per attribute. Its properties are SelectFragmentConcat, SelectFragmentShape and SelectFragmentAt. |
| Fragments.AttrKeyInjective | lib/piggy_back.rb:105 | Reader names `<assoc>_<attr>` of one association are equal iff the attributes are. So the wildcard alias `<assoc>_*` names no reader of a real column. |
| Fragments.SelectFragmentConcat | lib/piggy_back.rb:132-134 | The select items of xs + ys are those of xs followed by those of ys. |
| Fragments.SelectFragmentShape | lib/piggy_back.rb:132-134 | The select fragment is empty iff there are no attributes. Otherwise it starts with ", ". |
| Fragments.SelectFragmentAt | lib/piggy_back.rb:133 | Attribute i contributes exactly `, <atn>.<attr> AS <assoc>_<attr>`, between the items of the attributes before and after it. |
| Fragments.JoinFragment | lib/piggy_back.rb:136-140 | The LEFT JOIN clause of a to-one association. It starts and ends with a space, so clauses appended one after another stay apart. Its direction is JoinDirection. |
| Fragments.JoinDirection | lib/piggy_back.rb:135-140 | Split at its `=`, the join clause has the target table's key on the left and the owner table's column on the right. For belongs_to that is `<atn>.<owner primary key>=<owner table>.<foreign key>`; for has_one it is `<atn>.<foreign key>=<owner table>.<owner primary key>`. |
| Fragments.HasOneSwapsKeys | lib/piggy_back.rb:137-140 | The has_one clause is the belongs_to clause with the two key columns exchanged. |
| Merge.IsPiggy | lib/piggy_back.rb:42 | `options[:piggy]` is truthy: present, and neither nil nor false. |
| Merge.DirectiveNames | lib/piggy_back.rb:88 | The names a truthy directive asks for; a lone Symbol becomes a one-element list. Its partner is SymbolIsSingleton. |
| Merge.MergeNames | lib/piggy_back.rb:89-93 | What the merge leaves in `:select` and `:joins` and the name it fails on. It fails exactly when some requested name is not registered, and then it reports such a name. |
| Merge.Appended | lib/piggy_back.rb:92-93 | The fragments of registered names, concatenated in request order. Its partner is AppendedConcat. |
| Merge.KnownCount | lib/piggy_back.rb:90-93 | The number of requested names, from the front, that are registered. The next name, if any, is not registered. |
| Merge.KnownCountUnique | lib/piggy_back.rb:90-93 | That count is the only position with these properties. |
| Merge.KnownCountConcat | lib/piggy_back.rb:90-93 | A fully registered prefix adds its length to the count of what follows. |
| Merge.AppendedConcat | lib/piggy_back.rb:92-93 | Appending the fragments of xs + ys is appending those of xs, then those of ys. |
| Merge.MergeInSteps | lib/piggy_back.rb:90-94 | Merging xs + ys, where every name in xs is registered, is merging xs and then merging ys onto the result. |
| Merge.MergeStopsAtUnknown | lib/piggy_back.rb:90-93 | An unregistered name in xs stops the merge inside xs, and nothing after it is looked at. |
| Merge.MergeOne | lib/piggy_back.rb:91-93 | A registered name appends its select and join fragments. An unregistered one leaves both strings as they are and is reported. |
| Merge.MergeKeepsBase | lib/piggy_back.rb:86-93 | The caller's `:select` and `:joins`, or their defaults, remain prefixes of the result whatever the names. |
| Merge.SymbolIsSingleton | lib/piggy_back.rb:88 | A lone Symbol merges exactly like the one-element list holding it. |
| Reader.Read | lib/piggy_back.rb:108-121 | The generated reader. A fetched nil or false is returned as it is, because `&&` never reaches the cast. |
| Reader.PathsAgree | lib/piggy_back.rb:108-121 | A row fetched through the join reads the column as the ORM reads it natively, nil included. The two differ only for a raw `false` in a column with a cast, which comes back uncast. A row without the key returns the association's own reading. |
| PiggyBack.SetReadonlyOption | lib/piggy_back.rb:41-47 | A truthy `:piggy` sets `:readonly` to true. Otherwise nothing changes here and the original is delegated to. |
| PiggyBack.DefaultSelectAndJoins | lib/piggy_back.rb:86-87 | A missing or nil `:select` becomes `<table>.*` and a missing or nil `:joins` becomes "". Present values are kept. |
| PiggyBack.AppendPiggyBacks | lib/piggy_back.rb:89-94 | The loop leaves `:select` and `:joins` equal to the merge of the requested names (Merge.MergeNames), and fails on the first unregistered name. |
| PiggyBack.ModelClass.TopDescends | lib/piggy_back.rb:99 | Following superclasses until one descends from ActiveRecord directly reaches the same class from a class and from its superclass. |
| PiggyBack.ModelClass.SuperclassCoherent | lib/piggy_back.rb:99 | Memos are coherent up the chain: a set memo equals every memo above it, and this holds from the superclass up as well. |
| PiggyBack.ModelClass.AncestorsBelow | lib/piggy_back.rb:106 | The ancestors whose methods `instance_methods` collects all lie above this class. |
| PiggyBack.ModelClass.InstanceMethods | lib/piggy_back.rb:106 | `instance_methods`: the methods of this class and of every superclass below ActiveRecord::Base. |
| PiggyBack.ModelClass.PiggyBackInfo | lib/piggy_back.rb:98-100 | Returns the registry already memoised at the top of the hierarchy, or a fresh empty one. Afterwards this class and every class above it up to the top memoise that same object. |
| PiggyBack.ModelClass.DefinePiggyBackReadMethod | lib/piggy_back.rb:103-124 | Adds the reader `<assoc>_<col>` for the column unless an own or inherited instance method of that name exists. Inherited methods are unchanged. |
| PiggyBack.ModelClass.AddPiggyBackSelectsAndJoins | lib/piggy_back.rb:127-144 | Appends the aliased select items of the attributes and the association's join clause, built from this class's table and primary key. |
| PiggyBack.ModelClass.DefineReaders | lib/piggy_back.rb:77 | Defines the readers of the columns in order and stops at the first nil column. The method table is that of the defined prefix. |
| PiggyBack.ModelClass.Register | lib/piggy_back.rb:79-80 | The registry shared by the hierarchy maps the name to the declared select and join fragments, and every class above holds that registry. A memo that was already set is kept, so the registry is the Hash object the hierarchy already shares; otherwise it is a fresh one. |
| PiggyBack.ModelClass.Store | lib/piggy_back.rb:80 | The shared registry maps the name to the fragment, and nothing else in it changes. A memo that was already set is kept, so the registry is the Hash object the hierarchy already shares; otherwise it is a fresh one. |
| PiggyBack.ModelClass.PiggyBack | lib/piggy_back.rb:57-81 | Whatever Resolve rejects fails with no change. Otherwise the readers of the chosen columns are defined. A missing column fails after the earlier readers, with no registry change. Else the shared registry maps the name to the declared fragments, replacing an earlier entry. A registry already memoised is never replaced by another object. |
| PiggyBack.ModelClass.Declare | lib/piggy_back.rb:71-80 | Same as PiggyBack, for an association that already passed the checks. |
| PiggyBack.ModelClass.AddPiggyBack | lib/piggy_back.rb:84-95 | `:piggy` is always removed, and a falsy one changes nothing else. Otherwise `:select` and `:joins` become the merge of the requested names onto their defaulted values, failing on the first unregistered name with the earlier fragments already appended. The registry's entries never change, and a registry already memoised stays the same object. |
| Scenarios.OwnerNameResolves | lib/piggy_back.rb:57-75 | `piggy_back :owner_name, :owner, :name` resolves, and its one attribute is a column. |
| Scenarios.OwnerNameSelect | lib/piggy_back.rb:133 | Its select fragment is `, people.name AS owner_name`. |
| Scenarios.OwnerJoin | lib/piggy_back.rb:138 | Its join on a cars table with primary key id is ` LEFT JOIN people ON people.id=cars.owner_id `. |
| Scenarios.OwnerNameFragment | lib/piggy_back.rb:79-80 | The fragment pair it registers. |
| Scenarios.SiblingsShareRegistry | lib/piggy_back.rb:98-100 | A piggy back declared on one subclass is seen through a sibling subclass that never declared it. |
| Scenarios.SiblingMemoisedFirst | lib/piggy_back.rb:98-100 | A sibling subclass that memoised the registry before the declaration sees the new entry, and its `piggy_back_info` returns the same Hash object before and after. |
| Scenarios.DealerNameResolves | lib/piggy_back.rb:57-75 | `piggy_back :dealer_name, :dealer, :name` over a has_one association resolves, and its one attribute is a column. |
| Scenarios.TwoDeclarations | lib/piggy_back.rb:79-80 | Two declarations in a row on one class both end up in the one registry the first created. |
| Scenarios.MergeStopsAtDealerName | lib/piggy_back.rb:90-93 | Merging owner_name, dealer_name, owner_name with only owner_name registered appends one fragment and stops at dealer_name. |
| Scenarios.DealerNameRequestOnCars | lib/piggy_back.rb:86-93 | That request on cars with no `:select` or `:joins` given: the default `cars.*` gets the owner_name item, the join is added, and dealer_name is reported. |
| Scenarios.UnknownNameAfterPartialMerge | lib/piggy_back.rb:84-94 | That request fails on dealer_name with `:piggy` gone, `:select` defaulted and extended, and the join already added. |

## Code behaviour the model keeps

The model follows the code as written at these points, where a reading of
its intent might expect otherwise:

- One registry per hierarchy, shared by reference. `piggy_back_info` memoises the superclass's Hash object itself (line 99). A declaration on any class therefore becomes visible to its superclasses and siblings up to the class that descends from ActiveRecord directly. No class ever gets a copy of its own.
- Both join directions use the declaring class's primary key (`kpkey`, lines 129 and 138-140). For belongs_to the clause reads `<target>.<owner pk>=<owner>.<fk>`, not the target's primary key. The clause has no spaces around `=` and starts and ends with a space.
- An unregistered name in `:piggy` raises NoMethodError (`p_info[0]` on nil, line 92). It does so after `:piggy` was deleted, the defaults were set and the fragments of earlier names were appended. The options are left partly changed (Scenarios.UnknownNameAfterPartialMerge).
- Every error except the to-many one is a NoMethodError on nil: an unknown association (`nil.macro`), a nil attribute list (`nil.empty?`), an unknown column (`nil.name`) and an unknown piggy back. An unknown column fails after the readers of the attributes before it were defined, and before anything is registered.
- With no attribute named, readers are defined for every content column. The select list, however, gets the single item `<atn>.* AS <assoc>_*`. That is not valid SQL for most databases, and it gives no column under any reader's key (Fragments.AttrKeyInjective). So those readers always fall back to the association.

## Left out

- Pagination support (lines 149-165): a controller-level pass-through of `:piggy`. It has no logic of its own.
- The hook plumbing (lines 27-38): `VALID_FIND_OPTIONS << :piggy`, the aliases, and the redefined `construct_finder_sql`, which only calls `add_piggy_back!` before the original. The original `set_readonly_option!` is reported by the `delegated` flag and not modelled.
- `class_eval` and the generated source text (lines 108-123). A reader is a `Method` value in a map, and its behaviour when called is `Reader.Read`.
- Reader.Read: `type_cast_code` is an uninterpreted cast function, and the association read (`<assoc>.<attr>`, a query) is an input value. So a nil association, where that fallback at line 120 raises NoMethodError, cannot be expressed.
- PiggyBack.ModelClass.InstanceMethods: ActiveRecord::Base's own instance methods and Ruby's Object methods are not part of this model. Only the methods of the modelled classes are.
- Schema metadata (`table_name`, `primary_key`, `reflections`, `content_columns`, `columns_hash`, `descends_from_active_record?`) is given as constants. Reading it from the database is not part of this model.
- Declaration.Resolve: every association, attribute and piggy back name stands for a Symbol. Line 66 looks up `reflections` without `.to_s`, so a String association name (`piggy_back :n, "owner", :name` or `:from => "owner"`) finds nil there and raises at line 67, where the model resolves it. A String piggy back name stored at line 80 is a key that a Symbol in `:piggy` misses. Neither is represented.
- Declaration.ReadersMatchAliases: the schema fact that `columns_hash` files each column under its own name (`ColumnsNamedByKey`) is a precondition. ActiveRecord builds the hash that way, but `Reflection` does not enforce it.
- Merge.DirectiveNames: Symbols and Strings are both `string`. Line 88 wraps only a Symbol, so a lone String `:piggy => "owner_name"` is iterated as the String itself (by lines in Ruby 1.8). Its String key also misses the Symbol keys that `piggy_back` registers, so line 92 raises. The model represents neither case.
- PiggyBack.Options: option values are Dafny strings, so `<<` appending to a String object that the caller also holds (the caller would see the change) is not modelled. Only the option bag's own values change.
- PiggyBack.ModelClass.AddPiggyBackSelectsAndJoins: the `else` branch (lines 141-142) is unreachable after the macro check in `piggy_back` (lines 67-69), so it is a precondition (`ToOne`).
- PiggyBack.ModelClass.PiggyBack: requires a well-formed superclass chain (`Chain`) and coherent memos (`MemoCoherent`). Every method keeps them, and a memo once set is never replaced by another object. So they also keep holding for the other classes of the hierarchy (Scenarios.SiblingMemoisedFirst, Scenarios.TwoDeclarations).
- SQL quoting or validation of identifiers: the code does neither, and the model concatenates text exactly as the code does.
