/** The stateful part of lib/piggy_back.rb: ActiveRecord model classes with
    their memoised piggy back registry and their method table, and the find
    options that add_piggy_back! and set_readonly_option! change in place. */
module PiggyBack {
  import opened PiggyTypes
  import opened Fragments
  import opened Declaration
  import opened Merge

  /** The Hash that `piggy_back_info` memoises: piggy back name to
      `[select, joins]`. A whole class hierarchy shares one such object. */
  class Registry {
    var entries: map<string, Fragment>

    constructor ()
      ensures entries == map[]
    {
      entries := map[];
    }
  }

  /** The find option bag, reduced to the keys this code reads or writes.
      For :select, :joins and :readonly, None is a key that is missing or
      nil; for :piggy, None is only a missing key, and a nil or false value
      is `Some(Falsy)`. */
  class Options {
    var select: Option<string>
    var joins: Option<string>
    var piggy: Option<Directive>
    var readonly: Option<bool>

    constructor (select: Option<string>, joins: Option<string>,
                 piggy: Option<Directive>, readonly: Option<bool>)
      ensures this.select == select && this.joins == joins
      ensures this.piggy == piggy && this.readonly == readonly
    {
      this.select := select;
      this.joins := joins;
      this.piggy := piggy;
      this.readonly := readonly;
    }
  }

  /** set_readonly_option!: a truthy :piggy forces `readonly = true`;
      otherwise ActiveRecord's original is called, which this model leaves
      out: `delegated` reports that it would run, and nothing is changed here. */
  method SetReadonlyOption(options: Options) returns (delegated: bool)
    modifies options`readonly
    ensures delegated == !IsPiggy(options.piggy)
    ensures !delegated ==> options.readonly == Some(true)
    ensures delegated ==> options.readonly == old(options.readonly)
  {
    if IsPiggy(options.piggy) {
      options.readonly := Some(true);
      delegated := false;
    } else {
      delegated := true;
    }
  }

  /** Defaults a missing or nil :select to all columns of the table and a
      missing or nil :joins to the empty string; present values are kept. */
  method DefaultSelectAndJoins(options: Options, tableName: string)
    modifies options`select, options`joins
    ensures options.select == Some(old(options.select).GetOr(tableName + ".*"))
    ensures options.joins == Some(old(options.joins).GetOr(""))
  {
    if options.select.None? {
      options.select := Some(tableName + ".*");
    }
    if options.joins.None? {
      options.joins := Some("");
    }
  }

  /** The loop of add_piggy_back!: appends the registered fragments of
      `names`, in order, to the :select and :joins strings, and fails on the
      first name `piggyInfoHash` does not have, leaving what was appended
      before it. */
  method AppendPiggyBacks(options: Options, piggyInfoHash: map<string, Fragment>, names: seq<string>)
    returns (outcome: Outcome<Error>)
    requires options.select.Some? && options.joins.Some?
    modifies options`select, options`joins
    ensures var m := MergeNames(piggyInfoHash, Fragment(old(options.select.value), old(options.joins.value)), names);
      && options.select == Some(m.select)
      && options.joins == Some(m.joins)
      && outcome == (if m.unknown.Some? then Fail(NilPiggyBackInfo(m.unknown.value)) else Pass)
  {
    ghost var base := Fragment(options.select.value, options.joins.value);
    var i := 0;
    assert names[..0] == [];
    assert base.select + "" == base.select && base.joins + "" == base.joins;
    while i < |names|
      invariant 0 <= i <= |names|
      invariant forall j :: 0 <= j < i ==> names[j] in piggyInfoHash
      invariant options.select == Some(base.select + Appended(piggyInfoHash, names[..i]).select)
      invariant options.joins == Some(base.joins + Appended(piggyInfoHash, names[..i]).joins)
    {
      if names[i] !in piggyInfoHash {
        KnownCountUnique(piggyInfoHash, names, i);
        return Fail(NilPiggyBackInfo(names[i]));
      }
      var pInfo := piggyInfoHash[names[i]];
      assert names[..i + 1][..i] == names[..i];
      ghost var before := Appended(piggyInfoHash, names[..i]);
      assert (base.select + before.select) + pInfo.select == base.select + (before.select + pInfo.select);
      assert (base.joins + before.joins) + pInfo.joins == base.joins + (before.joins + pInfo.joins);
      options.select := Some(options.select.value + pInfo.select);
      options.joins := Some(options.joins.value + pInfo.joins);
      i := i + 1;
    }
    KnownCountUnique(piggyInfoHash, names, i);
    assert names[..i] == names;
    outcome := Pass;
  }

  /** A subclass of ActiveRecord::Base, with the class-level state this code
      uses: its instance method table and the memo `@piggy_back_info`. */
  class ModelClass {
    const tableName: string
    const primaryKey: string
    const reflections: map<string, Reflection>
    const descendsFromActiveRecord: bool
    /** null when the superclass is ActiveRecord::Base itself. */
    const superclass: ModelClass?
    /** The superclasses that `superclass.piggy_back_info` reaches, nearest
        first, up to the one that descends from ActiveRecord directly; empty
        when this class does. */
    ghost const above: seq<ModelClass>
    ghost const depth: nat

    var methods: map<string, Method>
    var piggyBackInfo: Registry?

    /** The superclass chain is finite, a class whose superclass is
        ActiveRecord::Base descends from it directly, and `above` follows
        the chain. */
    ghost predicate Chain()
      decreases depth
    {
      && (superclass == null ==> descendsFromActiveRecord)
      && (superclass != null ==> superclass.depth < depth && superclass.Chain())
      && above == if descendsFromActiveRecord then [] else [superclass] + superclass.above
    }

    constructor (tableName: string, primaryKey: string, reflections: map<string, Reflection>,
                 descendsFromActiveRecord: bool, superclass: ModelClass?)
      requires superclass == null ==> descendsFromActiveRecord
      requires superclass != null ==> superclass.Chain()
      ensures Chain()
      ensures this.tableName == tableName && this.primaryKey == primaryKey
      ensures this.reflections == reflections && this.superclass == superclass
      ensures this.descendsFromActiveRecord == descendsFromActiveRecord
      ensures methods == map[] && piggyBackInfo == null
    {
      this.tableName := tableName;
      this.primaryKey := primaryKey;
      this.reflections := reflections;
      this.descendsFromActiveRecord := descendsFromActiveRecord;
      this.superclass := superclass;
      this.above := if descendsFromActiveRecord then [] else [superclass] + superclass.above;
      this.depth := if superclass == null then 0 else superclass.depth + 1;
      this.methods := map[];
      this.piggyBackInfo := null;
    }

    /** The nearest class, from this one up, that descends from
        ActiveRecord directly: the one whose memo creates the registry. */
    ghost function Top(): ModelClass
    {
      if above == [] then this else above[|above| - 1]
    }

    /** The class whose memo creates the registry descends from ActiveRecord
        directly, and a class that does not reaches the same one as its
        superclass: the whole hierarchy below it shares one registry. */
    lemma {:induction false} TopDescends()
      requires Chain()
      ensures Top().descendsFromActiveRecord && Top().above == []
      ensures !descendsFromActiveRecord ==> superclass.Top() == Top()
      decreases depth
    {
      if !descendsFromActiveRecord {
        superclass.TopDescends();
        assert above == [superclass] + superclass.above;
        if superclass.above != [] {
          assert above[|above| - 1] == superclass.above[|superclass.above| - 1];
        }
      }
    }

    /** The classes from this one up to Top(): the memos `piggy_back_info`
        reaches. */
    ghost function TopChain(): set<ModelClass>
    {
      {this} + set c | c in above
    }

    /** A memo is only ever set to the memo above it (or, at Top(), to a
        fresh registry), so a set memo is the one of every class above it. */
    ghost predicate MemoCoherent()
      reads TopChain()`piggyBackInfo
    {
      && (piggyBackInfo != null ==> forall j :: 0 <= j < |above| ==> above[j].piggyBackInfo == piggyBackInfo)
      && (forall i, j :: 0 <= i < j < |above| && above[i].piggyBackInfo != null ==>
            above[j].piggyBackInfo == above[i].piggyBackInfo)
    }

    /** The memos the superclass reaches are a suffix of this class's. */
    lemma SuperclassCoherent()
      requires Chain() && MemoCoherent() && !descendsFromActiveRecord
      ensures superclass.MemoCoherent()
    {
      assert above[0] == superclass;
      forall j | 0 <= j < |superclass.above|
        ensures superclass.above[j] == above[j + 1]
        ensures superclass.piggyBackInfo != null ==> superclass.above[j].piggyBackInfo == superclass.piggyBackInfo
      {
        if superclass.piggyBackInfo != null {
          assert above[0].piggyBackInfo != null && 0 < j + 1 < |above|;
        }
      }
    }

    /** The memos from this class up to Top() are unchanged. */
    twostate predicate MemosUnchanged()
      reads TopChain()`piggyBackInfo
    {
      && piggyBackInfo == old(piggyBackInfo)
      && forall i :: 0 <= i < |above| ==> above[i].piggyBackInfo == old(above[i].piggyBackInfo)
    }

    /** The piggy backs visible through this class: the entries of the
        registry at Top(), none while it has not been created. */
    ghost function Entries(): map<string, Fragment>
      reads Top()`piggyBackInfo, Top().piggyBackInfo
    {
      if Top().piggyBackInfo == null then map[] else Top().piggyBackInfo.entries
    }

    /** This class and its superclasses below ActiveRecord::Base: the
        method tables `instance_methods` reads. */
    ghost function Ancestors(): set<ModelClass>
      requires Chain()
      decreases depth
    {
      {this} + if superclass == null then {} else superclass.Ancestors()
    }

    /** Every ancestor is at most as deep as this class, so a superclass's
        ancestors do not include it. */
    lemma {:induction false} AncestorsBelow()
      requires Chain()
      ensures forall c :: c in Ancestors() ==> c.depth <= depth
      decreases depth
    {
      if superclass != null {
        superclass.AncestorsBelow();
      }
    }

    /** `instance_methods`: this class's own and every inherited one
        (ActiveRecord::Base's own methods are not part of this model). */
    function InstanceMethods(): set<string>
      requires Chain()
      reads Ancestors()`methods
      decreases depth
    {
      methods.Keys + if superclass == null then {} else superclass.InstanceMethods()
    }

    function InheritedMethods(): set<string>
      requires Chain()
      reads Ancestors()`methods
    {
      if superclass == null then {} else superclass.InstanceMethods()
    }

    /** piggy_back_info: returns the memoised registry if there is one;
        otherwise memoises a fresh empty one when the class descends from
        ActiveRecord directly, and its superclass's registry when not. So the
        result is the registry already memoised at Top(), or a fresh empty
        one, and afterwards every class from this one up to Top() holds that
        very object. */
    method PiggyBackInfo() returns (info: Registry)
      requires Chain() && MemoCoherent()
      modifies TopChain()`piggyBackInfo
      ensures old(Top().piggyBackInfo) != null ==> info == old(Top().piggyBackInfo)
      ensures old(Top().piggyBackInfo) == null ==> fresh(info) && info.entries == map[]
      ensures piggyBackInfo == info
      ensures forall i :: 0 <= i < |above| ==> above[i].piggyBackInfo == info
      ensures MemoCoherent()
      decreases |above|
    {
      if piggyBackInfo != null {
        return piggyBackInfo;
      }
      if descendsFromActiveRecord {
        info := new Registry();
      } else {
        SuperclassCoherent();
        info := superclass.PiggyBackInfo();
      }
      piggyBackInfo := info;
    }

    /** define_piggy_back_read_method: adds the reader `<assoc>_<col>` unless
        an instance method of that name exists. */
    method DefinePiggyBackReadMethod(column: Column, reflection: Reflection)
      requires Chain()
      modifies this`methods
      ensures methods == AddReader(old(methods), old(InheritedMethods()), reflection.name, column)
      ensures InheritedMethods() == old(InheritedMethods())
    {
      if superclass != null {
        superclass.AncestorsBelow();
      }
      var key := AttrKey(reflection.name, column.name);
      if key in methods || key in InheritedMethods() {
        return;
      }
      methods := methods[key := PiggyReader(key, reflection.name, column)];
    }

    /** add_piggy_back_selects_and_joins!: appends the aliased select items of
        `attributes` to `select0` and the join clause of the association to
        `joins0`, using this class's table and primary key. */
    method AddPiggyBackSelectsAndJoins(reflectionName: string, attributes: seq<string>,
                                       select0: string, joins0: string)
      returns (select: string, joins: string)
      requires reflectionName in reflections && reflections[reflectionName].macro.ToOne()
      ensures var r := reflections[reflectionName];
        select == select0 + SelectFragment(r.tableName, r.name, attributes)
      ensures var r := reflections[reflectionName];
        joins == joins0 + JoinFragment(r.macro, r.tableName, tableName, primaryKey, r.foreignKey)
    {
      var ktn := tableName;
      var kpkey := primaryKey;
      var reflection := reflections[reflectionName];
      var atn := reflection.tableName;
      select := select0;
      var i := 0;
      while i < |attributes|
        invariant 0 <= i <= |attributes|
        invariant select == select0 + SelectFragment(atn, reflection.name, attributes[..i])
      {
        assert attributes[..i + 1][..i] == attributes[..i];
        select := select + (", " + atn + "." + attributes[i] + " AS " + AttrKey(reflection.name, attributes[i]));
        i := i + 1;
      }
      assert attributes[..i] == attributes;
      var fkey := reflection.foreignKey;
      if reflection.macro == BelongsTo {
        joins := joins0 + (" LEFT JOIN " + atn + " ON " + atn + "." + kpkey + "=" + ktn + "." + fkey + " ");
      } else {
        joins := joins0 + (" LEFT JOIN " + atn + " ON " + atn + "." + fkey + "=" + ktn + "." + kpkey + " ");
      }
    }

    /** The loop of piggy_back over the chosen columns:
        defines the readers in order and stops at the first nil column, whose
        position it returns (|columns| when there is none). */
    method DefineReaders(columns: seq<Option<Column>>, reflection: Reflection) returns (defined: nat)
      requires Chain()
      modifies this`methods
      ensures defined == |PresentPrefix(columns)|
      ensures methods == WithReaders(old(methods), old(InheritedMethods()), reflection.name,
                                     PresentPrefix(columns))
      ensures InheritedMethods() == old(InheritedMethods())
    {
      ghost var done: seq<Column> := [];
      defined := 0;
      while defined < |columns|
        invariant 0 <= defined <= |columns| && |done| == defined
        invariant forall j :: 0 <= j < defined ==> columns[j] == Some(done[j])
        invariant methods == WithReaders(old(methods), old(InheritedMethods()), reflection.name, done)
        invariant InheritedMethods() == old(InheritedMethods())
      {
        if columns[defined].None? {
          break;
        }
        DefinePiggyBackReadMethod(columns[defined].value, reflection);
        assert (done + [columns[defined].value])[..defined] == done;
        done := done + [columns[defined].value];
        defined := defined + 1;
      }
      PresentPrefixUnique(columns, done);
    }

    /** The last two lines of piggy_back: builds the fragments of the
        resolved association and stores them under `name` in the registry
        shared by the hierarchy, which is created if need be. */
    method Register(name: string, r: Resolved)
      requires Chain() && MemoCoherent()
      requires r.name in reflections && reflections[r.name] == r.reflection && r.reflection.macro.ToOne()
      modifies TopChain()`piggyBackInfo, Top().piggyBackInfo
      ensures MemoCoherent()
      ensures piggyBackInfo != null
      ensures forall i :: 0 <= i < |above| ==> above[i].piggyBackInfo == piggyBackInfo
      ensures Entries() == old(Entries())[name := DeclaredFragment(tableName, primaryKey, r.reflection, r.attributes)]
      ensures old(Top().piggyBackInfo) != null ==> piggyBackInfo == old(Top().piggyBackInfo)
      ensures old(Top().piggyBackInfo) == null ==> fresh(piggyBackInfo)
    {
      var select, joins := AddPiggyBackSelectsAndJoins(r.name, SelectAttributes(r.attributes), "", "");
      assert "" + select == select && "" + joins == joins;
      assert Fragment(select, joins) == DeclaredFragment(tableName, primaryKey, r.reflection, r.attributes);
      Store(name, Fragment(select, joins));
    }

    /** The registry write at the end of piggy_back: the registry shared by
        the hierarchy, created if need be, maps `name` to `fragment`. */
    method Store(name: string, fragment: Fragment)
      requires Chain() && MemoCoherent()
      modifies TopChain()`piggyBackInfo, Top().piggyBackInfo
      ensures MemoCoherent()
      ensures piggyBackInfo != null
      ensures forall i :: 0 <= i < |above| ==> above[i].piggyBackInfo == piggyBackInfo
      ensures Entries() == old(Entries())[name := fragment]
      ensures old(Top().piggyBackInfo) != null ==> piggyBackInfo == old(Top().piggyBackInfo)
      ensures old(Top().piggyBackInfo) == null ==> fresh(piggyBackInfo)
    {
      ghost var entries0 := Entries();
      var info := PiggyBackInfo();
      assert Top().piggyBackInfo == info && info.entries == entries0;
      info.entries := info.entries[name := fragment];
    }

    /** piggy_back: declares the piggy back `name` over an association.
        Whatever Resolve rejects fails before anything changes. Otherwise the
        readers of the chosen columns are defined in order; a column that
        columns_hash does not have stops the declaration there, after the
        readers before it and without a registry write. Else the registry
        shared by the hierarchy maps `name` to the fresh fragments, replacing
        an earlier entry of that name. */
    method PiggyBack(name: string, args: Args) returns (outcome: Outcome<Error>)
      requires Chain() && MemoCoherent()
      modifies this`methods, TopChain()`piggyBackInfo, Top().piggyBackInfo
      ensures MemoCoherent()
      ensures Resolve(reflections, args).Err? ==>
        && outcome == Fail(Resolve(reflections, args).error)
        && methods == old(methods)
        && MemosUnchanged()
        && Entries() == old(Entries())
      ensures Resolve(reflections, args).Ok? ==>
        var r := Resolve(reflections, args).value;
        methods == WithReaders(old(methods), old(InheritedMethods()), r.reflection.name,
                               DeclaredColumns(r.reflection, r.attributes))
      ensures Resolve(reflections, args).Ok? ==>
        var r := Resolve(reflections, args).value;
        var missing := MissingColumn(r.reflection, r.attributes);
        missing.Some? ==>
          && outcome == Fail(NilColumn(missing.value))
          && MemosUnchanged()
          && Entries() == old(Entries())
      ensures Resolve(reflections, args).Ok? ==>
        var r := Resolve(reflections, args).value;
        MissingColumn(r.reflection, r.attributes).None? ==>
          && outcome == Pass
          && piggyBackInfo != null
          && (forall i :: 0 <= i < |above| ==> above[i].piggyBackInfo == piggyBackInfo)
          && Entries() == old(Entries())[name := DeclaredFragment(tableName, primaryKey, r.reflection, r.attributes)]
          && (old(Top().piggyBackInfo) != null ==> piggyBackInfo == old(Top().piggyBackInfo))
          && (old(Top().piggyBackInfo) == null ==> fresh(piggyBackInfo))
    {
      var resolved := Resolve(reflections, args);
      if resolved.Err? {
        return Fail(resolved.error);
      }
      outcome := Declare(name, resolved.value);
    }

    /** The part of piggy_back after its checks: defines the readers, then
        registers the fragments unless a named attribute has no column. */
    method Declare(name: string, r: Resolved) returns (outcome: Outcome<Error>)
      requires Chain() && MemoCoherent()
      requires r.name in reflections && reflections[r.name] == r.reflection && r.reflection.macro.ToOne()
      modifies this`methods, TopChain()`piggyBackInfo, Top().piggyBackInfo
      ensures MemoCoherent()
      ensures methods == WithReaders(old(methods), old(InheritedMethods()), r.reflection.name,
                                     DeclaredColumns(r.reflection, r.attributes))
      ensures MissingColumn(r.reflection, r.attributes).Some? ==>
        && outcome == Fail(NilColumn(MissingColumn(r.reflection, r.attributes).value))
        && MemosUnchanged()
        && Entries() == old(Entries())
      ensures MissingColumn(r.reflection, r.attributes).None? ==>
        && outcome == Pass
        && piggyBackInfo != null
        && (forall i :: 0 <= i < |above| ==> above[i].piggyBackInfo == piggyBackInfo)
        && Entries() == old(Entries())[name := DeclaredFragment(tableName, primaryKey, r.reflection, r.attributes)]
        && (old(Top().piggyBackInfo) != null ==> piggyBackInfo == old(Top().piggyBackInfo))
        && (old(Top().piggyBackInfo) == null ==> fresh(piggyBackInfo))
    {
      ghost var entries0 := Entries();
      var columns := ColumnsFor(r.reflection, r.attributes);
      var defined := DefineReaders(columns, r.reflection);
      assert MemoCoherent() && MemosUnchanged() && Entries() == entries0;
      assert DeclaredColumns(r.reflection, r.attributes) == PresentPrefix(columns);
      if defined < |columns| {
        assert MissingColumn(r.reflection, r.attributes) == Some(r.attributes[defined]);
        return Fail(NilColumn(r.attributes[defined]));
      }
      assert MissingColumn(r.reflection, r.attributes) == None;
      Register(name, r);
      outcome := Pass;
    }

    /** add_piggy_back!: removes :piggy from the options. When it was nil,
        false or missing, nothing else happens. Otherwise :select defaults to
        `<table>.*` and :joins to "", and the fragments of the requested names
        are appended in request order until a name that is not registered,
        which fails with the options already changed. */
    method AddPiggyBack(options: Options) returns (outcome: Outcome<Error>)
      requires Chain() && MemoCoherent()
      modifies options, TopChain()`piggyBackInfo
      ensures options.piggy == None && options.readonly == old(options.readonly)
      ensures MemoCoherent() && Entries() == old(Entries())
      ensures !IsPiggy(old(options.piggy)) ==>
        && outcome == Pass
        && options.select == old(options.select) && options.joins == old(options.joins)
        && MemosUnchanged()
      ensures IsPiggy(old(options.piggy)) ==>
        var m := MergeNames(old(Entries()),
                            Fragment(old(options.select).GetOr(tableName + ".*"), old(options.joins).GetOr("")),
                            DirectiveNames(old(options.piggy).value));
        && options.select == Some(m.select)
        && options.joins == Some(m.joins)
        && outcome == (if m.unknown.Some? then Fail(NilPiggyBackInfo(m.unknown.value)) else Pass)
        && piggyBackInfo != null
        && (forall i :: 0 <= i < |above| ==> above[i].piggyBackInfo == piggyBackInfo)
        && (old(Top().piggyBackInfo) != null ==> piggyBackInfo == old(Top().piggyBackInfo))
        && (old(Top().piggyBackInfo) == null ==> fresh(piggyBackInfo))
    {
      ghost var entries0 := Entries();
      var piggy := options.piggy;
      options.piggy := None;
      assert Entries() == entries0;
      if !IsPiggy(piggy) {
        return Pass;
      }
      DefaultSelectAndJoins(options, tableName);
      var names := DirectiveNames(piggy.value);
      assert Entries() == entries0;
      var info := PiggyBackInfo();
      assert Top().piggyBackInfo == info && info.entries == entries0;
      outcome := AppendPiggyBacks(options, info.entries, names);
    }
  }
}
