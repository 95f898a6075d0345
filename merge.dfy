/** The value-level part of the find-option merge (add_piggy_back!,
    lib/piggy_back.rb:84-95) and of read-only forcing (set_readonly_option!,
    lines 41-47). */
module Merge {
  import opened PiggyTypes

  /** `options[:piggy]` is truthy: present, and neither nil nor false. Such
      a request is merged into :select and :joins and forced read-only. */
  predicate IsPiggy(piggy: Option<Directive>)
  {
    piggy.Some? && !piggy.value.Falsy?
  }

  /** The names a truthy directive asks for; a lone Symbol is wrapped into a
      one-element list. */
  function DirectiveNames(d: Directive): seq<string>
    requires !d.Falsy?
  {
    match d
    case Sym(n) => [n]
    case Names(ns) => ns
  }

  /** How many of `names`, from the front, are registered: the loop appends
      the fragments of these and fails on the next one. */
  function KnownCount(entries: map<string, Fragment>, names: seq<string>): (k: nat)
    ensures k <= |names|
    ensures forall j :: 0 <= j < k ==> names[j] in entries
    ensures k < |names| ==> names[k] !in entries
  {
    if names == [] || names[0] !in entries then 0
    else 1 + KnownCount(entries, names[1..])
  }

  /** The fragments of registered `names`, concatenated in request order. */
  function Appended(entries: map<string, Fragment>, names: seq<string>): Fragment
    requires forall j :: 0 <= j < |names| ==> names[j] in entries
    decreases |names|
  {
    if names == [] then Fragment("", "")
    else
      var p := Appended(entries, names[..|names| - 1]);
      var e := entries[names[|names| - 1]];
      Fragment(p.select + e.select, p.joins + e.joins)
  }

  /** Appending the fragments of xs + ys is appending those of xs, then those of ys. */
  lemma {:induction false} AppendedConcat(entries: map<string, Fragment>, xs: seq<string>, ys: seq<string>)
    requires forall j :: 0 <= j < |xs| ==> xs[j] in entries
    requires forall j :: 0 <= j < |ys| ==> ys[j] in entries
    ensures forall j :: 0 <= j < |xs + ys| ==> (xs + ys)[j] in entries
    ensures Appended(entries, xs + ys)
         == Fragment(Appended(entries, xs).select + Appended(entries, ys).select,
                     Appended(entries, xs).joins + Appended(entries, ys).joins)
    decreases |ys|
  {
    if ys == [] {
      assert xs + ys == xs;
    } else {
      var n := |ys| - 1;
      assert (xs + ys)[..|xs + ys| - 1] == xs + ys[..n];
      assert (xs + ys)[|xs + ys| - 1] == ys[n];
      AppendedConcat(entries, xs, ys[..n]);
    }
  }

  /** What the merge leaves in :select and :joins, and the name it fails on:
      `base` holds the caller's values or their defaults. */
  datatype Merged = Merged(select: string, joins: string, unknown: Option<string>)

  /** The merge fails exactly when some requested name is not registered,
      and then it reports one such name. */
  function MergeNames(entries: map<string, Fragment>, base: Fragment, names: seq<string>): (m: Merged)
    ensures m.unknown.None? <==> forall j :: 0 <= j < |names| ==> names[j] in entries
    ensures m.unknown.Some? ==> m.unknown.value in names && m.unknown.value !in entries
  {
    var k := KnownCount(entries, names);
    var added := Appended(entries, names[..k]);
    Merged(base.select + added.select, base.joins + added.joins,
           if k < |names| then Some(names[k]) else None)
  }

  /** Merging xs + ys is merging xs and then, on its result, ys, when every
      name in xs is registered. */
  lemma MergeInSteps(entries: map<string, Fragment>, base: Fragment, xs: seq<string>, ys: seq<string>)
    requires forall j :: 0 <= j < |xs| ==> xs[j] in entries
    ensures MergeNames(entries, base, xs).unknown == None
    ensures MergeNames(entries, base, xs + ys)
         == MergeNames(entries, Fragment(MergeNames(entries, base, xs).select,
                                         MergeNames(entries, base, xs).joins), ys)
  {
    KnownCountUnique(entries, xs, |xs|);
    assert xs[..|xs|] == xs;
    var ax := Appended(entries, xs);
    KnownCountConcat(entries, xs, ys);
    var ky := KnownCount(entries, ys);
    assert (xs + ys)[..|xs| + ky] == xs + ys[..ky];
    AppendedConcat(entries, xs, ys[..ky]);
    var ay := Appended(entries, ys[..ky]);
    assert Appended(entries, (xs + ys)[..|xs| + ky]) == Fragment(ax.select + ay.select, ax.joins + ay.joins);
    assert base.select + (ax.select + ay.select) == (base.select + ax.select) + ay.select;
    assert base.joins + (ax.joins + ay.joins) == (base.joins + ax.joins) + ay.joins;
    if ky < |ys| {
      assert (xs + ys)[|xs| + ky] == ys[ky];
    }
  }

  /** A name of xs that is not registered stops the merge there: nothing of
      ys is looked at. */
  lemma MergeStopsAtUnknown(entries: map<string, Fragment>, base: Fragment, xs: seq<string>, ys: seq<string>)
    requires exists j :: 0 <= j < |xs| && xs[j] !in entries
    ensures MergeNames(entries, base, xs).unknown.Some?
    ensures MergeNames(entries, base, xs + ys) == MergeNames(entries, base, xs)
  {
    var k := KnownCount(entries, xs);
    assert k < |xs|;
    KnownCountUnique(entries, xs + ys, k);
    assert (xs + ys)[..k] == xs[..k];
  }

  /** KnownCount is the one position its contract describes. */
  lemma KnownCountUnique(entries: map<string, Fragment>, names: seq<string>, k: nat)
    requires k <= |names|
    requires forall j :: 0 <= j < k ==> names[j] in entries
    requires k < |names| ==> names[k] !in entries
    ensures KnownCount(entries, names) == k
  {
  }

  lemma KnownCountConcat(entries: map<string, Fragment>, xs: seq<string>, ys: seq<string>)
    requires forall j :: 0 <= j < |xs| ==> xs[j] in entries
    ensures KnownCount(entries, xs + ys) == |xs| + KnownCount(entries, ys)
  {
    var k := KnownCount(entries, ys);
    forall j | 0 <= j < |xs| + k ensures (xs + ys)[j] in entries {
      if j >= |xs| {
        assert (xs + ys)[j] == ys[j - |xs|];
      }
    }
    if k < |ys| {
      assert (xs + ys)[|xs| + k] == ys[k];
    }
    KnownCountUnique(entries, xs + ys, |xs| + k);
  }

  /** One name: a registered one appends its select and join fragments to
      the base, an unknown one leaves the base as it is and is reported. */
  lemma MergeOne(entries: map<string, Fragment>, base: Fragment, n: string)
    ensures n in entries ==>
      MergeNames(entries, base, [n]) == Merged(base.select + entries[n].select, base.joins + entries[n].joins, None)
    ensures n !in entries ==>
      MergeNames(entries, base, [n]) == Merged(base.select, base.joins, Some(n))
  {
    assert [n][..0] == [];
    if n in entries {
      assert [n][..1] == [n];
      KnownCountUnique(entries, [n], 1);
      assert Appended(entries, [n]) == Fragment("" + entries[n].select, "" + entries[n].joins);
      assert "" + entries[n].select == entries[n].select && "" + entries[n].joins == entries[n].joins;
    } else {
      assert base.select + "" == base.select && base.joins + "" == base.joins;
    }
  }

  /** The caller's :select and :joins (or their defaults) are kept as a
      prefix whatever the names, registered or not. */
  lemma MergeKeepsBase(entries: map<string, Fragment>, base: Fragment, names: seq<string>)
    ensures base.select <= MergeNames(entries, base, names).select
    ensures base.joins <= MergeNames(entries, base, names).joins
  {
  }

  /** A lone Symbol merges exactly like the one-element list holding it. */
  lemma SymbolIsSingleton(entries: map<string, Fragment>, base: Fragment, name: string)
    ensures MergeNames(entries, base, DirectiveNames(Sym(name)))
         == MergeNames(entries, base, DirectiveNames(Names([name])))
  {
  }
}
