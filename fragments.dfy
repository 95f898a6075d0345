/** The SQL text a declaration synthesises ahead of time
    (add_piggy_back_selects_and_joins!, lib/piggy_back.rb:127-144). */
module Fragments {
  import opened PiggyTypes

  /** The name of a generated reader, which is also the alias of its column in
      the select list: `<association>_<attribute>`. */
  function AttrKey(association: string, attribute: string): string
  {
    association + "_" + attribute
  }

  /** One select item: `, <target table>.<attribute> AS <association>_<attribute>`. */
  function SelectItem(targetTable: string, association: string, attribute: string): string
  {
    ", " + targetTable + "." + attribute + " AS " + AttrKey(association, attribute)
  }

  /** Reader names are unambiguous per association: the attribute is what
      follows `<association>_`. In particular the alias `<association>_*` of
      the wildcard select item is the name of no reader of a real column. */
  lemma AttrKeyInjective(association: string, x: string, y: string)
    ensures AttrKey(association, x) == AttrKey(association, y) <==> x == y
  {
    assert AttrKey(association, x)[|association| + 1..] == x;
    assert AttrKey(association, y)[|association| + 1..] == y;
  }

  /** The select items of `attributes`, in order, as the loop appends them. */
  function SelectFragment(targetTable: string, association: string, attributes: seq<string>): string
    decreases |attributes|
  {
    if attributes == [] then ""
    else SelectFragment(targetTable, association, attributes[..|attributes| - 1])
         + SelectItem(targetTable, association, attributes[|attributes| - 1])
  }
  /** The select fragment of a concatenation is the concatenation of the
      select fragments: items never interact. */
  lemma {:induction false} SelectFragmentConcat(t: string, a: string, xs: seq<string>, ys: seq<string>)
    ensures SelectFragment(t, a, xs + ys) == SelectFragment(t, a, xs) + SelectFragment(t, a, ys)
    decreases |ys|
  {
    if ys == [] {
      assert xs + ys == xs;
    } else {
      var n := |ys| - 1;
      assert (xs + ys)[..|xs + ys| - 1] == xs + ys[..n];
      assert (xs + ys)[|xs + ys| - 1] == ys[n];
      var item := SelectItem(t, a, ys[n]);
      calc {
        SelectFragment(t, a, xs + ys);
        SelectFragment(t, a, xs + ys[..n]) + item;
        { SelectFragmentConcat(t, a, xs, ys[..n]); }
        (SelectFragment(t, a, xs) + SelectFragment(t, a, ys[..n])) + item;
        SelectFragment(t, a, xs) + (SelectFragment(t, a, ys[..n]) + item);
        SelectFragment(t, a, xs) + SelectFragment(t, a, ys);
      }
    }
  }

  /** The fragment is empty exactly when there are no attributes; otherwise it
      starts with ", ", so it composes onto a non-empty select list. */
  lemma SelectFragmentShape(t: string, a: string, xs: seq<string>)
    ensures xs == [] <==> SelectFragment(t, a, xs) == ""
    ensures xs != [] ==> |SelectFragment(t, a, xs)| >= 2 && SelectFragment(t, a, xs)[..2] == ", "
  {
    if xs != [] {
      SelectFragmentConcat(t, a, [xs[0]], xs[1..]);
      assert [xs[0]] + xs[1..] == xs;
      assert [xs[0]][..0] == [];
      assert SelectFragment(t, a, [xs[0]]) == SelectItem(t, a, xs[0]);
    }
  }

  /** The i-th attribute contributes exactly its own item, aliased by its
      reader's name, between the items of the attributes before and after it. */
  lemma SelectFragmentAt(t: string, a: string, xs: seq<string>, i: nat)
    requires i < |xs|
    ensures SelectFragment(t, a, xs)
         == SelectFragment(t, a, xs[..i])
            + (", " + t + "." + xs[i] + " AS " + AttrKey(a, xs[i]))
            + SelectFragment(t, a, xs[i + 1..])
  {
    assert xs == xs[..i] + [xs[i]] + xs[i + 1..];
    SelectFragmentConcat(t, a, xs[..i] + [xs[i]], xs[i + 1..]);
    SelectFragmentConcat(t, a, xs[..i], [xs[i]]);
    assert [xs[i]][..0] == [];
  }

  /** The join clause, set off by a space at each end so that clauses
      appended one after another stay apart. For belongs_to the foreign key is a column of the OWNER
      table, for has_one a column of the TARGET table; in both directions the
      other side is the owner class's primary key, as the code is written. */
  function JoinFragment(macro: Macro, targetTable: string, ownerTable: string,
                        ownerKey: string, foreignKey: string): (j: string)
    requires macro.ToOne()
    ensures |j| >= 2 && j[0] == ' ' && j[|j| - 1] == ' '
  {
    if macro == BelongsTo then
      " LEFT JOIN " + targetTable + " ON " + targetTable + "." + ownerKey + "=" + ownerTable + "." + foreignKey + " "
    else
      " LEFT JOIN " + targetTable + " ON " + targetTable + "." + foreignKey + "=" + ownerTable + "." + ownerKey + " "
  }

  /** The first position of `c` in `s`, or |s| when it does not occur. */
  function IndexOf(s: string, c: char): (i: nat)
    ensures i <= |s|
    ensures forall j :: 0 <= j < i ==> s[j] != c
    ensures i < |s| ==> s[i] == c
  {
    if s == [] || s[0] == c then 0 else 1 + IndexOf(s[1..], c)
  }

  /** The text on either side of the first '=' of a join clause. */
  function EquationSides(s: string): (string, string)
  {
    var i := IndexOf(s, '=');
    if i < |s| then (s[..i], s[i + 1..]) else (s, "")
  }

  lemma IndexOfFirst(a: string, c: char, b: string)
    requires c !in a
    ensures IndexOf(a + [c] + b, c) == |a|
  {
    var s := a + [c] + b;
    assert forall j :: 0 <= j < |a| ==> s[j] == a[j];
    assert s[|a|] == c;
  }

  /** Splitting a join clause at its '=' (identifiers contain none) shows its
      direction: the owner table's side holds the foreign key exactly for
      belongs_to and the owner's primary key for has_one, while the target
      table's side holds the other column. */
  lemma {:induction false} JoinDirection(macro: Macro, t: string, o: string, pk: string, fk: string)
    requires macro.ToOne()
    requires '=' !in t && '=' !in pk && '=' !in fk
    ensures EquationSides(JoinFragment(macro, t, o, pk, fk))
         == (" LEFT JOIN " + t + " ON " + t + "." + (if macro == BelongsTo then pk else fk),
             o + "." + (if macro == BelongsTo then fk else pk) + " ")
  {
    var left := " LEFT JOIN " + t + " ON " + t + "." + (if macro == BelongsTo then pk else fk);
    var right := o + "." + (if macro == BelongsTo then fk else pk) + " ";
    assert JoinFragment(macro, t, o, pk, fk) == left + ['='] + right;
    assert '=' !in " LEFT JOIN " && '=' !in " ON " && '=' !in ".";
    IndexOfFirst(left, '=', right);
    var s := left + ['='] + right;
    assert s[..|left|] == left;
    assert s[|left| + 1..] == right;
  }

  /** The has_one clause is the belongs_to clause with the two key columns
      exchanged. */
  lemma HasOneSwapsKeys(t: string, o: string, pk: string, fk: string)
    ensures JoinFragment(HasOne, t, o, pk, fk) == JoinFragment(BelongsTo, t, o, fk, pk)
  {
  }
}
