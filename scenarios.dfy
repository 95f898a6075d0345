/** Two small hierarchies that show the shared registry and the partial
    merge on an unknown name with concrete names and tables. */
module Scenarios {
  import opened PiggyTypes
  import opened Fragments
  import opened Declaration
  import opened Merge
  import opened PiggyBack

  /** `belongs_to :owner` on the cars table, target table people. */
  function OwnerReflection(): Reflection
  {
    Reflection("owner", BelongsTo, "people", "owner_id",
               [Column("name", None)], map["name" := Column("name", None)])
  }

  /** `piggy_back :owner_name, :owner, :name` passes the checks, and its
      one attribute is a column. */
  lemma OwnerNameResolves(reflections: map<string, Reflection>)
    requires "owner" in reflections && reflections["owner"] == OwnerReflection()
    ensures Resolve(reflections, Positional(["owner", "name"]))
         == Ok(Resolved("owner", OwnerReflection(), ["name"]))
    ensures MissingColumn(OwnerReflection(), ["name"]) == None
  {
    assert ["owner", "name"][1..] == ["name"];
  }

  lemma OwnerNameSelect()
    ensures SelectFragment("people", "owner", ["name"]) == ", people.name AS owner_name"
  {
    assert ["name"][..0] == [];
  }

  lemma OwnerJoin()
    ensures JoinFragment(BelongsTo, "people", "cars", "id", "owner_id")
         == " LEFT JOIN people ON people.id=cars.owner_id "
  {
  }

  /** The fragments it registers on a class with table cars and primary key id. */
  lemma OwnerNameFragment()
    ensures DeclaredFragment("cars", "id", OwnerReflection(), ["name"])
         == Fragment(", people.name AS owner_name", " LEFT JOIN people ON people.id=cars.owner_id ")
  {
    OwnerNameSelect();
    OwnerJoin();
  }

  /** Cars < ActiveRecord::Base with the single-table subclasses Sedan and
      Coupe: a piggy back declared on Sedan is found through Coupe, which
      never declared one, because both memoise the registry of Cars. Its
      join uses the primary key of cars, the declaring class. */
  method SiblingsShareRegistry() returns (seen: Option<Fragment>)
    ensures seen == Some(Fragment(", people.name AS owner_name",
                                  " LEFT JOIN people ON people.id=cars.owner_id "))
  {
    var cars := new ModelClass("cars", "id", map[], true, null);
    var sedan := new ModelClass("cars", "id", map["owner" := OwnerReflection()], false, cars);
    var coupe := new ModelClass("cars", "id", map[], false, cars);
    OwnerNameResolves(sedan.reflections);
    OwnerNameFragment();
    var declared := sedan.PiggyBack("owner_name", Positional(["owner", "name"]));
    var info := coupe.PiggyBackInfo();
    seen := if "owner_name" in info.entries then Some(info.entries["owner_name"]) else None;
  }

  /** `has_one :dealer` on the cars table, target table dealers. */
  function DealerReflection(): Reflection
  {
    Reflection("dealer", HasOne, "dealers", "car_id",
               [Column("name", None)], map["name" := Column("name", None)])
  }

  lemma DealerNameResolves(reflections: map<string, Reflection>)
    requires "dealer" in reflections && reflections["dealer"] == DealerReflection()
    ensures Resolve(reflections, Positional(["dealer", "name"]))
         == Ok(Resolved("dealer", DealerReflection(), ["name"]))
    ensures MissingColumn(DealerReflection(), ["name"]) == None
  {
    assert ["dealer", "name"][1..] == ["name"];
  }

  /** Coupe memoises the registry before anything is declared; a later
      declaration on Sedan still reaches it, and piggy_back_info on Coupe
      keeps returning that one Hash object. */
  method SiblingMemoisedFirst() returns (same: bool, seen: bool)
    ensures same && seen
  {
    var cars := new ModelClass("cars", "id", map[], true, null);
    var sedan := new ModelClass("cars", "id", map["owner" := OwnerReflection()], false, cars);
    var coupe := new ModelClass("cars", "id", map[], false, cars);
    var first := coupe.PiggyBackInfo();
    OwnerNameResolves(sedan.reflections);
    var declared := sedan.PiggyBack("owner_name", Positional(["owner", "name"]));
    var later := coupe.PiggyBackInfo();
    same := first == later;
    seen := "owner_name" in later.entries;
  }

  /** Two declarations in a row on one class: the second finds the registry
      the first created, and both names are registered in it. */
  method TwoDeclarations() returns (names: set<string>)
    ensures names == {"owner_name", "dealer_name"}
  {
    var reflections := map["owner" := OwnerReflection(), "dealer" := DealerReflection()];
    var cars := new ModelClass("cars", "id", reflections, true, null);
    OwnerNameResolves(cars.reflections);
    var declared := cars.PiggyBack("owner_name", Positional(["owner", "name"]));
    DealerNameResolves(cars.reflections);
    declared := cars.PiggyBack("dealer_name", Positional(["dealer", "name"]));
    var info := cars.PiggyBackInfo();
    names := info.entries.Keys;
  }

  /** Merging owner_name, dealer_name, owner_name when only owner_name is
      registered: the first is appended, the merge stops at the second. */
  lemma MergeStopsAtDealerName(entries: map<string, Fragment>, base: Fragment, f: Fragment)
    requires entries == map["owner_name" := f]
    ensures MergeNames(entries, base, ["owner_name", "dealer_name", "owner_name"])
         == Merged(base.select + f.select, base.joins + f.joins, Some("dealer_name"))
  {
    var names := ["owner_name", "dealer_name", "owner_name"];
    assert names == ["owner_name"] + ["dealer_name", "owner_name"];
    MergeInSteps(entries, base, ["owner_name"], ["dealer_name", "owner_name"]);
    MergeOne(entries, base, "owner_name");
    var after := Fragment(base.select + f.select, base.joins + f.joins);
    assert ["dealer_name", "owner_name"] == ["dealer_name"] + ["owner_name"];
    assert ["dealer_name", "owner_name"][0] !in entries;
    MergeStopsAtUnknown(entries, after, ["dealer_name"], ["owner_name"]);
    MergeOne(entries, after, "dealer_name");
  }

  /** The same request on the cars class with no :select or :joins given:
      the default `cars.*` gets the owner_name item, the join is added, and
      dealer_name is reported. */
  lemma DealerNameRequestOnCars(entries: map<string, Fragment>)
    requires entries == map["owner_name" := Fragment(", people.name AS owner_name",
                                                     " LEFT JOIN people ON people.id=cars.owner_id ")]
    ensures MergeNames(entries, Fragment("cars" + ".*", ""), ["owner_name", "dealer_name", "owner_name"])
         == Merged("cars.*, people.name AS owner_name",
                   " LEFT JOIN people ON people.id=cars.owner_id ", Some("dealer_name"))
  {
    var f := entries["owner_name"];
    MergeStopsAtDealerName(entries, Fragment("cars" + ".*", ""), f);
    CarsSelectThenOwnerName();
    assert "" + f.joins == f.joins;
  }

  lemma CarsSelectThenOwnerName()
    ensures ("cars" + ".*") + ", people.name AS owner_name" == "cars.*, people.name AS owner_name"
  {
    assert "cars" + ".*" == "cars.*";
  }

  /** `find(:all, :piggy => [:owner_name, :dealer_name, :owner_name])` when
      only owner_name is registered: the call fails on dealer_name after
      :piggy is gone, :select has its default and the first fragment is
      already appended. */
  method UnknownNameAfterPartialMerge() returns (options: Options, outcome: Outcome<Error>)
    ensures outcome == Fail(NilPiggyBackInfo("dealer_name"))
    ensures options.piggy == None
    ensures options.select == Some("cars.*, people.name AS owner_name")
    ensures options.joins == Some(" LEFT JOIN people ON people.id=cars.owner_id ")
  {
    var cars := new ModelClass("cars", "id", map["owner" := OwnerReflection()], true, null);
    OwnerNameResolves(cars.reflections);
    OwnerNameFragment();
    var declared := cars.PiggyBack("owner_name", Positional(["owner", "name"]));
    options := new Options(None, None, Some(Names(["owner_name", "dealer_name", "owner_name"])), None);
    outcome := cars.AddPiggyBack(options);
    DealerNameRequestOnCars(cars.Entries());
  }
}
