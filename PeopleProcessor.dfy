/**
 A model of `PeopleProcessor`: grouping a list of people by one name field,
 collecting the other name field, with `null` names replaced by "N/A" and
 every key and value upper-cased.
 */
module PeopleProcessor {
  import opened Wrappers
  import opened Strings

  /** A person, seen only through its two getters; either name may be `null`. */
  datatype Person = Person(firstName: Option<string>, lastName: Option<string>)

  /** A field selector such as `Person::getFirstName`. */
  type Selector = Person -> Option<string>

  /** The grouped result: upper-cased key to the upper-cased values, in input order. */
  type Grouping = map<string, seq<string>>

  const NotAvailable: string := "N/A"

  function GetFirstName(p: Person): Option<string> { p.firstName }

  function GetLastName(p: Person): Option<string> { p.lastName }

  /** `ofNullable(s).orElse("N/A").toUpperCase()` */
  function Normalize(s: Option<string>): (r: string)
    ensures IsUpperCase(r)
    ensures s.None? ==> r == NotAvailable
    ensures s.Some? ==> |r| == |s.value|
    ensures s.Some? && IsUpperCase(s.value) ==> r == s.value
  {
    var name := match s case Some(n) => n case None => NotAvailable;
    ToUpperCase(name)
  }

  /** `filter(Objects::nonNull)`: the non-null records, in input order. */
  function Present(xs: seq<Option<Person>>): (r: seq<Person>)
    ensures |r| <= |xs|
  {
    if xs == [] then []
    else
      var last := xs[|xs| - 1];
      Present(xs[..|xs| - 1]) + (match last case Some(p) => [p] case None => [])
  }

  /** Filtering drops exactly the `null` records. */
  lemma {:induction false} PresentCount(xs: seq<Option<Person>>)
    ensures |Present(xs)| == |xs| - multiset(xs)[None]
  {
    if xs != [] {
      assert xs == xs[..|xs| - 1] + [xs[|xs| - 1]];
      PresentCount(xs[..|xs| - 1]);
    }
  }

  /** Filtering keeps exactly the non-null records. */
  lemma {:induction false} PresentMembers(xs: seq<Option<Person>>, p: Person)
    ensures p in Present(xs) <==> Some(p) in xs
  {
    if xs != [] {
      assert xs == xs[..|xs| - 1] + [xs[|xs| - 1]];
      PresentMembers(xs[..|xs| - 1], p);
    }
  }

  /** The list under `k`, as if an absent key had an empty list. */
  function Lookup(m: Grouping, k: string): seq<string>
  {
    if k in m then m[k] else []
  }

  /** Appends `v` to the list under `k`, creating the list if `k` is new. */
  function Append(m: Grouping, k: string, v: string): (r: Grouping)
    ensures r.Keys == m.Keys + {k}
    ensures r[k] == Lookup(m, k) + [v]
    ensures forall j :: j in m && j != k ==> r[j] == m[j]
  {
    m[k := Lookup(m, k) + [v]]
  }

  /**
   `groupingBy(key, mapping(value, toList()))` over non-null records: a left
   fold that appends each record's value to its key's list.
   */
  function Group(ps: seq<Person>, key: Selector, value: Selector): (r: Grouping)
    ensures forall k :: k in r ==> |r[k]| > 0
    decreases |ps|
  {
    if ps == [] then map[]
    else
      var p := ps[|ps| - 1];
      Append(Group(ps[..|ps| - 1], key, value), Normalize(key(p)), Normalize(value(p)))
  }

  /** Every key and every value of a grouping is upper case. */
  lemma {:induction false} GroupUpperCase(ps: seq<Person>, key: Selector, value: Selector, k: string)
    requires k in Group(ps, key, value)
    ensures IsUpperCase(k)
    ensures forall i :: 0 <= i < |Group(ps, key, value)[k]| ==> IsUpperCase(Group(ps, key, value)[k][i])
    decreases |ps|
  {
    var p := ps[|ps| - 1];
    var init := Group(ps[..|ps| - 1], key, value);
    if k in init {
      GroupUpperCase(ps[..|ps| - 1], key, value, k);
    }
  }

  /** `createMap`: a `null` or empty list gives an empty map; `null` records are skipped. */
  function CreateMap(people: Option<seq<Option<Person>>>, key: Selector, value: Selector): (r: Grouping)
    ensures people.None? ==> r == map[]
    ensures people.Some? && people.value == [] ==> r == map[]
  {
    match people
    case None => map[]
    case Some(xs) =>
      if |xs| == 0 then map[] else Group(Present(xs), key, value)
  }

  /** Last names grouped under each first name. */
  function LastnamesByFirstname(people: Option<seq<Option<Person>>>): (r: Grouping)
    ensures people.None? || people.value == [] ==> r == map[]
    ensures forall k :: k in r ==> |r[k]| > 0
  {
    CreateMap(people, GetFirstName, GetLastName)
  }

  /** First names grouped under each last name. */
  function FirstnamesByLastname(people: Option<seq<Option<Person>>>): (r: Grouping)
    ensures people.None? || people.value == [] ==> r == map[]
    ensures forall k :: k in r ==> |r[k]| > 0
  {
    CreateMap(people, GetLastName, GetFirstName)
  }

  // ---------------------------------------------------------------------
  // Reference definition of one key's list, and what the grouping keeps.
  // ---------------------------------------------------------------------

  /** The normalised values of the records whose normalised key is `k`, in input order. */
  function Column(ps: seq<Person>, key: Selector, value: Selector, k: string): seq<string>
    decreases |ps|
  {
    if ps == [] then []
    else
      var p := ps[|ps| - 1];
      Column(ps[..|ps| - 1], key, value, k)
        + (if Normalize(key(p)) == k then [Normalize(value(p))] else [])
  }

  /** Each key's list is exactly the filtered, mapped input: order and duplicates kept. */
  lemma {:induction false} GroupIsColumn(ps: seq<Person>, key: Selector, value: Selector, k: string)
    ensures Lookup(Group(ps, key, value), k) == Column(ps, key, value, k)
    decreases |ps|
  {
    if ps != [] {
      GroupIsColumn(ps[..|ps| - 1], key, value, k);
    }
  }

  /** A key's column is non-empty exactly when some record normalises to that key. */
  lemma {:induction false} ColumnNonEmpty(ps: seq<Person>, key: Selector, value: Selector, k: string)
    ensures Column(ps, key, value, k) != [] <==> exists p :: p in ps && Normalize(key(p)) == k
    decreases |ps|
  {
    if ps != [] {
      var init, last := ps[..|ps| - 1], ps[|ps| - 1];
      assert ps == init + [last];
      ColumnNonEmpty(init, key, value, k);
    }
  }

  /** The keys of the grouping are exactly the normalised keys of the records. */
  lemma GroupKeys(ps: seq<Person>, key: Selector, value: Selector, k: string)
    ensures k in Group(ps, key, value) <==> exists p :: p in ps && Normalize(key(p)) == k
  {
    GroupIsColumn(ps, key, value, k);
    ColumnNonEmpty(ps, key, value, k);
  }

  /** Every record's normalised value is filed under its normalised key. */
  lemma {:induction false} ColumnHasRecord(ps: seq<Person>, key: Selector, value: Selector, i: nat)
    requires i < |ps|
    ensures Normalize(value(ps[i])) in Column(ps, key, value, Normalize(key(ps[i])))
    decreases |ps|
  {
    if i < |ps| - 1 {
      var init := ps[..|ps| - 1];
      assert init[i] == ps[i];
      ColumnHasRecord(init, key, value, i);
    }
  }

  // ---------------------------------------------------------------------
  // Conservation of the number of records.
  // ---------------------------------------------------------------------

  /** The lengths of the lists under `keys`, added up. */
  ghost function SumOver(m: Grouping, keys: set<string>): nat
    requires keys <= m.Keys
    decreases keys
  {
    if keys == {} then 0
    else
      var k :| k in keys;
      |m[k]| + SumOver(m, keys - {k})
  }

  /** The lengths of all lists of a grouping, added up. */
  ghost function TotalValues(m: Grouping): nat
  {
    SumOver(m, m.Keys)
  }

  lemma {:induction false} SumOverRemove(m: Grouping, keys: set<string>, k: string)
    requires keys <= m.Keys && k in keys
    ensures SumOver(m, keys) == |m[k]| + SumOver(m, keys - {k})
    decreases keys
  {
    var j :| j in keys && SumOver(m, keys) == |m[j]| + SumOver(m, keys - {j});
    if j != k {
      SumOverRemove(m, keys - {j}, k);
      SumOverRemove(m, keys - {k}, j);
      assert keys - {j} - {k} == keys - {k} - {j};
    }
  }

  lemma {:induction false} SumOverSameLengths(m: Grouping, m': Grouping, keys: set<string>)
    requires keys <= m.Keys && keys <= m'.Keys
    requires forall k :: k in keys ==> |m[k]| == |m'[k]|
    ensures SumOver(m, keys) == SumOver(m', keys)
    decreases keys
  {
    if keys != {} {
      var j :| j in keys && SumOver(m, keys) == |m[j]| + SumOver(m, keys - {j});
      SumOverRemove(m', keys, j);
      SumOverSameLengths(m, m', keys - {j});
    }
  }

  lemma AppendAddsOne(m: Grouping, k: string, v: string)
    ensures TotalValues(Append(m, k, v)) == TotalValues(m) + 1
  {
    var r := Append(m, k, v);
    SumOverRemove(r, r.Keys, k);
    SumOverSameLengths(r, m, m.Keys - {k});
    if k in m {
      SumOverRemove(m, m.Keys, k);
      assert r.Keys == m.Keys;
    } else {
      assert r.Keys - {k} == m.Keys - {k} == m.Keys;
    }
  }

  /** Every record contributes exactly one value. */
  lemma {:induction false} GroupConservesCount(ps: seq<Person>, key: Selector, value: Selector)
    ensures TotalValues(Group(ps, key, value)) == |ps|
    decreases |ps|
  {
    if ps != [] {
      var p := ps[|ps| - 1];
      GroupConservesCount(ps[..|ps| - 1], key, value);
      AppendAddsOne(Group(ps[..|ps| - 1], key, value), Normalize(key(p)), Normalize(value(p)));
    }
  }

  // ---------------------------------------------------------------------
  // Properties of createMap.
  // ---------------------------------------------------------------------

  /** The values add up to the number of non-null records of the input; a `null` list has none. */
  lemma CreateMapConservesCount(people: Option<seq<Option<Person>>>, key: Selector, value: Selector)
    ensures TotalValues(CreateMap(people, key, value))
         == match people case None => 0 case Some(xs) => |xs| - multiset(xs)[None]
  {
    if people.Some? {
      var xs := people.value;
      PresentCount(xs);
      if |xs| != 0 {
        GroupConservesCount(Present(xs), key, value);
      }
    }
  }

  /** Every key maps to a non-empty list; upper-casing any key or value again changes nothing. */
  lemma CreateMapShape(people: Option<seq<Option<Person>>>, key: Selector, value: Selector, k: string)
    requires k in CreateMap(people, key, value)
    ensures |CreateMap(people, key, value)[k]| > 0
    ensures ToUpperCase(k) == k
    ensures forall i :: 0 <= i < |CreateMap(people, key, value)[k]| ==>
      ToUpperCase(CreateMap(people, key, value)[k][i]) == CreateMap(people, key, value)[k][i]
  {
    GroupUpperCase(Present(people.value), key, value, k);
  }

  lemma {:induction false} PresentAppend(a: seq<Option<Person>>, b: seq<Option<Person>>)
    ensures Present(a + b) == Present(a) + Present(b)
    decreases |b|
  {
    if b != [] {
      var init := b[..|b| - 1];
      assert a + b == (a + init) + [b[|b| - 1]];
      assert (a + b)[..|a + b| - 1] == a + init;
      PresentAppend(a, init);
    } else {
      assert a + b == a;
    }
  }

  /** A `null` record anywhere in the list changes nothing. */
  lemma NullRecordIgnored(xs: seq<Option<Person>>, ys: seq<Option<Person>>, key: Selector, value: Selector)
    ensures CreateMap(Some(xs + [None] + ys), key, value) == CreateMap(Some(xs + ys), key, value)
  {
    var nil: seq<Option<Person>> := [None];
    assert Present(nil) == [] by {
      assert nil[..0] == [];
    }
    PresentAppend(xs, nil);
    PresentAppend(xs + nil, ys);
    PresentAppend(xs, ys);
    assert Present(xs + nil + ys) == Present(xs + ys);
  }

  /** The keys of the result are the normalised keys of the non-null records. */
  lemma CreateMapKeys(xs: seq<Option<Person>>, key: Selector, value: Selector, k: string)
    ensures k in CreateMap(Some(xs), key, value) <==>
      exists p :: Some(p) in xs && Normalize(key(p)) == k
  {
    var ps := Present(xs);
    GroupKeys(ps, key, value, k);
    forall p | Normalize(key(p)) == k
      ensures p in ps <==> Some(p) in xs
    {
      PresentMembers(xs, p);
    }
  }

  /**
   Every non-null record is filed: a `null` key field puts it under "N/A",
   and a `null` value field contributes the value "N/A".
   */
  lemma RecordFiled(xs: seq<Option<Person>>, key: Selector, value: Selector, p: Person)
    requires Some(p) in xs
    ensures Normalize(key(p)) in CreateMap(Some(xs), key, value)
    ensures Normalize(value(p)) in CreateMap(Some(xs), key, value)[Normalize(key(p))]
    ensures key(p).None? ==> NotAvailable in CreateMap(Some(xs), key, value)
    ensures value(p).None? ==> NotAvailable in CreateMap(Some(xs), key, value)[Normalize(key(p))]
  {
    var ps := Present(xs);
    PresentMembers(xs, p);
    var i :| 0 <= i < |ps| && ps[i] == p;
    ColumnHasRecord(ps, key, value, i);
    GroupIsColumn(ps, key, value, Normalize(key(p)));
  }

  /** The list under `k` is the reference column of the non-null records. */
  lemma CreateMapIsColumn(xs: seq<Option<Person>>, key: Selector, value: Selector, k: string)
    ensures Lookup(CreateMap(Some(xs), key, value), k) == Column(Present(xs), key, value, k)
  {
    GroupIsColumn(Present(xs), key, value, k);
  }

  // ---------------------------------------------------------------------
  // The two entry points.
  // ---------------------------------------------------------------------

  lemma {:induction false} ColumnDuality(ps: seq<Person>, key: Selector, value: Selector, k: string, v: string)
    ensures multiset(Column(ps, key, value, k))[v] == multiset(Column(ps, value, key, v))[k]
    decreases |ps|
  {
    if ps != [] {
      ColumnDuality(ps[..|ps| - 1], key, value, k, v);
    }
  }

  /**
   The two groupings are each other's transpose: `v` occurs under `k` in one
   as often as `k` occurs under `v` in the other.
   */
  lemma Duality(people: Option<seq<Option<Person>>>, k: string, v: string)
    ensures multiset(Lookup(LastnamesByFirstname(people), k))[v]
         == multiset(Lookup(FirstnamesByLastname(people), v))[k]
  {
    if people.Some? && |people.value| != 0 {
      var ps := Present(people.value);
      GroupIsColumn(ps, GetFirstName, GetLastName, k);
      GroupIsColumn(ps, GetLastName, GetFirstName, v);
      ColumnDuality(ps, GetFirstName, GetLastName, k, v);
    }
  }

  /** The input of the source's documentation example: John Doe, John Silver, Peter Doe. */
  function DocPeople(): seq<Option<Person>>
  {
    [Some(Person(Some("John"), Some("Doe"))),
     Some(Person(Some("John"), Some("Silver"))),
     Some(Person(Some("Peter"), Some("Doe")))]
  }

  lemma DocPeoplePresent()
    ensures Present(DocPeople()) == [Person(Some("John"), Some("Doe")),
                                     Person(Some("John"), Some("Silver")),
                                     Person(Some("Peter"), Some("Doe"))]
  {
    var xs := DocPeople();
    assert xs[..2][..1] == xs[..1];
    assert xs[..1][..0] == [];
    assert Present(xs[..1]) == [Person(Some("John"), Some("Doe"))];
    assert Present(xs[..2]) == [Person(Some("John"), Some("Doe")), Person(Some("John"), Some("Silver"))];
  }

  lemma DocNamesNormalized()
    ensures Normalize(Some("John")) == "JOHN" && Normalize(Some("Peter")) == "PETER"
    ensures Normalize(Some("Doe")) == "DOE" && Normalize(Some("Silver")) == "SILVER"
  {
    NormalizeAsciiName("John", "JOHN");
    NormalizeAsciiName("Peter", "PETER");
    NormalizeAsciiName("Doe", "DOE");
    NormalizeAsciiName("Silver", "SILVER");
  }

  lemma NormalizeAsciiName(s: string, u: string)
    requires |s| == |u|
    requires forall i :: 0 <= i < |s| ==> UpperChar(s[i]) == u[i]
    ensures Normalize(Some(s)) == u
  {
  }

  lemma AppendChainFirstname()
    ensures Append(Append(Append(map[], "JOHN", "DOE"), "JOHN", "SILVER"), "PETER", "DOE")
         == map["JOHN" := ["DOE", "SILVER"], "PETER" := ["DOE"]]
  {
    var g1 := Append(map[], "JOHN", "DOE");
    assert g1.Keys == {"JOHN"} && g1["JOHN"] == [] + ["DOE"];
    var g2 := Append(g1, "JOHN", "SILVER");
    assert g2.Keys == {"JOHN"} && g2["JOHN"] == ["DOE"] + ["SILVER"];
    var g3 := Append(g2, "PETER", "DOE");
    assert g3.Keys == {"JOHN", "PETER"} && g3["JOHN"] == g2["JOHN"] && g3["PETER"] == [] + ["DOE"];
    var want := map["JOHN" := ["DOE", "SILVER"], "PETER" := ["DOE"]];
    assert want.Keys == g3.Keys && want["JOHN"] == g3["JOHN"] && want["PETER"] == g3["PETER"];
  }

  lemma AppendChainLastname()
    ensures Append(Append(Append(map[], "DOE", "JOHN"), "SILVER", "JOHN"), "DOE", "PETER")
         == map["DOE" := ["JOHN", "PETER"], "SILVER" := ["JOHN"]]
  {
    var g1 := Append(map[], "DOE", "JOHN");
    assert g1.Keys == {"DOE"} && g1["DOE"] == [] + ["JOHN"];
    var g2 := Append(g1, "SILVER", "JOHN");
    assert g2.Keys == {"DOE", "SILVER"} && g2["DOE"] == g1["DOE"] && g2["SILVER"] == [] + ["JOHN"];
    var g3 := Append(g2, "DOE", "PETER");
    assert g3.Keys == {"DOE", "SILVER"} && g3["DOE"] == ["JOHN"] + ["PETER"] && g3["SILVER"] == g2["SILVER"];
    var want := map["DOE" := ["JOHN", "PETER"], "SILVER" := ["JOHN"]];
    assert want.Keys == g3.Keys && want["DOE"] == g3["DOE"] && want["SILVER"] == g3["SILVER"];
  }

  /** Grouping three records is three appends, in input order. */
  lemma GroupOfThree(a: Person, b: Person, c: Person, key: Selector, value: Selector)
    ensures Group([a, b, c], key, value)
         == Append(Append(Append(map[], Normalize(key(a)), Normalize(value(a))),
                          Normalize(key(b)), Normalize(value(b))),
                   Normalize(key(c)), Normalize(value(c)))
  {
    assert [a, b, c][..2] == [a, b] && [a, b][..1] == [a] && [a][..0] == [];
    var g1 := Append(map[], Normalize(key(a)), Normalize(value(a)));
    assert Group([a], key, value) == g1;
    var g2 := Append(g1, Normalize(key(b)), Normalize(value(b)));
    assert Group([a, b], key, value) == g2;
  }

  /** The documentation example for `lastnamesByFirstname`, upper-cased as the code does. */
  lemma DocExampleByFirstname()
    ensures LastnamesByFirstname(Some(DocPeople())) == map["JOHN" := ["DOE", "SILVER"], "PETER" := ["DOE"]]
  {
    DocPeoplePresent();
    DocNamesNormalized();
    GroupOfThree(Person(Some("John"), Some("Doe")), Person(Some("John"), Some("Silver")),
                 Person(Some("Peter"), Some("Doe")), GetFirstName, GetLastName);
    AppendChainFirstname();
  }

  /** The documentation example for `firstnamesByLastname`, upper-cased as the code does. */
  lemma DocExampleByLastname()
    ensures FirstnamesByLastname(Some(DocPeople())) == map["DOE" := ["JOHN", "PETER"], "SILVER" := ["JOHN"]]
  {
    DocPeoplePresent();
    DocNamesNormalized();
    GroupOfThree(Person(Some("John"), Some("Doe")), Person(Some("John"), Some("Silver")),
                 Person(Some("Peter"), Some("Doe")), GetLastName, GetFirstName);
    AppendChainLastname();
  }

  /** A `null` first name is grouped under "N/A". */
  lemma NullFirstNameExample()
    ensures LastnamesByFirstname(Some([Some(Person(None, Some("Doe")))])) == map["N/A" := ["DOE"]]
  {
    var p := Person(None, Some("Doe"));
    assert Present([Some(p)]) == [p];
    assert Normalize(GetLastName(p)) == "DOE";
    assert Normalize(GetFirstName(p)) == NotAvailable;
    assert [p][..0] == [];
    assert Group([], GetFirstName, GetLastName) == map[];
    var r := Group([p], GetFirstName, GetLastName);
    assert r == Append(map[], NotAvailable, "DOE");
    assert r.Keys == {"N/A"} && r["N/A"] == ["DOE"];
    assert r == map["N/A" := ["DOE"]];
    assert LastnamesByFirstname(Some([Some(p)])) == r;
  }
}
