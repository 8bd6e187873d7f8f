/** The country and region reference table consulted by profile validation.
    Its contents come from a library outside the model, so every member that
    uses it takes it as a parameter. */
module CountryData {

  datatype RegionInfo = RegionInfo(name: string)

  datatype CountryInfo = CountryInfo(countryName: string, regions: seq<RegionInfo>)

  type CountryTable = seq<CountryInfo>

  /** `table.Where(country => country.CountryName == name)`, in table order:
      every country of that name, as often as the table lists it. */
  function CountriesNamed(table: CountryTable, name: string): (r: seq<CountryInfo>)
    ensures forall c :: c in r <==> c in table && c.countryName == name
    ensures |r| <= |table|
  {
    if table == [] then []
    else (if table[0].countryName == name then [table[0]] else []) + CountriesNamed(table[1..], name)
  }

  /** The filter keeps every country of that name as often as the table lists it. */
  lemma {:induction false} CountriesNamedKeepsCopies(table: CountryTable, name: string, c: CountryInfo)
    ensures multiset(CountriesNamed(table, name))[c] == if c.countryName == name then multiset(table)[c] else 0
    decreases |table|
  {
    if table != [] {
      CountriesNamedKeepsCopies(table[1..], name, c);
      assert table == [table[0]] + table[1..];
    }
  }

  /** The names of the regions, position by position. */
  function RegionNames(regions: seq<RegionInfo>): (names: seq<string>)
    ensures |names| == |regions|
    ensures forall i :: 0 <= i < |regions| ==> names[i] == regions[i].name
  {
    if regions == [] then [] else [regions[0].name] + RegionNames(regions[1..])
  }

  /** `regions.Where(region => region.Name == name).Count()`. */
  function CountRegionsNamed(regions: seq<RegionInfo>, name: string): (n: nat)
    ensures n <= |regions|
    ensures n == 0 <==> forall i :: 0 <= i < |regions| ==> regions[i].name != name
  {
    if regions == [] then 0
    else (if regions[0].name == name then 1 else 0) + CountRegionsNamed(regions[1..], name)
  }

  /** The count is the number of times the name occurs among the region names. */
  lemma {:induction false} CountIsOccurrences(regions: seq<RegionInfo>, name: string)
    ensures CountRegionsNamed(regions, name) == multiset(RegionNames(regions))[name]
    decreases |regions|
  {
    if regions != [] {
      CountIsOccurrences(regions[1..], name);
      assert RegionNames(regions) == [regions[0].name] + RegionNames(regions[1..]);
    }
  }

  /** The country at `i` is the only one of the table with that name. */
  ghost predicate OnlyCountryAt(table: CountryTable, name: string, i: int)
  {
    0 <= i < |table| && table[i].countryName == name &&
    forall j :: 0 <= j < |table| && j != i ==> table[j].countryName != name
  }

  /** `Single()` finds one country exactly when one entry of the table, and
      no other, has that name; two equal entries are two. */
  lemma {:induction false} OneCountryNamed(table: CountryTable, name: string)
    ensures |CountriesNamed(table, name)| == 1 <==> exists i :: OnlyCountryAt(table, name, i)
    decreases |table|
  {
    if table != [] {
      OneCountryNamed(table[1..], name);
      if table[0].countryName == name {
        OneCountryFirst(table, name);
      } else {
        OneCountryLater(table, name);
      }
    }
  }

  /** The step of `OneCountryNamed` when the first entry has the name. */
  lemma OneCountryFirst(table: CountryTable, name: string)
    requires table != [] && table[0].countryName == name
    ensures |CountriesNamed(table, name)| == 1 <==> exists i :: OnlyCountryAt(table, name, i)
  {
    var tail := table[1..];
    var later := CountriesNamed(tail, name);
    assert CountriesNamed(table, name) == [table[0]] + later;
    if later == [] {
      assert forall j :: 1 <= j < |table| ==> table[j] == tail[j - 1];
      assert forall j :: 0 <= j < |tail| ==> tail[j] !in later;
      assert OnlyCountryAt(table, name, 0);
    } else {
      assert later[0] in later;
      var k :| 0 <= k < |tail| && tail[k] == later[0];
      assert table[k + 1].countryName == name;
      forall i | 0 <= i < |table| ensures !OnlyCountryAt(table, name, i) {
        if i == 0 { assert table[k + 1].countryName == name; } else { assert table[0].countryName == name; }
      }
    }
  }

  /** The step of `OneCountryNamed` when the first entry has another name. */
  lemma OneCountryLater(table: CountryTable, name: string)
    requires table != [] && table[0].countryName != name
    requires |CountriesNamed(table[1..], name)| == 1 <==> exists i :: OnlyCountryAt(table[1..], name, i)
    ensures |CountriesNamed(table, name)| == 1 <==> exists i :: OnlyCountryAt(table, name, i)
  {
    var tail := table[1..];
    assert |CountriesNamed(table, name)| == |CountriesNamed(tail, name)|;
    assert forall j :: 1 <= j < |table| ==> table[j] == tail[j - 1];
    if |CountriesNamed(tail, name)| == 1 {
      var i :| OnlyCountryAt(tail, name, i);
      assert OnlyCountryAt(table, name, i + 1);
    } else {
      forall i | OnlyCountryAt(table, name, i) ensures false {
        assert i != 0;
        assert OnlyCountryAt(tail, name, i - 1);
      }
    }
  }

  /** The region at `i` is the only one with that name. */
  ghost predicate OnlyRegionAt(regions: seq<RegionInfo>, name: string, i: int)
  {
    0 <= i < |regions| && regions[i].name == name &&
    forall j :: 0 <= j < |regions| && j != i ==> regions[j].name != name
  }

  /** The region count is one exactly when one region, and no other, has that name. */
  lemma {:induction false} OneRegionNamed(regions: seq<RegionInfo>, name: string)
    ensures CountRegionsNamed(regions, name) == 1 <==> exists i :: OnlyRegionAt(regions, name, i)
    decreases |regions|
  {
    if regions != [] {
      OneRegionNamed(regions[1..], name);
      if regions[0].name == name {
        OneRegionFirst(regions, name);
      } else {
        OneRegionLater(regions, name);
      }
    }
  }

  /** The step of `OneRegionNamed` when the first region has the name. */
  lemma OneRegionFirst(regions: seq<RegionInfo>, name: string)
    requires regions != [] && regions[0].name == name
    ensures CountRegionsNamed(regions, name) == 1 <==> exists i :: OnlyRegionAt(regions, name, i)
  {
    var tail := regions[1..];
    if CountRegionsNamed(tail, name) == 0 {
      assert forall j :: 1 <= j < |regions| ==> regions[j] == tail[j - 1];
      assert OnlyRegionAt(regions, name, 0);
    } else {
      var k :| 0 <= k < |tail| && tail[k].name == name;
      assert regions[k + 1].name == name;
      forall i | 0 <= i < |regions| ensures !OnlyRegionAt(regions, name, i) {
        if i == 0 { assert regions[k + 1].name == name; } else { assert regions[0].name == name; }
      }
    }
  }

  /** The step of `OneRegionNamed` when the first region has another name. */
  lemma OneRegionLater(regions: seq<RegionInfo>, name: string)
    requires regions != [] && regions[0].name != name
    requires CountRegionsNamed(regions[1..], name) == 1 <==> exists i :: OnlyRegionAt(regions[1..], name, i)
    ensures CountRegionsNamed(regions, name) == 1 <==> exists i :: OnlyRegionAt(regions, name, i)
  {
    var tail := regions[1..];
    assert forall j :: 1 <= j < |regions| ==> regions[j] == tail[j - 1];
    if CountRegionsNamed(tail, name) == 1 {
      var i :| OnlyRegionAt(tail, name, i);
      assert OnlyRegionAt(regions, name, i + 1);
    } else {
      forall i | OnlyRegionAt(regions, name, i) ensures false {
        assert i != 0;
        assert OnlyRegionAt(tail, name, i - 1);
      }
    }
  }

  /** A table listing the same country twice has no single country of that
      name, though each entry alone would be one. */
  lemma DuplicateCountryIsNotSingle(c: CountryInfo)
    ensures |CountriesNamed([c, c], c.countryName)| == 2
  {
    assert [c, c][1..] == [c];
  }
}
