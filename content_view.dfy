/** The resort list of SnowSeeker's main screen: the catalog, filtered by the
    search text and ordered by the selected sort order.
 */
module ContentView {
  import opened Text
  import opened Sorting

  /** A ski resort, reduced to the two fields the list logic reads. */
  datatype Resort = Resort(name: string, country: string)

  /** The three choices of the toolbar's sort menu. */
  datatype SortOrder = DefaultOrder | NameOrder | CountryOrder

  function NameOf(r: Resort): string { r.name }

  function CountryOf(r: Resort): string { r.country }

  /** Whether `resort` belongs in the list for `searchText`: everything does when
      the search text is empty, otherwise its name must contain the text. */
  predicate Shown(resort: Resort, searchText: string)
    ensures searchText == [] ==> Shown(resort, searchText)
    ensures searchText != [] && Shown(resort, searchText) ==> |searchText| <= |resort.name|
  {
    searchText == [] || CaseInsensitiveContains(resort.name, searchText)
  }

  /** The model of `resorts.filter { $0.name.localizedCaseInsensitiveContains(searchText) }`. */
  function MatchingResorts(resorts: seq<Resort>, searchText: string): (kept: seq<Resort>)
    ensures |kept| <= |resorts|
    ensures forall i :: 0 <= i < |kept| ==> CaseInsensitiveContains(kept[i].name, searchText)
    ensures forall x :: x in kept ==> x in resorts
    decreases |resorts|
  {
    if resorts == [] then []
    else if CaseInsensitiveContains(resorts[0].name, searchText) then
      [resorts[0]] + MatchingResorts(resorts[1..], searchText)
    else MatchingResorts(resorts[1..], searchText)
  }

  /** The first stage of `filteredResorts`: the list before ordering. */
  function Filtered(resorts: seq<Resort>, searchText: string): (r: seq<Resort>)
    ensures |r| <= |resorts|
    ensures forall i :: 0 <= i < |r| ==> Shown(r[i], searchText)
  {
    if searchText == [] then resorts else MatchingResorts(resorts, searchText)
  }

  /** The model of `filteredResorts`: filter, then order as `sortOrder` says. */
  function FilteredResorts(resorts: seq<Resort>, searchText: string, sortOrder: SortOrder): (r: seq<Resort>)
    ensures |r| <= |resorts|
    ensures forall x :: x in r <==> x in resorts && Shown(x, searchText)
    ensures multiset(r) == multiset(Filtered(resorts, searchText))
    ensures sortOrder == DefaultOrder ==> IsSubsequence(r, resorts)
    ensures sortOrder == NameOrder ==> SortedBy(r, NameOf)
    ensures sortOrder == CountryOrder ==> SortedBy(r, CountryOf)
  {
    var kept := Filtered(resorts, searchText);
    FilteredMembership(resorts, searchText);
    FilteredIsSubsequence(resorts, searchText);
    var r := match sortOrder
      case DefaultOrder => kept
      case NameOrder => SortBy(kept, NameOf)
      case CountryOrder => SortBy(kept, CountryOf);
    SameElements(r, kept);
    r
  }

  // ---- The filter stage ----

  /** How many copies of `x` the filter keeps: all of them when its name
      matches, none otherwise. */
  lemma {:induction false} MatchingMultiplicity(resorts: seq<Resort>, searchText: string, x: Resort)
    ensures multiset(MatchingResorts(resorts, searchText))[x] ==
      if CaseInsensitiveContains(x.name, searchText) then multiset(resorts)[x] else 0
    decreases |resorts|
  {
    if resorts != [] {
      MatchingMultiplicity(resorts[1..], searchText, x);
      assert resorts == [resorts[0]] + resorts[1..];
    }
  }

  /** The same for the first stage as a whole, guard included. */
  lemma FilteredMultiplicity(resorts: seq<Resort>, searchText: string, x: Resort)
    ensures multiset(Filtered(resorts, searchText))[x] ==
      if Shown(x, searchText) then multiset(resorts)[x] else 0
  {
    if searchText != [] {
      MatchingMultiplicity(resorts, searchText, x);
    }
  }

  /** A resort is listed exactly when it is in the catalog and passes the search. */
  lemma FilteredMembership(resorts: seq<Resort>, searchText: string)
    ensures forall x :: x in Filtered(resorts, searchText) <==> x in resorts && Shown(x, searchText)
  {
    forall x ensures x in Filtered(resorts, searchText) <==> x in resorts && Shown(x, searchText) {
      FilteredMultiplicity(resorts, searchText, x);
    }
  }

  /** `idx` lists, in increasing order, positions of `b` that spell out `a`. */
  predicate Embeds<T(==)>(a: seq<T>, b: seq<T>, idx: seq<nat>) {
    && |idx| == |a|
    && (forall i :: 0 <= i < |idx| ==> idx[i] < |b| && a[i] == b[idx[i]])
    && (forall i, j :: 0 <= i < j < |idx| ==> idx[i] < idx[j])
  }

  /** `a` is `b` with some elements dropped and the rest in their original order. */
  ghost predicate IsSubsequence<T>(a: seq<T>, b: seq<T>) {
    exists idx :: Embeds(a, b, idx)
  }

  /** `idx` with every position moved one further along. */
  function Shift(idx: seq<nat>): (r: seq<nat>)
    ensures |r| == |idx|
    ensures forall i :: 0 <= i < |r| ==> r[i] == idx[i] + 1
  {
    seq(|idx|, i requires 0 <= i < |idx| => idx[i] + 1)
  }

  /** Positions in the tail of `b` are positions in `b`, one further along;
      the head of `b` may be put in front. */
  lemma EmbedsInTail<T>(a: seq<T>, b: seq<T>, idx: seq<nat>)
    requires b != [] && Embeds(a, b[1..], idx)
    ensures Embeds(a, b, Shift(idx))
    ensures Embeds([b[0]] + a, b, [0] + Shift(idx))
  {
  }

  /** The catalog positions the filter keeps. */
  lemma {:induction false} MatchingPositions(resorts: seq<Resort>, searchText: string) returns (idx: seq<nat>)
    ensures Embeds(MatchingResorts(resorts, searchText), resorts, idx)
    decreases |resorts|
  {
    if resorts == [] {
      idx := [];
    } else {
      var tail := MatchingPositions(resorts[1..], searchText);
      EmbedsInTail(MatchingResorts(resorts[1..], searchText), resorts, tail);
      if CaseInsensitiveContains(resorts[0].name, searchText) {
        idx := [0] + Shift(tail);
      } else {
        idx := Shift(tail);
      }
    }
  }

  /** The filter never reorders: its result is a subsequence of the catalog. */
  lemma FilteredIsSubsequence(resorts: seq<Resort>, searchText: string)
    ensures IsSubsequence(Filtered(resorts, searchText), resorts)
  {
    if searchText == [] {
      var idx := seq(|resorts|, i requires 0 <= i < |resorts| => i);
      assert Embeds(resorts, resorts, idx);
    } else {
      var idx := MatchingPositions(resorts, searchText);
    }
  }

  /** Foundation's test finds nothing for an empty needle, so without the
      `isEmpty` branch an empty search would show no resort at all. */
  lemma {:induction false} EmptySearchNeedsGuard(resorts: seq<Resort>)
    ensures MatchingResorts(resorts, []) == []
    ensures Filtered(resorts, []) == resorts
    decreases |resorts|
  {
    if resorts != [] {
      EmptySearchNeedsGuard(resorts[1..]);
    }
  }

  // ---- The whole derivation ----

  /** With no search text and the default order the list is the catalog, as loaded. */
  lemma EmptySearchDefaultOrderIsCatalog(resorts: seq<Resort>)
    ensures FilteredResorts(resorts, [], DefaultOrder) == resorts
  {
  }

  /** With search text, the list holds exactly the catalog resorts whose name
      contains it, ignoring case, each as many times as in the catalog. */
  lemma SearchSelectsMatchingNames(resorts: seq<Resort>, searchText: string, sortOrder: SortOrder, x: Resort)
    requires searchText != []
    ensures x in FilteredResorts(resorts, searchText, sortOrder) <==>
      x in resorts && CaseInsensitiveContains(x.name, searchText)
    ensures multiset(FilteredResorts(resorts, searchText, sortOrder))[x] ==
      if CaseInsensitiveContains(x.name, searchText) then multiset(resorts)[x] else 0
  {
    FilteredMultiplicity(resorts, searchText, x);
  }

  /** Searching for a resort's full name, spelt in any mix of upper and lower
      case, lists that resort. */
  lemma SearchByNameFindsResort(resorts: seq<Resort>, x: Resort, searchText: string, sortOrder: SortOrder)
    requires x in resorts && Fold(searchText) == Fold(x.name)
    ensures x in FilteredResorts(resorts, searchText, sortOrder)
  {
    if x.name == [] {
      assert |searchText| == |Fold(searchText)| == 0;
    } else {
      FindsItself(x.name);
      CaseInsensitiveIgnoresCase(x.name, searchText);
      CaseInsensitiveIgnoresCase(x.name, x.name);
      assert searchText != [];
    }
  }

  /** The sort order decides the order of the list and never its contents. */
  lemma SortOrderOnlyReorders(resorts: seq<Resort>, searchText: string, o1: SortOrder, o2: SortOrder)
    ensures multiset(FilteredResorts(resorts, searchText, o1)) == multiset(FilteredResorts(resorts, searchText, o2))
    ensures |FilteredResorts(resorts, searchText, o1)| == |FilteredResorts(resorts, searchText, o2)|
  {
    var a := FilteredResorts(resorts, searchText, o1);
    var b := FilteredResorts(resorts, searchText, o2);
    assert |a| == |multiset(a)| == |multiset(b)| == |b|;
  }

  /** Resorts with the same name (under name order) or the same country (under
      country order) keep their catalog order. This is a property of the
      model's insertion sort. */
  lemma SortedListIsStable(resorts: seq<Resort>, searchText: string, k: string)
    ensures WithKey(FilteredResorts(resorts, searchText, NameOrder), NameOf, k) ==
      WithKey(Filtered(resorts, searchText), NameOf, k)
    ensures WithKey(FilteredResorts(resorts, searchText, CountryOrder), CountryOf, k) ==
      WithKey(Filtered(resorts, searchText), CountryOf, k)
  {
    SortByStable(Filtered(resorts, searchText), NameOf, k);
    SortByStable(Filtered(resorts, searchText), CountryOf, k);
  }

  // ---- A worked example ----

  const ValThorens := Resort("Val Thorens", "France")
  const Chamonix := Resort("Chamonix", "France")
  const Solden := Resort("S\U{f6}lden", "Austria")

  lemma ExampleNameSort()
    ensures SortBy([Chamonix, Solden], NameOf) == [Chamonix, Solden]
  {
    assert [Chamonix, Solden][1..] == [Solden];
    assert Less(Chamonix.name, Solden.name);
    assert SortBy([Solden], NameOf) == [Solden];
  }

  lemma ExampleNameInsert()
    ensures Insert(ValThorens, [Chamonix, Solden], NameOf) == [Chamonix, Solden, ValThorens]
  {
    assert [Chamonix, Solden][1..] == [Solden];
    assert Less(Chamonix.name, ValThorens.name) && !LessEq(ValThorens.name, Chamonix.name);
    assert Less(Solden.name, ValThorens.name) && !LessEq(ValThorens.name, Solden.name);
    assert Insert(ValThorens, [Solden], NameOf) == [Solden, ValThorens];
  }

  /** Sorting by name puts Chamonix first. */
  lemma ThreeResortsByName()
    ensures FilteredResorts([ValThorens, Chamonix, Solden], [], NameOrder) == [Chamonix, Solden, ValThorens]
  {
    assert [ValThorens, Chamonix, Solden][1..] == [Chamonix, Solden];
    ExampleNameSort();
    ExampleNameInsert();
  }

  lemma ExampleCountrySort()
    ensures SortBy([Chamonix, Solden], CountryOf) == [Solden, Chamonix]
  {
    assert [Chamonix, Solden][1..] == [Solden];
    assert Less(Solden.country, Chamonix.country);
    assert SortBy([Solden], CountryOf) == [Solden];
  }

  lemma ExampleCountryInsert()
    ensures Insert(ValThorens, [Solden, Chamonix], CountryOf) == [Solden, ValThorens, Chamonix]
  {
    assert [Solden, Chamonix][1..] == [Chamonix];
    assert Less(Solden.country, ValThorens.country);
    LessIrreflexive(Chamonix.country);
    assert Insert(ValThorens, [Chamonix], CountryOf) == [ValThorens, Chamonix];
  }

  /** Sorting by country puts the Austrian resort first and keeps the two
      French ones in catalog order. */
  lemma ThreeResortsByCountry()
    ensures FilteredResorts([ValThorens, Chamonix, Solden], [], CountryOrder) == [Solden, ValThorens, Chamonix]
  {
    assert [ValThorens, Chamonix, Solden][1..] == [Chamonix, Solden];
    ExampleCountrySort();
    ExampleCountryInsert();
  }

  lemma ExampleSearchChamonix()
    ensures CaseInsensitiveContains(Chamonix.name, "cham")
  {
    assert Fold("cham") == "cham";
    assert Fold(Chamonix.name) == "chamonix";
    assert "cham" <= "chamonix";
  }

  lemma ExampleSearchValThorens()
    ensures !CaseInsensitiveContains(ValThorens.name, "cham")
  {
    assert Fold("cham")[0] == 'c';
    assert forall i :: 0 <= i < |ValThorens.name| ==> Fold(ValThorens.name)[i] != 'c';
    MissingFirstCharNotContained(Fold(ValThorens.name), Fold("cham"));
  }

  lemma ExampleSearchSolden()
    ensures !CaseInsensitiveContains(Solden.name, "cham")
  {
    assert Fold("cham")[0] == 'c';
    assert forall i :: 0 <= i < |Solden.name| ==> Fold(Solden.name)[i] != 'c';
    MissingFirstCharNotContained(Fold(Solden.name), Fold("cham"));
  }

  /** Searching for "cham" finds Chamonix alone, whatever the sort order. */
  lemma ThreeResortsSearch(sortOrder: SortOrder)
    ensures FilteredResorts([ValThorens, Chamonix, Solden], "cham", sortOrder) == [Chamonix]
  {
    var catalog := [ValThorens, Chamonix, Solden];
    assert catalog[1..] == [Chamonix, Solden] && catalog[1..][1..] == [Solden];
    ExampleSearchChamonix();
    ExampleSearchValThorens();
    ExampleSearchSolden();
    assert MatchingResorts([Solden], "cham") == [];
    assert MatchingResorts([Chamonix, Solden], "cham") == [Chamonix];
    assert MatchingResorts(catalog, "cham") == [Chamonix];
    assert SortBy([Chamonix], NameOf) == [Chamonix];
    assert SortBy([Chamonix], CountryOf) == [Chamonix];
  }
}
