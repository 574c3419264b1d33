# SnowSeeker resort list, modelled in Dafny

SnowSeeker is a small SwiftUI app that lists ski resorts. Its main screen
(`ContentView`) holds a catalog of resorts loaded once at start-up, a search
text typed by the user and a sort order chosen from a toolbar menu. The list
it shows, `filteredResorts`, is derived from these three inputs in two stages:

- **Filter.** An empty search text keeps every resort. Any other text keeps the
  resorts whose name contains the text, ignoring case
  (`localizedCaseInsensitiveContains`).
- **Order.** `defaultOrder` leaves the kept resorts in catalog order.
  `nameOrder` and `countryOrder` sort them ascending by `name` or by `country`
  with Swift's `String <`.

The model is three modules of pure functions and lemmas, as the Swift code is a
computed property with no loops and no state of its own:

- `Text` (`text.dfy`) models the two string operations. Case-insensitive
  containment is ASCII case folding followed by a recursive substring test.
  `<` is lexicographic order on characters, with a proper prefix first. The
  lemmas prove the substring test equal to "occurs at some position", prove
  `<` equal to "proper prefix, or smaller at the first difference", and prove
  that `<` is a strict total order.
- `Sorting` (`sorting.dfy`) models `sorted { key($0) < key($1) }` as an
  insertion sort by a string key. It proves the result is a permutation of the
  input, is non-decreasing by the key, and is stable.
- `ContentView` (`content_view.dfy`) holds the filter and `FilteredResorts`
  itself, with two datatypes. `Resort` keeps the two fields the list reads,
  `name` and `country`. `SortOrder` has the three cases of the Swift enum at
  ContentView.swift:21-25: `DefaultOrder`, `NameOrder` and `CountryOrder`.
  Its lemmas state what the list contains, that the filter keeps catalog order,
  and that the sort order changes only the order. It ends with a worked
  example on three resorts.

The catalog, the search text and the sort order are parameters. In the app
they come from the bundled JSON file and from UI bindings.

## Model

| member | source | states |
|---|---|---|
| `Text.Lower` | SnowSeeker/ContentView.swift:39 | Folding one character never yields a capital letter. It changes only ASCII capitals, each to the letter 32 code points higher. |
| `Text.Fold` | SnowSeeker/ContentView.swift:39 | Folding keeps a string's length and leaves no capital letter in it. Each ASCII capital becomes the letter 32 code points higher, its lower-case form, and every other character is kept. |
| `Text.FoldIdempotent` | SnowSeeker/ContentView.swift:39 | Folding a folded string changes nothing. |
| `Text.Contains` | SnowSeeker/ContentView.swift:39 | The exact substring test: the needle is a prefix of the haystack or of one of its suffixes. A needle it finds is never longer than the haystack. `ContainsIffOccurs` characterises it. |
| `Text.ContainsIffOccurs` | SnowSeeker/ContentView.swift:39 | The recursive substring test holds exactly when the needle occurs at some position of the haystack. |
| `Text.MissingFirstCharNotContained` | SnowSeeker/ContentView.swift:39 | A needle whose first character is nowhere in the haystack is not contained in it. |
| `Text.CaseInsensitiveContains` | SnowSeeker/ContentView.swift:39 | The model of `localizedCaseInsensitiveContains`: a non-empty needle whose folded form is in the folded haystack. A match implies a non-empty needle no longer than the haystack. `CaseInsensitiveIffOccurs` characterises it. |
| `Text.CaseInsensitiveIffOccurs` | SnowSeeker/ContentView.swift:39 | The case-insensitive test holds exactly when the needle is non-empty and its folded form occurs at some position of the folded haystack. |
| `Text.ExactMatchIsCaseInsensitive` | SnowSeeker/ContentView.swift:39 | A non-empty exact occurrence is also a case-insensitive match. |
| `Text.FindsItself` | SnowSeeker/ContentView.swift:39 | Every non-empty string contains itself, ignoring case. |
| `Text.CaseInsensitiveIgnoresCase` | SnowSeeker/ContentView.swift:39 | Folding either argument does not change the outcome of the case-insensitive test. |
| `Text.Less` | SnowSeeker/ContentView.swift:46-48 | The model of Swift's `String <`: lexicographic on characters, a proper prefix first. No string is below an equal one. `LessIffFirstDifference` characterises it, and the lemmas below make it a strict total order. |
| `Text.LessEq` | SnowSeeker/ContentView.swift:46-48 | "Not above", the order a list sorted by `<` is non-decreasing in. It holds exactly when the strings are equal or the first is below the second. |
| `Text.NotAboveCases` | SnowSeeker/ContentView.swift:46-48 | `b < a` fails exactly when `a` equals `b` or `a < b`. |
| `Text.ProperPrefixIsLess` | SnowSeeker/ContentView.swift:46 | A proper prefix is below the longer string. |
| `Text.FirstDifferenceIsLess` | SnowSeeker/ContentView.swift:46 | A string with the smaller character at the first difference is below the other. |
| `Text.LessHasWitness` | SnowSeeker/ContentView.swift:46 | If `a < b`, then `a` is a proper prefix of `b` or is smaller at the first difference. |
| `Text.LessIffFirstDifference` | SnowSeeker/ContentView.swift:46 | `a < b` holds exactly when `a` is a proper prefix of `b` or `a` is smaller at the first difference. |
| `Text.LessIrreflexive` | SnowSeeker/ContentView.swift:46 | No string is below itself. |
| `Text.LessTransitive` | SnowSeeker/ContentView.swift:46 | `<` on strings is transitive. |
| `Text.LessConnected` | SnowSeeker/ContentView.swift:46 | Of two different strings, one is below the other. |
| `Text.LessAsymmetric` | SnowSeeker/ContentView.swift:46 | `a < b` rules out `b < a`. |
| `Text.LessEqTransitive` | SnowSeeker/ContentView.swift:46-48 | "Not above" is transitive, so sortedness by it is well defined. |
| `Text.LessEqTotal` | SnowSeeker/ContentView.swift:46-48 | Any two strings are comparable under "not above". |
| `Sorting.SortedBy` | SnowSeeker/ContentView.swift:46-48 | Every pair of elements is in order by the key. It holds exactly when every pair of neighbours is. |
| `Sorting.NeighboursInOrder` | SnowSeeker/ContentView.swift:46-48 | Whenever every pair of neighbours is in order by the key, every pair is. |
| `Sorting.Insert` | SnowSeeker/ContentView.swift:46-48 | Inserting adds exactly one copy of the element: the result's multiset is the input's plus `x`. |
| `Sorting.InsertSorted` | SnowSeeker/ContentView.swift:46-48 | Inserting into a sequence sorted by the key keeps it sorted. |
| `Sorting.SortBy` | SnowSeeker/ContentView.swift:46-48 | The sorted result is a permutation of the input and is non-decreasing by the key. |
| `Sorting.SameElements` | SnowSeeker/ContentView.swift:46-48 | Two permutations of each other have the same length and the same elements. |
| `Sorting.WithKey` | SnowSeeker/ContentView.swift:46-48 | Selecting by key keeps every element with that key and no other, and never lengthens the sequence. `WithKeyAppend` shows it keeps their order. |
| `Sorting.WithKeyAppend` | SnowSeeker/ContentView.swift:46-48 | Selecting by key from a concatenation selects from each part and concatenates the results, so the selection keeps the order of the input. |
| `Sorting.InsertWithKey` | SnowSeeker/ContentView.swift:46-48 | Among the elements that share a key, inserting `x` puts it in front of them, and only when `x` has that key. |
| `Sorting.SortByStable` | SnowSeeker/ContentView.swift:46-48 | Elements with equal keys come out of the sort in their input order. |
| `ContentView.Shown` | SnowSeeker/ContentView.swift:36-39 | Whether a resort passes the search. With an empty search text every resort passes. With any other text, a passing resort's name is at least as long as the text. |
| `ContentView.MatchingResorts` | SnowSeeker/ContentView.swift:39 | The filter's result is no longer than the catalog. Each kept resort comes from the catalog, and its name contains the search text, ignoring case. |
| `ContentView.Filtered` | SnowSeeker/ContentView.swift:34-40 | The first stage is no longer than the catalog, and every resort in it passes the search. |
| `ContentView.FilteredResorts` | SnowSeeker/ContentView.swift:33-51 | The list is no longer than the catalog. It holds exactly the catalog resorts that pass the search, as a permutation of the first stage. The default order keeps catalog order, and the name and country orders are non-decreasing by that field. |
| `ContentView.MatchingMultiplicity` | SnowSeeker/ContentView.swift:39 | The filter keeps every copy of a resort whose name matches and no copy of any other. |
| `ContentView.FilteredMultiplicity` | SnowSeeker/ContentView.swift:36-40 | The first stage keeps every copy of a resort that passes the search, guard included, and no copy of any other. |
| `ContentView.FilteredMembership` | SnowSeeker/ContentView.swift:36-40 | A resort is in the first stage if and only if it is in the catalog and passes the search. |
| `ContentView.EmbedsInTail` | SnowSeeker/ContentView.swift:39 | Positions spelling a sequence in the tail of the catalog, moved one along, spell it in the catalog. With position 0 in front, they spell the catalog's head followed by that sequence. |
| `ContentView.MatchingPositions` | SnowSeeker/ContentView.swift:39 | The filter's result is the catalog at a strictly increasing list of positions. |
| `ContentView.FilteredIsSubsequence` | SnowSeeker/ContentView.swift:36-40 | The first stage is a subsequence of the catalog, so it never reorders resorts. |
| `ContentView.EmptySearchNeedsGuard` | SnowSeeker/ContentView.swift:36-39 | The filter alone would keep no resort for an empty search text, while the guarded first stage keeps the whole catalog. |
| `ContentView.EmptySearchDefaultOrderIsCatalog` | SnowSeeker/ContentView.swift:36-44 | With an empty search text and the default order, the list is the catalog exactly. |
| `ContentView.SearchSelectsMatchingNames` | SnowSeeker/ContentView.swift:38-49 | With a non-empty search text, under any order, a resort is listed if and only if it is in the catalog and its name contains the text, ignoring case. It is listed as many times as it appears in the catalog. |
| `ContentView.SearchByNameFindsResort` | SnowSeeker/ContentView.swift:39 | Searching for a catalog resort's full name lists that resort under any order. The search text may use any mix of upper and lower case. |
| `ContentView.SortOrderOnlyReorders` | SnowSeeker/ContentView.swift:42-49 | For a given search text, all three sort orders list the same multiset of resorts. |
| `ContentView.SortedListIsStable` | SnowSeeker/ContentView.swift:45-48 | Under name or country order, resorts with an equal key keep their relative order from the first stage. |
| `ContentView.ThreeResortsByName` | SnowSeeker/ContentView.swift:45-46 | Val Thorens, Chamonix and Sölden sorted by name come out as Chamonix, Sölden, Val Thorens. |
| `ContentView.ThreeResortsByCountry` | SnowSeeker/ContentView.swift:47-48 | The same catalog sorted by country is Sölden (Austria), then Val Thorens and Chamonix in catalog order. |
| `ContentView.ThreeResortsSearch` | SnowSeeker/ContentView.swift:38-49 | Searching that catalog for "cham" lists Chamonix alone, whatever the order. |

## Left out

- The SwiftUI `body` (ContentView.swift:53-103) is left out: rows, flag images, navigation, the toolbar menu and `.searchable` are presentation only. The menu buttons and the search field only assign the two inputs, which are parameters here.
- `phoneOnlyNavigationView` (ContentView.swift:10-18) is left out. It reads the device idiom and only picks a navigation style.
- Loading the catalog with `Bundle.main.decode("resorts.json")` (ContentView.swift:27) is left out because it is file I/O. The catalog is a parameter `seq<Resort>`. `Bundle.decode` is not part of this model.
- `Favorites` (ContentView.swift:29, 77) is left out. Its type is defined in a file that is not part of this model, so its behaviour cannot be stated from the code.
- `Resort` keeps only `name` and `country`. The other fields are never read by the list logic. The `Resort` type's own definition is not part of this model.
- The `String` raw values of `SortOrder` (ContentView.swift:22-24) are left out because nothing reads them. `SortOrder` is a plain three-case datatype.
- `WelcomeView.swift` is left out: it holds static text only.
- Text.CaseInsensitiveContains: folds ASCII capitals only, compares characters (Unicode scalar values) one by one and ignores the locale, so it differs from `localizedCaseInsensitiveContains` in both directions. The model misses matches that Foundation finds: non-ASCII case pairs such as É and é, and canonically equivalent spellings that differ in their scalars. The two agree only on NFC-normalised text. The model also finds matches that Foundation rejects: under a Turkish or Azeri locale Foundation pairs `I` with `ı` and `İ` with `i`, so "ISTANBUL" does not contain "ist" there, while here it does. For an empty needle it reports no match, as Foundation's range search does. That behaviour is why the `isEmpty` guard at line 36 matters; `EmptySearchNeedsGuard` states it.
- Text.Less: compares characters (Unicode scalar values) lexicographically. Swift's `String <` compares under Unicode canonical equivalence, so the two agree on NFC-normalised strings only.
- Sorting.SortBy: is an insertion sort, not the algorithm of Swift's standard library. Swift documents `sorted(by:)` as stable, and `SortByStable` and `SortedListIsStable` prove the same guarantee for `SortBy`. So the model orders resorts with equal keys as Swift does, though it does not reproduce Swift's sorting steps or their cost.
