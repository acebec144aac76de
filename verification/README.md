# Grocery search, modelled in Dafny

This project models the search of the grocery list screen of a small React
Native shopping demo. The screen holds a fixed catalog of ten product names and
a search text typed by the user. It shows every catalog name whose lower-cased
form includes the lower-cased search text, in catalog order.

The model has three modules:

- `Text` (`Text.dfy`): lower-casing of characters and strings (`toLowerCase`,
  ASCII letters only), the declarative substring relation `Contains` ("there is
  an index `i` with `sub == s[i..i+|sub|]`"), and the scan `Includes` that
  models `String.prototype.includes`. The contract of `Includes` states that
  the scan and the relation agree on every input.
- `Filtering` (`Filtering.dfy`): `Array.prototype.filter` with a pure callback,
  defined by recursion over the sequence, with its general laws: exact
  membership, order (subsequence), concatenation, keep-all and keep-none,
  idempotence, agreement of callbacks, monotonicity and absence of duplicates.
- `GroceryList` (`GroceryList.dfy`): the catalog constant, the filter callback,
  `FilteredGroceries` (the list shown for a search text), the properties of the
  search, and worked examples over the real catalog.

The search text is a plain parameter. In the application it is React state set
on every keystroke.

## Model

| member | source | states |
|---|---|---|
| `Text.ToLowerChar` | components/GroceryList.tsx:27 | the result is never an ASCII capital; a capital maps to the small letter at the same alphabet position; any other character is unchanged |
| `Text.ToLower` | components/GroceryList.tsx:27 | the lower-cased string has the same length and holds at each position the lower-case form of the input's character there (so each capital becomes its own small letter); it holds no ASCII capital and keeps every non-capital character in place |
| `Text.ToLowerIdempotent` | components/GroceryList.tsx:27 | lower-casing twice equals lower-casing once |
| `Text.ToLowerSlice` | components/GroceryList.tsx:27 | lower-casing commutes with taking a slice |
| `Text.ToLowerPreservesContains` | components/GroceryList.tsx:27 | if `sub` is a substring of `s`, the lower-cased `sub` is a substring of the lower-cased `s` |
| `Text.MatchesAt` | components/GroceryList.tsx:27 | the character-by-character comparison inside `includes` succeeds exactly when the rest of `sub` lines up with `s` at the given offset |
| `Text.IncludesFrom` | components/GroceryList.tsx:27 | the scan over start indices from `from` on succeeds exactly when `sub` occurs at some index at or after `from` |
| `Text.Includes` | components/GroceryList.tsx:27 | `s.includes(sub)` holds exactly when `sub` is a substring of `s` (both directions), so the empty search text is included in every name |
| `Text.EmptyContained` | components/GroceryList.tsx:27 | the empty string is a substring of every string |
| `Text.ContainsTransitive` | components/GroceryList.tsx:27 | a substring of a substring of `s` is a substring of `s` |
| `Filtering.Filter` | components/GroceryList.tsx:26-28 | the filtered list is never longer than its input |
| `Filtering.FilterMembers` | components/GroceryList.tsx:26-28 | an element is in the result exactly when it is in the input and the callback accepts it |
| `Filtering.FilterCount` | components/GroceryList.tsx:26-28 | each accepted element occurs in the result exactly as often as in the input, and a rejected one not at all (the result is the input's multiset restricted to accepted elements) |
| `Filtering.FilterSubsequence` | components/GroceryList.tsx:26-28 | the result is a subsequence of the input: input order is kept |
| `Filtering.FilterConcat` | components/GroceryList.tsx:26-28 | filtering `a + b` gives the filtered `a` followed by the filtered `b` |
| `Filtering.FilterKeepsAll` | components/GroceryList.tsx:26-28 | if the callback accepts every element, the result is the input unchanged |
| `Filtering.FilterKeepsNone` | components/GroceryList.tsx:26-28 | if the callback rejects every element, the result is empty |
| `Filtering.FilterIdempotent` | components/GroceryList.tsx:26-28 | filtering a filtered list again with the same callback changes nothing |
| `Filtering.FilterAgree` | components/GroceryList.tsx:26-28 | two callbacks that agree on every element give the same result |
| `Filtering.FilterMonotone` | components/GroceryList.tsx:26-28 | a callback that accepts less keeps a subsequence of what a callback that accepts more keeps |
| `Filtering.FilterDistinct` | components/GroceryList.tsx:26-28 | filtering an input without duplicates gives a result without duplicates |
| `GroceryList.Matches` | components/GroceryList.tsx:27 | `item.toLowerCase().includes(search.toLowerCase())` holds exactly when the lower-cased name contains the lower-cased search text |
| `GroceryList.MatchesSearch` | components/GroceryList.tsx:26-28 | the callback passed to `filter` accepts a name exactly when its lower-cased form contains the lower-cased search text |
| `GroceryList.FilteredGroceries` | components/GroceryList.tsx:26-28 | soundness and completeness: a name is shown exactly when it is in the catalog and its lower-cased form contains the lower-cased search text; the list is a subsequence of the catalog, so in catalog order and at most as long; no name is shown twice |
| `GroceryList.CatalogDistinct` | components/GroceryList.tsx:13-24 | the ten catalog names are pairwise distinct, as the list's key extractor (line 46) needs |
| `GroceryList.EmptySearchShowsAll` | components/GroceryList.tsx:26-28 | with the initial empty search text (line 11) the whole catalog is shown, unchanged |
| `GroceryList.SearchIdempotent` | components/GroceryList.tsx:26-28 | filtering the shown list again with the same search text returns the same list |
| `GroceryList.SearchCaseInsensitive` | components/GroceryList.tsx:27 | two search texts with the same lower-cased form show the same list |
| `GroceryList.SearchNarrows` | components/GroceryList.tsx:26-27 | if the lower-cased search text `longer` contains the lower-cased `shorter`, whatever case either was typed in, the list for `longer` is a subsequence of the list for `shorter` |
| `GroceryList.SearchExtends` | components/GroceryList.tsx:26-27 | typing more characters onto a search text (`longer` contains `shorter` as typed) only narrows the list |
| `GroceryList.MilkSearchApplesToCarrots` | components/GroceryList.tsx:13-27 | none of "Apples", "Bananas" and "Carrots" matches the search "MILK" |
| `GroceryList.MilkSearchFindsMilk` | components/GroceryList.tsx:13-27 | "Milk" matches the search "MILK", whose case differs |
| `GroceryList.MilkSearchEggsToCheese` | components/GroceryList.tsx:13-27 | none of "Eggs", "Bread" and "Cheese" matches the search "MILK" |
| `GroceryList.MilkSearchRiceToTomatoes` | components/GroceryList.tsx:13-27 | none of "Rice", "Potatoes" and "Tomatoes" matches the search "MILK" |
| `GroceryList.MilkExample` | components/GroceryList.tsx:13-28 | the search "MILK" shows exactly ["Milk"] |
| `GroceryList.LowerCaseMilkExample` | components/GroceryList.tsx:13-28 | the search "milk" also shows exactly ["Milk"] |
| `GroceryList.ToesSearchApplesToMilk` | components/GroceryList.tsx:13-27 | none of "Apples", "Bananas", "Carrots" and "Milk" matches the search "toes" |
| `GroceryList.ToesSearchEggsToRice` | components/GroceryList.tsx:13-27 | none of "Eggs", "Bread", "Cheese" and "Rice" matches the search "toes" |
| `GroceryList.ToesSearchPotatoesTomatoes` | components/GroceryList.tsx:13-27 | both "Potatoes" and "Tomatoes" match the search "toes" |
| `GroceryList.ToesExample` | components/GroceryList.tsx:13-28 | the search "toes" shows ["Potatoes", "Tomatoes"], in catalog order |

## Left out

- Text.ToLowerChar: maps only the ASCII capitals A to Z. JavaScript's `toLowerCase` applies full Unicode case mapping (for example "Ä" to "ä", and some characters to two), which depends on the host's Unicode tables. A visible effect on this catalog: the search text "MILK" typed with the Kelvin sign U+212A as its last letter shows ["Milk"] in the application, because JavaScript lower-cases U+212A to "k", while the model leaves U+212A unchanged and shows nothing.
- String encoding: characters are Unicode scalar values, while JavaScript strings are sequences of UTF-16 code units. The two agree on the catalog and on any search text without characters outside the Basic Multilingual Plane.
- The React rendering of `components/GroceryList.tsx` (lines 30-71): the header, the `TextInput`, the `FlatList` of rows with their add buttons, and the cart footer that shows "Cart is empty." or the bulleted cart items. This is presentation only.
- The `useState` hook and the `setSearch` wiring (lines 11 and 39). The search text is a parameter of `FilteredGroceries` instead.
- All `StyleSheet` objects. They are styling only.
- `components/AddToCartButton.tsx`. It only passes its item to the `onAddToCart` callback on press and has no logic of its own.
- The cart. `GroceryList.tsx` receives it as a read-only list of names and only displays it. It is appended to in `app/(tabs)/index.tsx`, which is not part of this model.
- The student record screen in `CRUD-App/app/(tabs)/index.tsx` (adding, editing and deleting records, assigning roll numbers). It is not part of this model.
- Product ids, prices, cart totals and removing items from the cart. The grocery code has none of these: its catalog is a list of plain names.
