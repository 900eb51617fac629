# Catalog loader of the Zetacatene digital catalog, in Dafny

This project models `CSVDataLoader`, the in-browser catalog store of the
Zetacatene product catalog (`js/data-loader.js`), and proves what it
promises:

- loading turns every parsed CSV row into a product that keeps the raw row and
  gains a normalised record (`normalizzato`). Text fields have the Unicode
  combining marks U+0300..U+036F removed and are trimmed. The category is also
  lower-cased. The image path is built from `CODICE_REACTO`;
- a row whose product code normalises to the empty string gets the code
  `NO-CODE-<n>` and the flag `senzaCodice`, where `<n>` is its 1-based row
  number. No two such codes coincide;
- the category index is exactly the set of non-empty normalised categories;
- the category lookup returns, in store order, the products whose cleaned
  category equals the cleaned query, contains it, or is contained in it;
- the filter value lists are sorted, duplicate-free, and hold exactly the
  non-empty values of their field.

Three modules:

- `Text` holds the JavaScript string primitives the loader uses:
  - the `\s` class, which is also what `trim()` removes;
  - removing combining marks;
  - `trim`, `toLowerCase` and `includes`;
  - the decimal numeral that a template literal writes for a number.
- `Ordering` holds the order in which `Array.prototype.sort` without a
  comparator puts strings, a sort specified by that order, and the fact that a
  duplicate-free list has exactly one sorted arrangement.
- `DataLoader` holds the records, `normalizzaProdotto`, the fallback code, and
  the class `CSVDataLoader`:
  - it has the fields `prodotti` (a sequence) and `categorie` (a set);
  - `caricaCSV`, `estraiCategorie` and `getValoriUnici` are methods that update
    the fields or loop over them;
  - `getProdottiPerCategoria` is a function of the store.

Loading from the network and parsing the CSV are not modelled. `CaricaCSV`
takes their outcome as a parameter: either a failure, or the parsed rows, each
a map from column header to cell text.

When loading fails, the code returns `[]` and changes nothing in the store:
the `catch` branch only logs and returns. A store that was loaded before keeps
its products and categories.

## Model

| member | source | states |
|---|---|---|
| `Text.StripMarks` | js/data-loader.js:57 | the result has no combining mark U+0300..U+036F, is no longer than the input, and a character occurs in it exactly when it is a non-mark character of the input |
| `Text.StripMarksKeepsOthers` | js/data-loader.js:57 | the result is a subsequence of the input (order kept) holding every non-mark character exactly as often as the input does and no mark |
| `Text.StripMarksNoop` | js/data-loader.js:57 | removing marks from text without marks changes nothing |
| `Text.IsCombiningMark` | js/data-loader.js:57 | the characters the replace with `[\u0300-\u036f]` removes: exactly the code points U+0300..U+036F of the Combining Diacritical Marks block |
| `Text.Trim` | js/data-loader.js:58-59 | the trimmed text has no whitespace (BOM included) at either end and is no longer than the input |
| `Text.TrimIsInfix` | js/data-loader.js:58-59 | the trimmed text occurs in the input at the returned offset, with only whitespace before and after it: trimming removes whitespace and nothing else |
| `Text.TrimKeepsCharacters` | js/data-loader.js:58-59 | every character of the trimmed text occurs in the input |
| `Text.TrimKeepsNoMarks` | js/data-loader.js:57-59 | trimming text without marks leaves none |
| `Text.TrimBlank` | js/data-loader.js:96 | a text made only of whitespace trims to "" |
| `Text.TrimNoop` | js/data-loader.js:58-59 | trimming text without edge whitespace changes nothing, so the final `trim()` after the regular-expression replace is a no-op |
| `Text.IsSpace` | js/data-loader.js:58-59 | the characters `\s` matches and `trim()` removes: JavaScript's WhiteSpace and LineTerminator, the BOM U+FEFF included |
| `Text.IsUpper` | js/data-loader.js:64 | the characters the modelled `toLowerCase` changes: A..Z and the Latin-1 capitals U+00C0..U+00DE other than the multiplication sign U+00D7 |
| `Text.LowerChar` | js/data-loader.js:64 | a capital becomes a small letter whose capital is the input; any other character is unchanged; whitespace and marks stay what they are |
| `Text.ToLowerCase` | js/data-loader.js:64 | same length; at each position a capital becomes its own small letter (the small letter whose capital it is) and every other character is kept |
| `Text.CaseVariantLowersAlike` | js/data-loader.js:64 | a letter and its capital lower to the same character, and neither is whitespace or a mark |
| `Text.ToLowerCaseIgnoresCase` | js/data-loader.js:64 | texts that differ only in the case of their letters lower-case to the same text |
| `Text.StripMarksKeepsCaseVariants` | js/data-loader.js:57 | removing marks from texts that differ only in case gives texts that differ only in case |
| `Text.TrimKeepsCaseVariants` | js/data-loader.js:58-59 | trimming texts that differ only in case gives texts that differ only in case |
| `Text.ToLowerCaseNoop` | js/data-loader.js:104 | lower-casing text without upper-case letters changes nothing |
| `Text.Includes` | js/data-loader.js:108-109 | `s.includes(sub)`: `sub` is a prefix of `s` or of one of its suffixes |
| `Text.IncludesIff` | js/data-loader.js:108-109 | `includes` holds exactly when the query is the slice of the text at some offset |
| `Text.IncludesEmpty` | js/data-loader.js:108-109 | every text includes "" |
| `Text.DecimalString` | js/data-loader.js:29 | the numeral is non-empty, all decimal digits, and has no leading zero unless the number is 0 |
| `Text.NumeralRoundTrip` | js/data-loader.js:29 | the numeral written for `n` denotes `n`, read back digit by digit |
| `Text.DecimalStringInjective` | js/data-loader.js:29 | different numbers give different numerals |
| `Ordering.Below` | js/data-loader.js:125 | the order of the default `sort()`: at the first position where two strings differ the smaller character comes first, and a proper prefix comes before the longer string |
| `Ordering.BelowIrreflexive` | js/data-loader.js:125 | no string sorts before itself |
| `Ordering.BelowTransitive` | js/data-loader.js:125 | the default sort order is transitive |
| `Ordering.BelowTotal` | js/data-loader.js:125 | of two different strings, one sorts before the other |
| `Ordering.BelowAsymmetric` | js/data-loader.js:125 | if a sorts before b, b does not sort before a |
| `Ordering.Insert` | js/data-loader.js:125 | inserting into a sorted list gives a sorted list with the same strings plus the new one |
| `Ordering.Sort` | js/data-loader.js:125 | the result is in ascending order and is a permutation of the input |
| `Ordering.SortDistinct` | js/data-loader.js:120-125 | sorting a duplicate-free list gives a strictly ascending list with the same elements |
| `Ordering.StrictlySortedUnique` | js/data-loader.js:125 | two strictly ascending lists with the same elements are equal, so the outcome does not depend on the sort algorithm |
| `DataLoader.Normalizza` | js/data-loader.js:53-59 | the normalised text has no combining marks, no whitespace at its ends, and only characters of the input |
| `DataLoader.NormalizzaFixesClean` | js/data-loader.js:53-59 | text without marks and without edge whitespace is left unchanged |
| `DataLoader.NormalizzaIdempotent` | js/data-loader.js:53-59 | normalising twice gives the same as normalising once |
| `DataLoader.NormalizzaIsInfix` | js/data-loader.js:53-59 | after the marks are removed, `normalizza` removes only whitespace at the two ends: its result occurs in the mark-free text at the returned offset with nothing but whitespace around it |
| `DataLoader.NormalizzaCategoria` | js/data-loader.js:64 | a normalised category has no marks, no edge whitespace and no upper-case letter |
| `DataLoader.Pulisci` | js/data-loader.js:93-97 | a cleaned query or category has no marks, no edge whitespace and no upper-case letter |
| `DataLoader.PulisciIsCategoryRule` | js/data-loader.js:93-97 | cleaning a query gives the same as normalising it as a category |
| `DataLoader.PulisciIgnoresCase` | js/data-loader.js:93-104 | a query or category that differs from another only in case cleans to the same text |
| `DataLoader.PulisciFixesCategory` | js/data-loader.js:100-104 | cleaning a stored (normalised) category gives it back unchanged |
| `DataLoader.Cell` | js/data-loader.js:54-60 | the cell under the key, with "" for a missing column, as the fallback to "" of lines 54 and 60 gives |
| `DataLoader.Column` | js/data-loader.js:60-72 | the CSV header each field is read from: `Categoria`, `ASPETTO`, `Filo`, `Materiale`, `Interno Filo`, `Dim Filo`, `Peso (g)`, `Descrizione`, `Codice prodotto`, and `CODICE_REACTO` for the image path |
| `DataLoader.ImagePath` | js/data-loader.js:73-75 | `img/prodotti/<code>.jpg` for a non-empty trimmed reacto code, `img/placeholder.jpg` otherwise |
| `DataLoader.ImagePathRoundTrip` | js/data-loader.js:73-75 | the image path built from a reacto code gives that code back; the placeholder gives none |
| `DataLoader.NormalizzaProdotto` | js/data-loader.js:60-76 | the image path is built from the trimmed `CODICE_REACTO`, and a freshly normalised product is not flagged as lacking a code |
| `DataLoader.NormalizzaProdottoField` | js/data-loader.js:63-72 | each text field is its own column normalised, with no marks and no edge whitespace; the category is also lower-cased |
| `DataLoader.ImagePathOfRow` | js/data-loader.js:60-75 | the image path is the placeholder exactly when the trimmed `CODICE_REACTO` is empty, and otherwise names that code |
| `DataLoader.FallbackCode` | js/data-loader.js:29 | the fallback code starts with `NO-CODE-` and has at least one more character |
| `DataLoader.FallbackCodeNumber` | js/data-loader.js:29 | a fallback code is `NO-CODE-` followed by a numeral denoting the row's 1-based position `idx + 1` |
| `DataLoader.FallbackCodeInjective` | js/data-loader.js:29 | different row indices give different fallback codes |
| `DataLoader.LoadedProduct` | js/data-loader.js:23-37 | a loaded product keeps its raw row and has a non-empty code. It is flagged `senzaCodice` exactly when its normalised code is "", and then carries `NO-CODE-<idx+1>`. Every other field is the normalised row's |
| `DataLoader.FallbackCodesDistinct` | js/data-loader.js:27-31 | two different rows of one load never get the same fallback code |
| `DataLoader.RealCodeMayMatchFallback` | js/data-loader.js:27-31 | a row whose own code is `NO-CODE-2` ends up with the same code as a code-less second row, so codes are not unique across a load |
| `DataLoader.Value` | js/data-loader.js:122 | `p.normalizzato[campo]` for each of the ten text fields of the normalised record |
| `DataLoader.ValueSet` | js/data-loader.js:119-124 | the set of collected values never contains "" |
| `DataLoader.ValueSetIff` | js/data-loader.js:119-124 | a string is collected exactly when it is non-empty and is the field's value in some product |
| `DataLoader.CategoryMatches` | js/data-loader.js:100-110 | the filter callback: the cleaned category equals the cleaned query, includes it, or is included in it |
| `DataLoader.FilterByCategory` | js/data-loader.js:99-111 | the result is a subsequence of the products, and each product occurs in it as often as in the store if its category matches, and otherwise not at all |
| `DataLoader.BlankQueryMatchesAll` | js/data-loader.js:91-111 | a non-empty query made only of whitespace cleans to "" and selects every product |
| `DataLoader.AllMatchEmptyQuery` | js/data-loader.js:106-110 | the cleaned query "" matches every product |
| `DataLoader.EmptyCategoryMatchesAll` | js/data-loader.js:100-110 | a product whose category is "" is returned for every cleaned query |
| `DataLoader.CSVDataLoader.constructor` | js/data-loader.js:3-6 | a new store is empty and its invariant holds |
| `DataLoader.CSVDataLoader.CaricaCSV` | js/data-loader.js:8-49 | on failure returns [] and leaves the store unchanged. Otherwise it stores the loaded products, one per row in row order, returns them, and re-establishes the invariant that the category index matches the products |
| `DataLoader.CSVDataLoader.MappaRighe` | js/data-loader.js:23-37 | one product per row, same length and order, each being its row loaded at its index |
| `DataLoader.CSVDataLoader.MappaRiga` | js/data-loader.js:23-36 | the callback's result is the row loaded at its index |
| `DataLoader.CSVDataLoader.EstraiCategorie` | js/data-loader.js:80-85 | the category index becomes exactly the set of non-empty normalised categories; the products are unchanged |
| `DataLoader.CSVDataLoader.GetProdottiPerCategoria` | js/data-loader.js:90-116 | "" gives []. Any other query gives a subsequence of the store holding each product exactly as often as the store does if its cleaned category equals, contains or is contained in the cleaned query, and otherwise not at all |
| `DataLoader.CSVDataLoader.GetValoriUnici` | js/data-loader.js:119-126 | the result is strictly ascending (sorted, no duplicates) and its elements are exactly the field's non-empty values |
| `DataLoader.CSVDataLoader.GetAspettiUnici` | js/data-loader.js:128 | sorted distinct non-empty `aspetto` values |
| `DataLoader.CSVDataLoader.GetFiliUnici` | js/data-loader.js:129 | sorted distinct non-empty `filo` values |
| `DataLoader.CSVDataLoader.GetMaterialiUnici` | js/data-loader.js:130 | sorted distinct non-empty `materiale` values |
| `DataLoader.CSVDataLoader.GetInterniFiloUnici` | js/data-loader.js:131 | sorted distinct non-empty `internoFilo` values |
| `DataLoader.CSVDataLoader.GetSpessoriUnici` | js/data-loader.js:132 | sorted distinct non-empty `spessore` values |
| `DataLoader.CSVDataLoader.GetPesiUnici` | js/data-loader.js:133 | sorted distinct non-empty `peso` values |
| `DataLoader.LookupIgnoresCase` | js/data-loader.js:89-116 | two queries that differ only in case select the same products from any store |
| `DataLoader.LoadedStoreFacts` | js/data-loader.js:23-39 | in a loaded store every product has a non-empty code, fallback codes are pairwise distinct, and every stored category is already in the cleaned form the lookup compares |

## Left out

- `fetch`, `response.ok`, `response.text()` and `Papa.parse` are not modelled. Their combined outcome is the `FetchOutcome` parameter of `CaricaCSV`. How the parser splits the text into rows (header, quoting, skipped blank lines) is not part of this model.
- The `console.log` and `console.error` calls are left out: they have no effect on the store or on results.
- `normalize("NFD")` is not modelled, because Dafny has no Unicode decomposition tables. The model takes text as already decomposed. A precomposed accented letter such as U+00E0 is kept as it is, whereas the source decomposes it and drops the accent.
- `toLowerCase` is modelled only for A..Z and the Latin-1 capitals U+00C0..U+00DE other than U+00D7. Capitals outside A..Z and Latin-1 are not covered, neither in Latin Extended (such as U+0141, U+0110, U+0152) nor in other scripts.
- Strings are sequences of code points, whereas JavaScript strings are UTF-16 code units. The two agree on text within the Basic Multilingual Plane. For characters outside it, `includes` and the sort order are not modelled.
- `.toString()` and `(v || "")` on non-string cells: with `dynamicTyping: false` every cell is a string, and a missing column reads as "".
- The object spread `{...p, normalizzato: norm}` is modelled as a pair of the raw row and the normalised record. A CSV column literally named `normalizzato` would be overwritten in the source; that case is not modelled.
- `DataLoader.CSVDataLoader.GetValoriUnici` takes one of the ten string fields of the normalised record. Other keys are left out: the key `senzaCodice`, which yields `[true]` when some product lacks a code, and keys that are not properties of the record, which yield `[]`; keys inherited by every object, such as `toString`, yield a one-element list.
- `Array.prototype.sort` is stood in for by an insertion sort over the same order. `Ordering.StrictlySortedUnique` shows that for duplicate-free input every correct sort gives the same result.
- Aliasing: `caricaCSV` returns the store's own array, and `getProdottiPerCategoria` returns the store's own product objects. A caller that edits them in place changes the store. The model returns values, so that sharing is not modelled.
- Non-string queries: a truthy query that is not a string makes `getProdottiPerCategoria` throw when it calls `normalize`. The model's query is a string, so that error path is not modelled.
- `this.categorie` is a JavaScript `Set`, which iterates in the order each category first appears in `prodotti`. The model's index is a `set<string>`, which has no order. The order that the page reading `categorie` sees is not modelled.
- Uniqueness of codes: the fallback code is meant to give each product something unique to use in the page. Fallback codes are distinct from one another (`DataLoader.FallbackCodesDistinct`). A code supplied by the CSV can still equal another row's fallback code, as `DataLoader.RealCodeMayMatchFallback` shows. Codes supplied by the CSV may also repeat. The model keeps the source's behaviour and claims no uniqueness beyond that.
- Concurrency: two overlapping asynchronous calls to `caricaCSV` are not modelled.
