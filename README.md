# Allergen check and warning highlighting, modelled in Dafny

This project models the two pieces of real logic in a food-scanner web app.

**The scanner page's client-side allergen check** (`src/app/home/page.js`).
After a product is looked up by barcode, the page does four things:

- It reads the user's saved free-text allergy field and turns it into a list of terms (`parseAllergiesString`, using `normalizeAllergen`).
- It collects allergen tokens from the product record's `allergens`, `allergens_from_user` and `allergens_from_ingredients` fields and from its `allergens_tags` list (`extractProductAllergens` with its recursive `pushTokens`). For a tag such as `"en:milk"` only the text after the last colon is kept.
- It matches terms against tokens (`matchAllergens`). A term and a token match when they are equal or one contains the other.
- It merges the server's warnings with one `"Allergen alert: contains {token}"` per match, dropping any warning whose lower-cased, trimmed form was already seen (`dedupeWarnings`).

**The analysis page's sentence highlighter** (`highlightWarnings` in `src/app/analysis/page.js`). It cuts a text into sentences at runs of `.`, `!` and `?`. It drops blank sentences, trims the others, and flags a sentence when it contains, ignoring case, one of a fixed list of health keywords.

## How the model is built

The code works in three styles, and the model follows each:

- The code that works by mutation is modelled as imperative Dafny: `pushTokens`, the `forEach` loops of `extractProductAllergens` and `matchAllergens`, and the `for` loop of `dedupeWarnings`.
  - The JavaScript `Set` they fill is a class, `InsertionSets.StringSet`. Its state is the list of its elements in insertion order, which is what `Array.from(set)` returns.
  - Each method is proved equal to a specification function: `ProductAllergens`, `MatchedAllergens`, `DedupedWarnings`.
  - The properties are proved as lemmas about those functions.
- `normalizeAllergen`, `parseAllergiesString` and `highlightWarnings` are pure, and are modelled as functions.
- The highlighter is `WarningHighlight.Highlight(text, keywords)`, for any keyword list. `HighlightWarnings` is it with the fixed list `WarningKeywords`, copied in the source's order with its repeated entries. The highlighter's lemmas are stated for every keyword list, so they hold for this one.
- The merge at `src/app/home/page.js:165-171` is the function `AllergenCheck.CombinedWarnings`. Its inputs are the three things the page fetches:
  - the `warnings` field of the analysis response;
  - the saved allergy text;
  - the product record.

Data and JavaScript built-ins are modelled as follows:

- Values from `response.json()` and from the profile store are the JSON datatype `JsValues.Value`.
- `!value` is `Truthy`.
- `String(value)` is `JsString`: arrays are joined with commas, `null` elements become empty, and an object becomes `"[object Object]"`.
- `StringThrows` says when `String(value)` throws a `TypeError`: for an object with its own `toString` field, and for an array holding one at any depth. Such an object can come out of `JSON.parse`, for example `{"toString": 1}`.
- `toLowerCase` is `Lower`, on ASCII letters.
- `trim` is `Trim`, which removes exactly the ECMAScript white-space and line-terminator characters.
- `includes` is `Contains`.
- `split` at a character class is `Split`.
- `split(/[.!?]+/)` is `SplitRuns`. A run of separators ends one piece. A separator at either end gives an empty first or last piece.
- `split(':').pop()` is `LastPiece`.

The code has no tiered matcher (exact word, phrase, edit-distance similarity, regex boundary). It does not drop profile terms that are short, contain digits or are all vowels. Its alerts read `Allergen alert: contains ...`, not `Contains allergen: ...`.

The code at `src/app/home/page.js:245-265` filters only empty terms and matches only by equality or substring. So `"Milk, a, xyz123, Peanuts"` gives the four terms `milk`, `a`, `xyz123` and `peanuts`.

## Model

| member | source | states |
|---|---|---|
| JsValues.Truthy | src/app/home/page.js:184 | the model of `!value`: `null`, `false`, `0` and `""` are falsy; its use is stated in `NormalizeAllergen` and `ParseAllergiesString` |
| JsValues.Get | src/app/home/page.js:209-212 | the model of `obj.key`; a missing field or a non-object reads as `null` |
| JsValues.JsString | src/app/home/page.js:201 | the model of `String(value)` when it does not throw: arrays joined with commas, `null` elements empty, objects `"[object Object]"` |
| JsValues.StringThrows | src/app/home/page.js:185-189 | when `String(value)` throws: an object with its own `toString` field, or an array holding one |
| JsStrings.Trim | src/app/home/page.js:186 | the model of `trim`; its meaning is stated by `TrimSpec` and `TrimEmptyIffBlank` |
| JsStrings.Lower | src/app/home/page.js:186 | the model of `toLowerCase` on ASCII letters; its meaning is stated by `LowerIsLower` and `TrimLower` |
| JsStrings.Contains | src/app/home/page.js:258 | the model of `includes`: some position of the text starts with the other text |
| JsStrings.Split | src/app/home/page.js:203 | the model of `split` at one character of a class; its meaning is stated by `SplitAtSeparator`, `SplitSingle` and `SplitJoinRoundTrip` |
| JsStrings.LastPiece | src/app/home/page.js:204 | the model of `split(':').pop()`; its meaning is stated by `LastPieceSpec` and `LastPieceBoundary` |
| JsStrings.SplitRuns | src/app/analysis/page.js:207 | the model of `split(/[.!?]+/)`; its meaning is stated by `SplitRunsAtRun`, `SplitRunsNoSeparator` and `SplitRunsSpec` |
| JsStrings.TrimSpec | src/app/home/page.js:186 | `trim` removes exactly a whitespace prefix and a whitespace suffix, and leaves no whitespace at either end |
| JsStrings.TrimEmptyIffBlank | src/app/home/page.js:248 | a trimmed text is empty exactly when the text is all whitespace |
| JsStrings.TrimLower | src/app/home/page.js:186 | lower-casing and trimming commute |
| JsStrings.LowerIsLower | src/app/home/page.js:186 | a lower-cased text has no capital letter, and lower-casing twice is lower-casing once |
| JsStrings.SplitPiecesHaveNoSeparator | src/app/home/page.js:203 | no piece of a split contains a separator |
| JsStrings.SplitAtSeparator | src/app/home/page.js:249 | splitting `a + "," + b` gives the pieces of `a` followed by the pieces of `b` |
| JsStrings.SplitJoinRoundTrip | src/app/home/page.js:249 | joining the pieces of a split with the separator gives back the text |
| JsStrings.LastPieceSpec | src/app/home/page.js:204 | `split(':').pop()` is a colon-free suffix; it is empty when the text ends with `:` and is the whole text when there is no colon |
| JsStrings.SplitSingle | src/app/home/page.js:204 | a text splits into a single piece, itself, exactly when it holds no separator |
| JsStrings.LastPieceBoundary | src/app/home/page.js:204 | when the last piece is shorter than the text, the character just before it is the separator |
| JsStrings.SplitRunsSpec | src/app/analysis/page.js:207 | pieces of the run split hold no `.`, `!` or `?`, and together they hold every other character of the text, in order |
| JsStrings.SplitRunsAtRun | src/app/analysis/page.js:207 | a whole run of separators between two texts ends exactly one piece: the pieces are those of the left text followed by those of the right |
| JsStrings.SplitRunsLeadingRun | src/app/analysis/page.js:207 | a leading run of separators gives a single empty first piece |
| JsStrings.SplitRunsNoSeparator | src/app/analysis/page.js:207 | a text with no separator is a single piece, itself |
| JsStrings.SplitRunsPiecesOccur | src/app/analysis/page.js:207 | every piece of the run split occurs in the text |
| JsStrings.SplitRunsFirstPieceIsPrefix | src/app/analysis/page.js:207 | the first piece is a prefix of the text, and is empty when the text starts with a separator |
| JsStrings.SplitRunsLower | src/app/analysis/page.js:207-210 | splitting the lower-cased text gives the lower-cased pieces |
| InsertionSets.InsertAll | src/app/home/page.js:206 | repeated `Set.add`; stated by `InsertAllSpec`, `InsertAllAppend` and `InsertAllFirstOccurrenceOrder` |
| InsertionSets.InsertAllSpec | src/app/home/page.js:193-219 | adding to a `Set` keeps its earlier elements in place, adds exactly the new ones, and never creates a duplicate |
| InsertionSets.InsertAllAppend | src/app/home/page.js:209-218 | adding two lists one after the other is adding their concatenation |
| InsertionSets.InsertAllFirstOccurrenceOrder | src/app/home/page.js:219 | `Array.from(set)` lists the elements in the order of their first addition |
| InsertionSets.StringSet.constructor | src/app/home/page.js:193 | `new Set()` is empty |
| InsertionSets.StringSet.Add | src/app/home/page.js:206 | `add` appends an element that is not yet present and otherwise changes nothing |
| InsertionSets.StringSet.Has | src/app/home/page.js:272 | `has` is membership |
| AllergenCheck.Related | src/app/home/page.js:258 | the matching test: equal, or one contains the other; stated in both directions by `MatchedAllergensSpec` |
| AllergenCheck.ServerWarnings | src/app/home/page.js:169 | `Array.isArray(warnings) ? warnings : []`; `CombinedWarningsSpec` states what the merge keeps of it |
| AllergenCheck.AllergenAlert | src/app/home/page.js:170 | the alert text for one token; `AlertKey` states its key |
| AllergenCheck.AlertsFor | src/app/home/page.js:170 | the `map` from matched tokens to alerts; `AlertsForMembers` states its elements |
| AllergenCheck.CommaTerms | src/app/home/page.js:249 | split at commas, normalize each piece, keep the non-empty ones; stated by `CommaTermsMembers`, `CommaTermsAppend`, `CommaTermsSingle` and `CommaTermsShape` |
| AllergenCheck.PieceToken | src/app/home/page.js:204-205 | one piece of a free-text field normalized after its last colon; stated by `PieceTokenSpec` |
| AllergenCheck.PushedTokens | src/app/home/page.js:195-208 | the tokens `pushTokens` adds, in order; `PushTokens` is proved to add them and `PushedTokensShape` states their form |
| AllergenCheck.TagToken | src/app/home/page.js:214-215 | the token of one `allergens_tags` entry; stated by `TagTokenOfString` and `TagTokensShape` |
| AllergenCheck.ProductAllergens | src/app/home/page.js:192-220 | `extractProductAllergens` as a function; `ExtractProductAllergens` is proved equal to it and `ProductAllergensSpec` states its properties |
| AllergenCheck.MatchedAllergens | src/app/home/page.js:252-265 | `matchAllergens` as a function; `MatchAllergens` is proved equal to it and `MatchedAllergensSpec` states its properties |
| AllergenCheck.WarningKey | src/app/home/page.js:271 | the key `String(w).toLowerCase().trim()`; `AlertKey` states it for alerts |
| AllergenCheck.DedupedWarnings | src/app/home/page.js:267-278 | `dedupeWarnings` as a function; `DedupeWarnings` is proved equal to it and the `KeyedDedupe` lemmas state its properties |
| AllergenCheck.CombinedWarnings | src/app/home/page.js:165-171 | the merge of server warnings and allergen alerts; stated by `CombinedWarningsSpec` |
| AllergenCheck.NormalizedShape | src/app/home/page.js:186 | the lower-cased, trimmed text has no capital and no edge whitespace, is empty exactly when the text is blank, and adds no character except lower-case letters |
| AllergenCheck.NormalizeAllergen | src/app/home/page.js:183-190 | the result is lower-case and trimmed; it is empty exactly when the value is falsy, or `String` throws on it (the `catch`), or its string is blank |
| AllergenCheck.NormalizeText | src/app/home/page.js:183-190 | a string normalizes to nothing when it is blank and otherwise to itself lower-cased and trimmed |
| AllergenCheck.KeepNonEmptySpec | src/app/home/page.js:249 | `filter(Boolean)` keeps exactly the non-empty strings |
| AllergenCheck.KeepNonEmptyAppend | src/app/home/page.js:249 | `filter(Boolean)` on a concatenation is the concatenation of the filtered parts |
| AllergenCheck.ParseAllergiesString | src/app/home/page.js:245-250 | no terms for a falsy or blank value or for `none` in any case; otherwise every term is non-empty, lower-case, trimmed and comma-free |
| AllergenCheck.ParseAllergiesMembers | src/app/home/page.js:247-249 | otherwise a term is in the result exactly when some comma-separated piece of the trimmed text is not blank and normalizes to it |
| AllergenCheck.CommaTermsShape | src/app/home/page.js:249 | every term from the comma split is non-empty, lower-case, trimmed and comma-free |
| AllergenCheck.CommaTermsAppend | src/app/home/page.js:249 | the terms of `a + "," + b` are the terms of `a` then those of `b`, so order and duplicates are kept |
| AllergenCheck.CommaTermsSingle | src/app/home/page.js:249 | a comma-free text gives no term when blank and otherwise exactly its normalized self |
| AllergenCheck.CommaTermsMembers | src/app/home/page.js:249 | a term comes from the comma split exactly when some non-blank piece normalizes to it |
| AllergenCheck.PieceTokenSpec | src/app/home/page.js:203-206 | a piece with a colon contributes only the normalized text after its last colon; a piece ending in `:` contributes nothing; no token holds `:` |
| AllergenCheck.PieceTokenShape | src/app/home/page.js:203-206 | a piece of a string field gives nothing or a non-empty, lower-case, trimmed token without `:`, `;` or `,` |
| AllergenCheck.PushedTokensShape | src/app/home/page.js:195-208 | every token `pushTokens` adds, at any nesting of arrays, is such a field token |
| AllergenCheck.TagTokenOfString | src/app/home/page.js:214-215 | a string tag is normalized exactly like a piece of a free-text field |
| AllergenCheck.TagTokensShape | src/app/home/page.js:212-218 | every tag token is non-empty, lower-case and trimmed; a string tag gives the normalized text after its last colon (all of it without a colon), nothing when it ends in `:`, and never a token with `:` |
| AllergenCheck.ProductAllergensSpec | src/app/home/page.js:192-220 | a non-object product gives `[]`; the result has no duplicates, its elements are non-empty, lower-case and trimmed, and it holds exactly the tokens the fields contribute |
| AllergenCheck.PushTokens | src/app/home/page.js:195-208 | the recursive `pushTokens` leaves the set holding its old elements followed by the new tokens of the value, in order |
| AllergenCheck.PushTags | src/app/home/page.js:212-218 | the `allergens_tags` loop adds the tag tokens in order |
| AllergenCheck.ExtractProductAllergens | src/app/home/page.js:192-220 | the imperative extraction returns exactly `ProductAllergens(product)`, and the set it reads out holds no duplicate |
| AllergenCheck.MatchesForMembers | src/app/home/page.js:256-262 | for one user term, the inner loop adds exactly the non-empty related product tokens |
| AllergenCheck.MatchCandidatesMembers | src/app/home/page.js:255-263 | both loops add exactly the product tokens that match some user term |
| AllergenCheck.MatchedAllergensSpec | src/app/home/page.js:252-265 | `[]` when an argument is not a list or there are no user terms; no duplicates; a token is in the result exactly when it is a non-empty product token that some non-empty user term equals, contains or is contained in |
| AllergenCheck.AddMatchesFor | src/app/home/page.js:256-262 | the inner `forEach` adds the matching tokens for one user term, in order |
| AllergenCheck.MatchAllergens | src/app/home/page.js:252-265 | the imperative matcher returns exactly `MatchedAllergens(userList, productList)`, and the set it reads out holds no duplicate |
| AllergenCheck.DedupeWarnings | src/app/home/page.js:267-278 | the imperative loop with its `seen` set returns exactly `DedupedWarnings(arr)` |
| AllergenCheck.AlertKey | src/app/home/page.js:170-171 | the key of an alert for a token is the alert text in lower case |
| AllergenCheck.MatchedAlertKey | src/app/home/page.js:169-170 | a product token related to a non-empty user term has its alert, by key, among the alerts |
| AllergenCheck.AlertsForMembers | src/app/home/page.js:170 | the alerts are exactly the alert texts of the matched tokens |
| AllergenCheck.CombinedWarningsSpec | src/app/home/page.js:165-171 | the merged list has distinct keys and starts with the deduplicated server warnings; it holds every server warning's key and the alert of every matched product allergen; every warning in it is a server warning or the alert of a matched token; its keys are exactly those of the server warnings and the alerts; with no user terms it is just the deduplicated server warnings |
| KeyedDedupe.DedupeBy | src/app/home/page.js:270-276 | the `seen`-set loop as a function of the key; stated by `DedupeKeepsFirstOfEachKey`, `DedupeKeys`, `DedupeDistinctKeys`, `DedupeIdempotent` and `DedupeAppendSpec` |
| KeyedDedupe.KeySetMembers | src/app/home/page.js:271-273 | a key is seen exactly when some warning has it |
| KeyedDedupe.DedupeKeys | src/app/home/page.js:270-276 | the output has exactly the keys of the input |
| KeyedDedupe.DedupeDistinctKeys | src/app/home/page.js:272-275 | no two output warnings have the same key |
| KeyedDedupe.DedupeOfDistinct | src/app/home/page.js:267-278 | a list without repeated keys is returned unchanged |
| KeyedDedupe.DedupeIdempotent | src/app/home/page.js:267-278 | deduplicating twice is deduplicating once |
| KeyedDedupe.DedupeKeepsFirstOfEachKey | src/app/home/page.js:270-276 | the output lists, unchanged and in input order, exactly the warnings with no earlier warning of the same key |
| KeyedDedupe.DedupePrefix | src/app/home/page.js:171 | deduplicating `a + b` starts with the deduplication of `a`, so server warnings keep their places at the front |
| KeyedDedupe.DedupeMembers | src/app/home/page.js:267-278 | every warning in the output is a warning of the input |
| KeyedDedupe.DedupeAppendSpec | src/app/home/page.js:171 | deduplicating `a + b` gives distinct keys, starts with the deduplicated `a`, keeps exactly the keys of `a` and `b`, keeps only elements of `a` or `b`, and adds nothing when `b` is empty |
| WarningHighlight.WarningKeywords | src/app/analysis/page.js:177-205 | the keyword list, in the source's order and with its repeated entries |
| WarningHighlight.MentionsKeyword | src/app/analysis/page.js:210-213 | the `some`/`includes` test on the lower-cased sentence; stated by `HighlightSpec` and `MentionsKeywordIgnoresCase` |
| WarningHighlight.Highlight | src/app/analysis/page.js:174-219 | the highlighter for any keyword list; stated by `HighlightSpec`, `HighlightTextsShape` and `HighlightIgnoresCase` |
| WarningHighlight.HighlightWarnings | src/app/analysis/page.js:173-220 | `highlightWarnings`: `Highlight` with the fixed keyword list of lines 177-205 |
| WarningHighlight.FilterByPositions | src/app/analysis/page.js:207 | `filter` keeps, in order, exactly the elements that pass the test |
| WarningHighlight.FilterMembers | src/app/analysis/page.js:207 | an element is in the filtered list exactly when it is in the list and passes the test |
| WarningHighlight.FilterMap | src/app/analysis/page.js:207 | filtering commutes with a map that does not change the test's verdict |
| WarningHighlight.HighlightSpec | src/app/analysis/page.js:173-220 | an empty text gives `[]`; otherwise there is one entry per non-blank piece of the run split and for no other piece, in order, holding the trimmed piece and whether the piece mentions a keyword |
| WarningHighlight.HighlightTextsShape | src/app/analysis/page.js:207-216 | every sentence text is non-empty, trimmed, free of `.`, `!` and `?`, and occurs in the input |
| WarningHighlight.SentenceText | src/app/analysis/page.js:207-216 | a piece of the run split, trimmed, is trimmed, holds no `.`, `!` or `?`, and occurs in the text |
| WarningHighlight.MentionsKeywordIgnoresCase | src/app/analysis/page.js:210-213 | the letter case of a sentence never changes whether it is flagged |
| WarningHighlight.NotBlankLower | src/app/analysis/page.js:207 | whether a piece is blank does not depend on letter case |
| WarningHighlight.HighlightIgnoresCase | src/app/analysis/page.js:173-220 | highlighting the lower-cased text gives the same sentences lower-cased, with the same flags |

## Left out

- Barcode scanning, camera wiring and the decoder library (`src/app/home/page.js:34-137`): these are device and foreign-library calls.
- The product fetch and the `/analyze` request (`src/app/home/page.js:145-162`), with their HTTP error messages. The model takes the server's `warnings` field and the product record as inputs.
- `fetchUserAllergens` (`src/app/home/page.js:222-243`) reads the profile store or `localStorage`. This is I/O. The model takes the saved allergy text as an input. The fallback of that function (`[]` on error or no text) equals `ParseAllergiesString(Null)`.
- A `null` analysis response makes `analysisResult.warnings` throw, so the page shows an error instead of warnings. The model's `Get` treats a missing field as `Null` and does not model the throw.
- `setAnalysisWarnings` and rendering are left out. Setting the list only when it is non-empty has the same effect as the reset to `[]` at line 143.
- JSON numbers are integers in the model. `String(1.5)` and other floating-point formatting are not modelled.
- `JsString` writes every integer out in full decimal digits. JavaScript's `String(1e21)` is `"1e+21"`, so from 10^21 in magnitude upward the two differ. `JSON.parse` also rounds integers beyond 2^53 to the nearest double, and the model keeps them exact.
- `Lower` lower-cases ASCII letters only. JavaScript's `toLowerCase` also maps other Unicode capitals.
- `PushedTokens` and `ExtractProductAllergens`: `pushTokens` calls `String(value)` outside any `try` (`src/app/home/page.js:201`). A field value for which `StringThrows` holds, such as `{"toString": 1}`, makes `extractProductAllergens` throw, and the page then shows an error and no warnings (`src/app/home/page.js:173-177`). The model does not capture this throw. It converts such a value as if `String` had returned `"[object Object]"`.
- `DedupedWarnings` and `CombinedWarnings`: `dedupeWarnings` calls `String(w)` outside any `try` (`src/app/home/page.js:271`). A server warning for which `StringThrows` holds makes the merge throw, with the same effect. The model does not capture this throw either, and keys such a warning as `"[object object]"`.
- `ParseAllergiesString`: `String(text)` at `src/app/home/page.js:247` is not inside a `try` of its own. A saved value that throws sends `fetchUserAllergens` on to its `localStorage` fallback. That fallback is I/O and is not modelled.
- `MatchedAllergens` takes lists of strings. The only caller passes string lists, and non-string elements (on which `includes` would throw) are not modelled.
- `HighlightWarnings` takes a string, with the empty string for an absent text. A non-string text, on which `split` would throw, is not modelled.
- `HighlightSpec` gives the flag of a sentence on its untrimmed piece, as the code computes it. It does not state that this is the same as testing the trimmed text.
- `computeBmi` and `validateForm` (`src/app/home/onboarding/page.js:45-62`) rely on floating point. They are left out, as are the product details page, `getWarningIcon`, the layouts, the navigation and the configuration, which are presentation only.
- The LLM request and connection test of the analysis page (`src/app/analysis/page.js:92-161`) are network calls and are left out.
