# MatchMaster matching engine in Dafny

MatchMaster is a single-page party game (`matchyapp/app/page.tsx`). Between
two and five participants each type up to twenty items (foods, films, …)
in turn; the page then reports which items several participants share.
Items match when they have the same *key*: the text lowercased, decomposed
into Unicode Normalization Form D, with combining marks, whitespace and
everything outside `[a-z0-9]` deleted. A participant counts at most once
per key. Each key is reported with the trimmed text of its first item as
label and with the number of participants who entered it, ranked by count
descending and then by key.

This project models that engine and the page's setup/input/summary state,
and proves what the page relies on.

- `text.dfy` (module `Text`): the JavaScript string operations used:
  whitespace as `\s` and `trim` see it, `replace(/…/g, "")` as deletion,
  per-character mappings, `trimStart`/`trimEnd`/`trim`.
- `normalizer.dfy` (modules `Normalizer` and `NormalizerExamples`):
  `normalizeText`. The runtime's Unicode tables for `toLowerCase` and
  `normalize("NFD")` are a parameter `Tables`. Properties that need
  something of the tables say so (`KeepsKeyChars`: the tables leave
  `[a-z0-9]` alone; `SpacesStayBlank`: whitespace keys to nothing). A
  concrete Latin-1 instance `Latin1()` meets both and drives the worked
  examples.
- `ranking.dfy` (module `Ranking`): the result record, the comparator given
  to `sort`, and a sort meeting it. Any two sorts give the same list.
- `matcher.dfy` (module `Matcher`): what the result of `handleMatch` must
  be (`IsRanking`, defined from the input alone), its properties, and the
  method `Match` that computes it the way `handleMatch` does. It keeps a
  frequency map with a separate iteration order, plus a per-user set of
  seen keys. `Match` is proved to return a list satisfying `IsRanking`.
- `match_example.dfy` (module `MatchExample`): two participants entering
  "Pizza", "Sushi" and "pizza ", "Tacos" get exactly
  `[pizza/"Pizza"/2, sushi/"Sushi"/1, tacos/"Tacos"/1]`.
- `session.dfy` (module `Session`): the page state as a class
  `MatchSession`, with the handlers `handleStart`, `handleReset`,
  `handleItemChange`, `handleMatch` and `handleConfirmAndNext` as methods.

The tie-break is `a.value.localeCompare(b.value)` (page.tsx:134). On keys
over `[a-z0-9]` the root collation puts digits before letters and letters
in alphabetical order, which is the ordinal order `LexLess`.

## Model

| member | source | states |
|---|---|---|
| Text.Delete | matchyapp/app/page.tsx:32-34 | `replace(/[…]/g, "")` leaves no character of the class and never lengthens the text |
| Text.DeleteKeepsIff | matchyapp/app/page.tsx:32-34 | deleting a class leaves a text unchanged exactly when it has no character of the class |
| Text.DeleteSubsumed | matchyapp/app/page.tsx:32-34 | deleting a wider class after a narrower one equals deleting the wider class alone |
| Text.DeleteAppend | matchyapp/app/page.tsx:32-34 | deletion distributes over concatenation |
| Text.FlatMapAppend | matchyapp/app/page.tsx:30-31 | a per-character mapping distributes over concatenation |
| Text.FlatMapFixed | matchyapp/app/page.tsx:30-31 | a mapping that fixes every character of a text fixes the text |
| Text.TrimStartSpec | matchyapp/app/page.tsx:119 | `trimStart` keeps a suffix that does not start with whitespace and drops only whitespace |
| Text.TrimEndSpec | matchyapp/app/page.tsx:119 | `trimEnd` keeps a prefix that does not end with whitespace and drops only whitespace |
| Text.TrimSpec | matchyapp/app/page.tsx:119 | `raw.trim()` is a slice of `raw` with whitespace only around it and no whitespace at its ends |
| Text.TrimEmptyIff | matchyapp/app/page.tsx:119 | `trim` gives `""` exactly for whitespace-only text |
| Normalizer.NormalizeText | matchyapp/app/page.tsx:28-35 | every key is a string over `[a-z0-9]`, possibly empty |
| Normalizer.FinalFilterSuffices | matchyapp/app/page.tsx:32-34 | the mark and whitespace deletions are subsumed by the final `[^a-z0-9]` deletion |
| Normalizer.NormalizeAppend | matchyapp/app/page.tsx:28-35 | the key of a concatenation is the concatenation of the keys |
| Normalizer.NormalizeFixedIff | matchyapp/app/page.tsx:28-35 | with tables that keep `[a-z0-9]`, a text is its own key exactly when it is over `[a-z0-9]` |
| Normalizer.NormalizeIdempotent | matchyapp/app/page.tsx:28-35 | normalizing a key again gives the same key |
| Normalizer.BlankNormalizesToEmpty | matchyapp/app/page.tsx:33 | whitespace-only text has the empty key |
| Normalizer.SpaceInsensitive | matchyapp/app/page.tsx:33 | inserting a whitespace character anywhere does not change the key |
| Normalizer.NormalizeChar | matchyapp/app/page.tsx:28-35 | the key of one character is read off the two tables and the final filter |
| Normalizer.Latin1 | matchyapp/app/page.tsx:30-31 | the Latin-1 tables leave `[a-z0-9]` unchanged |
| Normalizer.Latin1SpacesStayBlank | matchyapp/app/page.tsx:30-33 | under the Latin-1 tables every whitespace character keys to nothing |
| Normalizer.Latin1AsciiChar | matchyapp/app/page.tsx:30-34 | under the Latin-1 tables an ASCII letter or digit keys to its lowercase form |
| NormalizerExamples.Latin1AcuteE | matchyapp/app/page.tsx:31-32 | "é" decomposes to "e" plus U+0301, and the mark is deleted |
| NormalizerExamples.AccentInsensitive | matchyapp/app/page.tsx:31-32 | "café" and "cafe" both key to "cafe" |
| NormalizerExamples.Latin1Capitalized | matchyapp/app/page.tsx:30 | a capitalized word over `[a-z0-9]` keys to its lowercase form |
| NormalizerExamples.CaseAndSpaceInsensitive | matchyapp/app/page.tsx:30-33 | "Ice Tea" and "IceTea" both key to "icetea" |
| Ranking.LocaleCompare | matchyapp/app/page.tsx:134 | `localeCompare` on keys is 0 exactly for equal keys |
| Ranking.LexLessIrreflexive | matchyapp/app/page.tsx:134 | no key goes before itself |
| Ranking.LexLessTotal | matchyapp/app/page.tsx:134 | of two different keys one goes before the other |
| Ranking.LexLessAsymmetric | matchyapp/app/page.tsx:134 | two keys never go before each other |
| Ranking.LexLessTransitive | matchyapp/app/page.tsx:134 | key order is transitive |
| Ranking.Compare | matchyapp/app/page.tsx:131-135 | the comparator is 0 exactly for records with equal count and key |
| Ranking.BeforeStrictTotal | matchyapp/app/page.tsx:131-135 | on records with distinct keys the comparator is a strict total order |
| Ranking.InsertFront | matchyapp/app/page.tsx:131-135 | a record going before the first of a sorted list goes before all of them |
| Ranking.InsertBehind | matchyapp/app/page.tsx:131-135 | inserting behind the first record keeps the list sorted and adds exactly the record |
| Ranking.Insert | matchyapp/app/page.tsx:131-135 | insertion keeps a list sorted and adds exactly the new record |
| Ranking.SortResults | matchyapp/app/page.tsx:131-135 | the sorted list is in comparator order and is a permutation of the records |
| Ranking.SortedMeaning | matchyapp/app/page.tsx:131-135 | in a sorted list an earlier record never has a smaller count, and with equal counts it has the smaller key |
| Ranking.SortedUnique | matchyapp/app/page.tsx:131-135 | two sorted lists holding the same records are equal, so the sort used does not matter |
| Ranking.RankingOrderExample | matchyapp/app/page.tsx:131-135 | counts 1, 3, 3 for keys a, b, c rank as b, c, a |
| Matcher.KeySet | matchyapp/app/page.tsx:106-107 | the empty key is never collected |
| Matcher.KeySetIff | matchyapp/app/page.tsx:105-107 | a key is collected exactly when it is non-empty and some item has it |
| Matcher.KeySetAppend | matchyapp/app/page.tsx:103-105 | the keys of two item lists together are the union of their keys |
| Matcher.KeySetEntries | matchyapp/app/page.tsx:103-107 | a key occurs among all items exactly when some user entered it |
| Matcher.Holders | matchyapp/app/page.tsx:103-115 | a key's count never exceeds the number of users |
| Matcher.HoldersPositiveIff | matchyapp/app/page.tsx:103-121 | a key's count is positive exactly when the key occurs |
| Matcher.HoldersAllIff | matchyapp/app/page.tsx:103-115 | a key's count equals the number of users exactly when every user entered it |
| Matcher.HoldersCountsUsers | matchyapp/app/page.tsx:103-115 | a key's count is the size of the set of users who entered it |
| Matcher.HoldersByKeySets | matchyapp/app/page.tsx:104-109 | counts depend only on the set of keys each user entered |
| Matcher.DuplicateSlotIgnored | matchyapp/app/page.tsx:104-109 | an extra slot repeating one of the user's items changes no count: a user contributes at most once per key |
| Matcher.HoldersTwo | matchyapp/app/page.tsx:103-115 | a key entered by two different users has a count of at least two |
| Matcher.FirstRawSnoc | matchyapp/app/page.tsx:110-121 | a later item never changes the first item of a key already seen |
| Matcher.FirstRawIsFirst | matchyapp/app/page.tsx:110-121 | the label source is the earliest item, in user-then-slot order, with that key |
| Matcher.FirstRawHasKey | matchyapp/app/page.tsx:110-121 | the label source of an occurring key has that key |
| Matcher.RankingRecord | matchyapp/app/page.tsx:103-130 | every record has a non-empty key, a count in [1, number of users] equal to the number of users who entered the key, and a key no other record has |
| Matcher.RankingEveryone | matchyapp/app/page.tsx:103-130 | a record's count is the number of users exactly when every user entered its key |
| Matcher.RankingSharedKey | matchyapp/app/page.tsx:103-130 | a key two users entered is reported with count at least two |
| Matcher.RankingEmpty | matchyapp/app/page.tsx:94-135 | no users, or only items with empty keys, give an empty result |
| Matcher.RankingUnique | matchyapp/app/page.tsx:125-135 | the result list is determined by the input |
| Matcher.RankingLabel | matchyapp/app/page.tsx:117-128 | when whitespace keys to nothing, every label is the trimmed first item and is non-empty, so the fallback to the key is never taken |
| Matcher.CountsSkip | matchyapp/app/page.tsx:107-108 | an item adding no key for its user changes no count |
| Matcher.CountsIncrement | matchyapp/app/page.tsx:110-115 | a key new for this user and already in the map gains one |
| Matcher.CountsAdd | matchyapp/app/page.tsx:116-121 | a key new to the map enters with count 1 |
| Matcher.LabelsKept | matchyapp/app/page.tsx:110-115 | an item whose key is already in the map changes no label |
| Matcher.LabelsRecount | matchyapp/app/page.tsx:112-115 | updating a count keeps the label (`...existing`) |
| Matcher.LabelsAdd | matchyapp/app/page.tsx:117-120 | a key new to the map is labelled with its own item, trimmed |
| Matcher.ListsUpdate | matchyapp/app/page.tsx:112-115 | `Map.set` on an existing key keeps the iteration order |
| Matcher.ListsAdd | matchyapp/app/page.tsx:117-120 | `Map.set` on a new key appends it to the iteration order |
| Matcher.TallySkip | matchyapp/app/page.tsx:107-108 | an empty key or a key the user already gave leaves the frequency map as the invariant requires |
| Matcher.TallyCount | matchyapp/app/page.tsx:110-115 | incrementing an existing entry keeps the frequency-map invariant |
| Matcher.TallyNew | matchyapp/app/page.tsx:116-121 | adding a new entry with count 1 and the trimmed item keeps the invariant |
| Matcher.TallyUserDone | matchyapp/app/page.tsx:103-123 | after a user's last item the map describes that user in full |
| Matcher.Label | matchyapp/app/page.tsx:128 | `original \|\| value`: a non-empty stored text is the label, and the label is empty only when both the text and the key are |
| Matcher.Records | matchyapp/app/page.tsx:125-130 | one record per key, in the map's iteration order, carrying the key's count; a non-empty key never gets an empty label |
| Matcher.RecordsExpected | matchyapp/app/page.tsx:125-130 | once all users are visited, each mapped record is the expected one, with `original \|\| value` as label |
| Matcher.RecordsValues | matchyapp/app/page.tsx:125-130 | a permutation of the mapped records has exactly the map's keys |
| Matcher.TallyRanked | matchyapp/app/page.tsx:125-135 | sorting the mapped records of the complete map gives a ranking |
| Matcher.TallyItem | matchyapp/app/page.tsx:105-122 | the inner callback adds the item's key to the seen set and keeps the frequency-map invariant |
| Matcher.TallyUser | matchyapp/app/page.tsx:103-123 | the outer callback leaves the map describing all users visited so far |
| Matcher.Match | matchyapp/app/page.tsx:94-135 | the result is the ranking of the input (`IsRanking`), and `total` is the number of users |
| MatchExample.RankedIsRanking | matchyapp/app/page.tsx:94-135 | the expected list is a ranking of the two-participant example |
| MatchExample.ExampleRanking | matchyapp/app/page.tsx:94-135 | for any key function giving the four items their keys, the ranking of the example is exactly `[pizza 2, sushi 1, tacos 1]`, labelled "Pizza", "Sushi", "Tacos" |
| MatchExample.PizzaSpaceKey | matchyapp/app/page.tsx:28-35 | the trailing space of "pizza " does not reach its key "pizza" |
| MatchExample.Latin1ExampleKeys | matchyapp/app/page.tsx:28-35 | the Latin-1 normalizer gives "Pizza" and "pizza " the key "pizza", "Sushi" the key "sushi" and "Tacos" the key "tacos" |
| MatchExample.ExampleMatch | matchyapp/app/page.tsx:94-135 | `Match` with the Latin-1 tables returns exactly `[pizza 2 "Pizza", sushi 1 "Sushi", tacos 1 "Tacos"]` for the example, out of 2 participants |
| Session.Clamp | matchyapp/app/page.tsx:49-50 | `Math.min(Math.max(x, lo), hi)` lies in [lo, hi], keeps in-range values and maps values below or above to the bound |
| Session.ClampIdempotent | matchyapp/app/page.tsx:49-50 | clamping twice equals clamping once |
| Session.DecimalRoundTrip | matchyapp/app/page.tsx:54 | the number in a default name reads back as the number written |
| Session.DefaultName | matchyapp/app/page.tsx:54 | the name of participant `i` is "Osoba " followed by decimal digits, without a leading zero, that read as `i + 1` |
| Session.InitialUsers | matchyapp/app/page.tsx:52-56 | `handleStart` creates n users with ids 0 to n-1, default names `Osoba ${i + 1}` and m empty slots each |
| Session.WithItem | matchyapp/app/page.tsx:84-91 | an item change keeps the list length, ids, names and slot counts, puts the value in the slot of each user with that id, and keeps every other slot of every user |
| Session.StartedRankingEmpty | matchyapp/app/page.tsx:52-56 | matching right after start, with every slot empty, gives no record |
| Session.NextTurn | matchyapp/app/page.tsx:162-167 | a confirmation outside input changes nothing; during a participant's turn it always changes the turn; it moves the turn forward by at most one, never past the last participant, never back into input, and reaches the summary only from the last participant |
| Session.EveryoneGetsATurn | matchyapp/app/page.tsx:161-168 | from the first participant, k confirmations give the turn to participant k, and the n-th leads to the summary, which further confirmations do not leave |
| Session.MatchSession.constructor | matchyapp/app/page.tsx:38-44 | the page starts in setup with 3 participants, 10 items, no users and no results |
| Session.MatchSession.HandleStart | matchyapp/app/page.tsx:48-65 | counts are clamped to [2,5] and [5,20], users are created empty, results cleared, turn 0, input phase |
| Session.MatchSession.HandleReset | matchyapp/app/page.tsx:67-75 | back to setup with defaults 3 and 10, no users, no results, turn 0 |
| Session.MatchSession.HandleItemChange | matchyapp/app/page.tsx:83-92 | only the users change, by `WithItem`, and the state stays consistent |
| Session.MatchSession.HandleMatch | matchyapp/app/page.tsx:94-139 | the stored results are the ranking of the users' items, `hasMatched` is set, nothing else changes |
| Session.MatchSession.HandleConfirmAndNext | matchyapp/app/page.tsx:159-168 | phase and turn move by `NextTurn`: nothing outside input, otherwise the next participant or the summary |

## Left out

- Unicode tables: `toLowerCase` and `normalize("NFD")` are the parameter `Tables`, applied per character. Context-dependent lowercasing (final sigma) and canonical reordering of combining marks are not modelled. They only affect characters outside `[a-z0-9]`, which the last step deletes, so keys do not change.
- Only the Latin-1 letters have a concrete table (`Latin1()`). Other scripts are left as they are by that instance.
- Strings are sequences of Unicode scalar values, not UTF-16 code units. Every character class the engine uses lies in the Basic Multilingual Plane.
- `localeCompare` is ordinal order on keys. A locale with tailored collation for plain ASCII letters (for example a Czech default locale, where "ch" sorts after "h") is not modelled.
- The library `sort` is modelled as an insertion sort. `Ranking.SortedUnique` shows that any sort meeting the comparator gives the same list.
- Matcher.TallyItem: the item callback receives `normalizeText` as a function value instead of calling it by name. `Match` passes `KeyOf(t)`, so the computation is the same.
- Session.MatchSession.HandleItemChange: requires the slot index to lie within the items of every user with that id. The page only passes indexes of existing slots. Other indexes are not modelled: `index == items.length` would make JavaScript append one slot, so that user would have `itemCount + 1` slots; a larger index would leave holes in the array; a negative index would add a non-index property.
- Session.MatchSession.HandleMatch: requires the state to be consistent, as every other handler keeps it.
- React state updates are modelled as synchronous field assignments. Each handler reads only the state from before the event, so the result is the same.
- `handleUserNameChange`, the `totalUsers` memo (equal to the number of users once they exist), `getBadgeClasses` and `getBadgeLabel`, the `parseInt`/`Number.isNaN` input handlers and all rendering are not part of this model. `userCount` and `itemCount` are integers, as those handlers produce.
