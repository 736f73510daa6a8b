# busFinder search core in Dafny

busFinder is an Android app that finds the Dhaka buses serving a journey
between two stops. This project models the part of the app that does the
searching:

- **Stop matching.** `normalizeStopName` and `findStopIndex` in
  `BusRepository`. A typed name is normalised, then matched against the
  names of a route in two tiers: exact names win; after them come a
  containment test and a word-by-word test.
- **Repository queries.** The direct-route filter of `searchBuses`, with
  its forward, backward and implicit-reverse legs. Also `getBusRoute`,
  `getServiceTypes`, `getBusesAtStop`, and the imperative
  `getAllStopNames`, which collects stop names into a set and then cleans,
  de-duplicates and sorts them.
- **Search history.** `saveSearch` over the `search_history` table behind
  `SearchHistoryDao`. The table is held newest first. A repeated search,
  compared ignoring case, is re-stamped. A new one is inserted trimmed,
  and only the ten newest rows are kept.
- **Suggestions.** `calculateFuzzyScore` (a loop over the words, then a
  character-sequence scan) and `fuzzySearch`, which keeps the positive
  scores, sorts them stably best first and takes the first `limit`.
- **View-model state.** The fields `BusViewModel` keeps for the search
  screen, and the operations that change them: `updateFromQuery`,
  `updateToQuery`, the debounced suggestion updates, `searchBuses`,
  `clearSearchHistory` and `clearSearches`.

Files:

| file | module | contents |
|---|---|---|
| `text.dfy` | `Text` | the Kotlin string operations the core relies on: `trim`, `isBlank`, `lowercase`, `startsWith`, `contains`, `replace`, `split`, the natural string order and `distinct().sorted()` |
| `sequences.dfy` | `Sequences` | `indexOfFirst`, `filter`, `reversed`, and the sub-list relation |
| `bus_model.dfy` | `BusModel` | `BusRoute`, `Routes`, `SearchHistoryItem` |
| `stop_matching.dfy` | `StopMatching`, `ExampleStops`, `StopMatchingExamples` | normalisation and the two-tier matcher, with worked examples |
| `route_search.dfy` | `RouteSearch` | `searchBuses`, `getBusRoute`, `getServiceTypes`, `getBusesAtStop`, `getAllStopNames` |
| `history.dfy` | `History` | the history table as a class, and `saveSearch` |
| `fuzzy.dfy` | `Fuzzy` | the fuzzy score (method and specification) and the ranking |
| `fuzzy_examples.dfy` | `ExampleNames`, `FuzzyExamples` | the scoring examples from the documentation, worked out |
| `view_model.dfy` | `ViewModel` | `BusViewModel` as a class |

Where the code and its documentation disagree, the model follows the code:

- **Normalisation is not idempotent.** A single pass of `replace("  ", " ")`
  turns three spaces into two. Removing a bracket can also leave a leading
  space behind: `"( a"` normalises to `" a"`. See
  `StopMatching.NormalizeIsNotIdempotent`.
- **The documented scores are wrong.** The comment on
  `calculateFuzzyScore` gives "gab" vs "Gabtoli" = 600 and "gab" vs
  "Gabtoli Bus Stand" = 300. The code also adds the substring, word and
  sequence points, giving 1152 and 1132. The documented order between the
  two still holds.

Other behaviours of the code as written, each stated as a lemma:

- An empty search name matches the first stop of any route (`contains("")`
  is true) unless some stop normalises to the empty string.
- A stop name with two adjacent separators splits into an empty word, and
  that word matches any search.
- A stop name that normalises to `""` lists every bus that has stops.
- `saveSearch` compares the untrimmed input with the trimmed rows it
  stored, so a padded search is stored again on every save.

The clock (`Date().time`) is a parameter `now` wherever a timestamp is
written. The route data read from `bus_routes.json` is a parameter too:
`buses`, or the `routes` argument of the view model's constructor.

## Model

| member | source | states |
|---|---|---|
| Text.TrimIsSlice | app/src/main/java/com/rex/busfinder/data/repository/BusRepository.kt:163 | `trim()` returns a contiguous slice of the input with only blank text on either side of it; the slice neither starts nor ends with whitespace, and is empty exactly when the input is blank |
| Text.ReplaceCharIsMap | app/src/main/java/com/rex/busfinder/data/repository/BusRepository.kt:165-166 | replacing one character by another maps the string position by position, length unchanged |
| Text.ReplaceRemoves | app/src/main/java/com/rex/busfinder/data/repository/BusRepository.kt:168-171 | after replacing a character by text without it, the character no longer occurs |
| Text.SplitOn | app/src/main/java/com/rex/busfinder/viewmodel/BusViewModel.kt:203 | a split has at least one piece, and no piece holds a delimiter |
| Text.AdjacentDelimitersGiveEmptyWord | app/src/main/java/com/rex/busfinder/data/repository/BusRepository.kt:198-199 | two adjacent delimiters produce an empty piece after the first |
| Text.SplitAfterWord | app/src/main/java/com/rex/busfinder/viewmodel/BusViewModel.kt:203 | a delimiter-free word followed by a delimiter is the first piece, and splitting continues after the delimiter |
| Text.SplitOnChars | app/src/main/java/com/rex/busfinder/viewmodel/BusViewModel.kt:203 | every character of every piece occurs in the split string |
| Text.ContainsFirstChar | app/src/main/java/com/rex/busfinder/viewmodel/BusViewModel.kt:198 | a non-empty string contained in s has its first character in s |
| Text.StrLessTransitive | app/src/main/java/com/rex/busfinder/data/repository/BusRepository.kt:83 | the natural string order is transitive |
| Text.StrLessTotal | app/src/main/java/com/rex/busfinder/data/repository/BusRepository.kt:83 | any two different strings are ordered one way or the other |
| Text.InsertSorted | app/src/main/java/com/rex/busfinder/data/repository/BusRepository.kt:82-83 | inserting into a strictly ascending list keeps it strictly ascending and adds exactly the new element |
| Text.AscendingUnique | app/src/main/java/com/rex/busfinder/data/repository/BusRepository.kt:82-83 | two strictly ascending lists with the same members are equal, so the sorted distinct list is determined by its members |
| Text.SortedDistinct | app/src/main/java/com/rex/busfinder/data/repository/BusRepository.kt:307-308 | `distinct().sorted()`: strictly ascending, holding exactly the input's elements |
| Sequences.IndexOfFirst | app/src/main/java/com/rex/busfinder/data/repository/BusRepository.kt:177-179 | the result is the first index that satisfies the predicate, and -1 exactly when no element does |
| Sequences.Filter | app/src/main/java/com/rex/busfinder/data/repository/BusRepository.kt:109 | the result is an order-preserving sub-list of the elements that satisfy the predicate, and holds all of them |
| Sequences.FilterCount | app/src/main/java/com/rex/busfinder/data/repository/BusRepository.kt:109 | every copy of a satisfying element is kept, and no copy of any other |
| Sequences.Reverse | app/src/main/java/com/rex/busfinder/data/repository/BusRepository.kt:130 | element i of the result is element n-1-i of the input |
| BusModel.AllStops | app/src/main/java/com/rex/busfinder/data/repository/BusRepository.kt:327 | a name is among the stops of a bus exactly when it is a forward stop or a backward stop |
| StopMatching.ReplaceDashes | app/src/main/java/com/rex/busfinder/data/repository/BusRepository.kt:165-166 | en and em dashes become '-'; every other position is unchanged |
| StopMatching.StripPunctuationIsFilter | app/src/main/java/com/rex/busfinder/data/repository/BusRepository.kt:168-171 | the four deletions are one filter: exactly the brackets, commas and full stops go, and every other character stays, in order |
| StopMatching.Normalize | app/src/main/java/com/rex/busfinder/data/repository/BusRepository.kt:162-172 | the normal form holds no capital letter, dash variant, bracket, comma or full stop |
| StopMatching.NormalizeUnchanged | app/src/main/java/com/rex/busfinder/data/repository/BusRepository.kt:162-172 | a trimmed name with no double space and none of the removed characters is its own normal form |
| StopMatching.NormalizeIsLower | app/src/main/java/com/rex/busfinder/data/repository/BusRepository.kt:162-172 | a trimmed name whose lower case has no double space or punctuation normalises to its lower case |
| StopMatching.NormalizeSteps | app/src/main/java/com/rex/busfinder/data/repository/BusRepository.kt:167-171 | on a trimmed lower-case input without dashes, the normal form is the result of the double-space pass whenever that result holds no punctuation |
| StopMatching.NormalizeIsNotIdempotent | app/src/main/java/com/rex/busfinder/data/repository/BusRepository.kt:167-169 | "a   b" normalises to "a  b" and that to "a b"; "( a" to " a" |
| StopMatching.FindStopIndex | app/src/main/java/com/rex/busfinder/data/repository/BusRepository.kt:175-210 | when some stop has exactly the searched normal form, the first such index; otherwise the first stop that passes the containment or word test; -1 when none does |
| StopMatching.FindsFirstExact | app/src/main/java/com/rex/busfinder/data/repository/BusRepository.kt:177-181 | the first exact match is returned whatever partial matches precede it |
| StopMatching.EmptyQueryMatchesFirstStop | app/src/main/java/com/rex/busfinder/data/repository/BusRepository.kt:193 | with no stop normalising to "", the empty search matches stop 0 |
| StopMatching.EmptyStopWordMatchesEverything | app/src/main/java/com/rex/busfinder/data/repository/BusRepository.kt:198-206 | a normal form with two adjacent separators partially matches every search |
| StopMatching.FindsOwnStop | app/src/main/java/com/rex/busfinder/data/repository/BusRepository.kt:175-181 | on a route whose stops normalise differently, each stop is found at its own index |
| StopMatchingExamples.ExactMatchWinsOverEarlierContainment | app/src/main/java/com/rex/busfinder/data/repository/BusRepository.kt:177-193 | for ["Gabtoli Bus Stand", "Gabtoli"] and "gabtoli" the matcher returns 1, though stop 0 contains the search |
| StopMatchingExamples.StandContainsQuery | app/src/main/java/com/rex/busfinder/data/repository/BusRepository.kt:193 | "Gabtoli Bus Stand" partially matches "gabtoli" |
| StopMatchingExamples.BracketsVanish | app/src/main/java/com/rex/busfinder/data/repository/BusRepository.kt:168-169 | "()" normalises to the empty string |
| StopMatchingExamples.EmptyQueryPrefersEmptyStop | app/src/main/java/com/rex/busfinder/data/repository/BusRepository.kt:177-181 | for ["Gabtoli", "()"] the empty search returns 1, the exact tier beating the containment tier |
| RouteSearch.SameStopNeverTravels | app/src/main/java/com/rex/busfinder/data/repository/BusRepository.kt:115-135 | no bus serves a journey whose two ends normalise alike |
| RouteSearch.SearchBuses | app/src/main/java/com/rex/busfinder/data/repository/BusRepository.kt:100-144 | the results are an order-preserving sub-list of the buses, holding exactly the buses with a forward, backward or implicit-reverse leg between the normalised names; empty when both names normalise alike |
| RouteSearch.LegAlong | app/src/main/java/com/rex/busfinder/data/repository/BusRepository.kt:115-119 | on a distinctly named list, stop i before stop j is a leg |
| RouteSearch.ForwardOrderTravels | app/src/main/java/com/rex/busfinder/data/repository/BusRepository.kt:115-119 | on a distinctly named forward list, any earlier-to-later journey is served |
| RouteSearch.BackwardOrderTravels | app/src/main/java/com/rex/busfinder/data/repository/BusRepository.kt:122-127 | the same for a distinctly named backward list |
| RouteSearch.ReverseDistinctlyNamed | app/src/main/java/com/rex/busfinder/data/repository/BusRepository.kt:130 | reversing a distinctly named list keeps it distinctly named |
| RouteSearch.ImplicitReverseTravels | app/src/main/java/com/rex/busfinder/data/repository/BusRepository.kt:128-135 | without a backward list, any later-to-earlier journey along the forward list is served |
| RouteSearch.UnmatchedOriginNoLeg | app/src/main/java/com/rex/busfinder/data/repository/BusRepository.kt:115-119 | a list none of whose stops matches the origin even partially gives no leg |
| RouteSearch.UnknownOriginExcludes | app/src/main/java/com/rex/busfinder/data/repository/BusRepository.kt:115-143 | a bus none of whose stops matches the origin even partially is never a result |
| RouteSearch.GetBusRoute | app/src/main/java/com/rex/busfinder/data/repository/BusRepository.kt:212-223 | null exactly when no bus has the id; otherwise the first bus with that id |
| RouteSearch.ServiceTypesOf | app/src/main/java/com/rex/busfinder/data/repository/BusRepository.kt:305 | exactly the service types present on some bus |
| RouteSearch.GetServiceTypes | app/src/main/java/com/rex/busfinder/data/repository/BusRepository.kt:300-317 | strictly ascending (so distinct); exactly the non-blank service types of the buses |
| RouteSearch.GetBusesAtStop | app/src/main/java/com/rex/busfinder/data/repository/BusRepository.kt:320-341 | an order-preserving sub-list that holds exactly the buses with a stop equal to, containing or contained in the normalised name |
| RouteSearch.ListedAtOwnStop | app/src/main/java/com/rex/busfinder/data/repository/BusRepository.kt:326-333 | every bus is listed at each of its own stops |
| RouteSearch.EmptyNameListsEveryBusWithStops | app/src/main/java/com/rex/busfinder/data/repository/BusRepository.kt:324-333 | a name normalising to "" lists exactly the buses that have stops |
| RouteSearch.CleanStopName | app/src/main/java/com/rex/busfinder/data/repository/BusRepository.kt:75-81 | the cleaned name is empty exactly when the stop is blank, and otherwise has no surrounding whitespace |
| RouteSearch.CleanStopNameNoEnDash | app/src/main/java/com/rex/busfinder/data/repository/BusRepository.kt:79 | no cleaned name holds an en dash |
| RouteSearch.CleanStopNameUnchanged | app/src/main/java/com/rex/busfinder/data/repository/BusRepository.kt:78-80 | a trimmed name without en dash or double space is listed unchanged |
| RouteSearch.CleanedNotBlank | app/src/main/java/com/rex/busfinder/data/repository/BusRepository.kt:75-81 | a non-blank stop never cleans to a blank name |
| RouteSearch.StopsOfExtend | app/src/main/java/com/rex/busfinder/data/repository/BusRepository.kt:61-71 | one more iteration adds exactly that bus's forward and backward stops to the set |
| RouteSearch.GatherStep | app/src/main/java/com/rex/busfinder/data/repository/BusRepository.kt:61-71 | after iteration i the set holds exactly the stops of the first i+1 buses |
| RouteSearch.CleanSortedNames | app/src/main/java/com/rex/busfinder/data/repository/BusRepository.kt:74-83 | the result is strictly ascending and holds exactly the cleaned names of the non-blank stops of the set |
| RouteSearch.GetAllStopNames | app/src/main/java/com/rex/busfinder/data/repository/BusRepository.kt:55-98 | strictly ascending, no name blank, and exactly the cleaned non-blank stops of any bus in either direction |
| History.Place | app/src/main/java/com/rex/busfinder/data/local/SearchHistoryDao.kt:9-16 | adds exactly one row, keeps the table newest first, and keeps ids unique when the new id is fresh |
| History.RemoveId | app/src/main/java/com/rex/busfinder/data/local/SearchHistoryDao.kt:21-22 | exactly the rows with the id are gone; order and uniqueness are kept |
| History.RemoveIdAt | app/src/main/java/com/rex/busfinder/data/local/SearchHistoryDao.kt:21-22 | with unique ids, deleting the id of row i removes that row and nothing else |
| History.SearchHistoryStore.constructor | app/src/main/java/com/rex/busfinder/data/model/SearchHistoryItem.kt:6-12 | an empty, valid table whose first generated key is 1 |
| History.SearchHistoryStore.InsertSearch | app/src/main/java/com/rex/busfinder/data/local/SearchHistoryDao.kt:15-16 | id 0 takes the next generated key; the row replaces any row with its id, in timestamp order; the table stays valid |
| History.SearchHistoryStore.UpdateSearch | app/src/main/java/com/rex/busfinder/data/local/SearchHistoryDao.kt:18-19 | a row with the id is replaced, in timestamp order; an unknown id changes nothing |
| History.SearchHistoryStore.DeleteSearch | app/src/main/java/com/rex/busfinder/data/local/SearchHistoryDao.kt:21-22 | the row with the id is gone and the table stays valid |
| History.SearchHistoryStore.ClearHistory | app/src/main/java/com/rex/busfinder/data/local/SearchHistoryDao.kt:24-25 | the table is empty; the key generator is not reset |
| History.FirstSameSearch | app/src/main/java/com/rex/busfinder/data/repository/BusRepository.kt:234-237 | the newest row matching both locations ignoring case, or -1 exactly when none does |
| History.KeepNewest | app/src/main/java/com/rex/busfinder/data/repository/BusRepository.kt:248-252 | the first min(n, 10) rows are kept, in order |
| History.KeepNewestDropsOlder | app/src/main/java/com/rex/busfinder/data/repository/BusRepository.kt:248-252 | on a newest-first table, every row that is cut is no newer than every row that is kept |
| History.InsertBranch | app/src/main/java/com/rex/busfinder/data/repository/BusRepository.kt:239-252 | a new search inserts the trimmed row under a fresh key and cuts the table to ten |
| History.DeleteBeyondNewest | app/src/main/java/com/rex/busfinder/data/repository/BusRepository.kt:248-252 | the loop deleting `drop(10)` leaves exactly the ten newest rows |
| History.SaveSearch | app/src/main/java/com/rex/busfinder/data/repository/BusRepository.kt:229-273 | the store ends as the saveSearch rule says, and stays valid: newest first, unique non-zero ids below the next key |
| History.RepeatedSearchOnlyRestamps | app/src/main/java/com/rex/busfinder/data/repository/BusRepository.kt:255-266 | a repeated search keeps the row count and changes only the matching row's timestamp |
| History.NewSearchIsCapped | app/src/main/java/com/rex/busfinder/data/repository/BusRepository.kt:239-252 | a new search leaves min(n+1, 10) rows, each an old row or the new one, and no old row that was cut is newer than a kept row |
| History.NewSearchComesFirst | app/src/main/java/com/rex/busfinder/data/repository/BusRepository.kt:240-245 | when the clock has not gone back, the new search heads the history |
| History.SavedRowsValid | app/src/main/java/com/rex/busfinder/data/repository/BusRepository.kt:229-273 | saving keeps the table invariant |
| History.SavedSearchIsFound | app/src/main/java/com/rex/busfinder/data/repository/BusRepository.kt:234-245 | after saving a trimmed search, the duplicate test finds it |
| History.SavingTwiceKeepsOneRow | app/src/main/java/com/rex/busfinder/data/repository/BusRepository.kt:234-266 | saving the same trimmed search twice adds no second row |
| History.PaddedSearchIsStoredTwice | app/src/main/java/com/rex/busfinder/data/repository/BusRepository.kt:234-242 | a search with surrounding blanks, saved twice into an empty table, leaves two rows |
| Fuzzy.ScanFrom | app/src/main/java/com/rex/busfinder/viewmodel/BusViewModel.kt:213-226 | the scan never un-matches a query character and never matches more than the query holds |
| Fuzzy.WordPoints | app/src/main/java/com/rex/busfinder/viewmodel/BusViewModel.kt:205-209 | a word earns 200, 50 or 0 |
| Fuzzy.CalculateFuzzyScore | app/src/main/java/com/rex/busfinder/viewmodel/BusViewModel.kt:186-240 | the loops compute the score of the specification: 1000 for an exact match, otherwise the prefix, substring, word, run and completion points less the length penalty, floored at 0 |
| Fuzzy.ScoreFloorAndExact | app/src/main/java/com/rex/busfinder/viewmodel/BusViewModel.kt:190 | every score is at least 0, and an exact match scores 1000 |
| Fuzzy.ScanFromSubsequence | app/src/main/java/com/rex/busfinder/viewmodel/BusViewModel.kt:217-226 | the scan matches the rest of the query exactly when it occurs in order in the rest of the item |
| Fuzzy.AllCharactersBonus | app/src/main/java/com/rex/busfinder/viewmodel/BusViewModel.kt:229-231 | the +100 bonus is given exactly when the query is a sub-list of the item |
| Fuzzy.ScanFromBound | app/src/main/java/com/rex/busfinder/viewmodel/BusViewModel.kt:217-226 | the sequence points lie between 0 and those of one run over the remaining query |
| Fuzzy.ScanFromPrefix | app/src/main/java/com/rex/busfinder/viewmodel/BusViewModel.kt:217-226 | when the rest of the query starts the rest of the item, every character extends the run |
| Fuzzy.PrefixScan | app/src/main/java/com/rex/busfinder/viewmodel/BusViewModel.kt:217-226 | a query that starts the item is matched in one run of 10+20+...+10n points |
| Fuzzy.WordBonusBound | app/src/main/java/com/rex/busfinder/viewmodel/BusViewModel.kt:204-210 | the word points lie between 0 and 200 per word |
| Fuzzy.ScoreUpperBound | app/src/main/java/com/rex/busfinder/viewmodel/BusViewModel.kt:192-239 | a non-exact match scores at most 800 + 200 per word + one full run + 100 |
| Fuzzy.ScanWithoutChar | app/src/main/java/com/rex/busfinder/viewmodel/BusViewModel.kt:217-226 | when the next query character is absent from the rest of the item, the scan stops matching and adds nothing |
| Fuzzy.WordBonusWithoutChar | app/src/main/java/com/rex/busfinder/viewmodel/BusViewModel.kt:204-210 | words lacking the query's first character earn nothing |
| Fuzzy.AbsentFirstCharScoresZero | app/src/main/java/com/rex/busfinder/viewmodel/BusViewModel.kt:184-240 | an item lacking the query's first character scores 0 |
| Fuzzy.Candidates | app/src/main/java/com/rex/busfinder/viewmodel/BusViewModel.kt:154-158 | exactly the items with a positive score, each paired with its score, in input order |
| Fuzzy.CandidatesCount | app/src/main/java/com/rex/busfinder/viewmodel/BusViewModel.kt:154-158 | every copy of a positively scored item is kept, and no copy of any other |
| Fuzzy.InsertByScore | app/src/main/java/com/rex/busfinder/viewmodel/BusViewModel.kt:162 | insertion adds one element and keeps scores non-increasing |
| Fuzzy.InsertByScoreStable | app/src/main/java/com/rex/busfinder/viewmodel/BusViewModel.kt:162 | the inserted element goes after every element of its own score; other scores' elements keep their order |
| Fuzzy.SortByScoreDesc | app/src/main/java/com/rex/busfinder/viewmodel/BusViewModel.kt:162 | `sortedByDescending` is a non-increasing permutation that keeps, for every score, its elements in input order (stability) |
| Fuzzy.Take | app/src/main/java/com/rex/busfinder/viewmodel/BusViewModel.kt:163 | the first min(n, limit) elements, in order: the whole list when it is short enough, exactly limit elements otherwise |
| Fuzzy.Ranked | app/src/main/java/com/rex/busfinder/viewmodel/BusViewModel.kt:154-162 | non-increasing, and exactly the items with a positive score, each with its score |
| Fuzzy.FuzzySearch | app/src/main/java/com/rex/busfinder/viewmodel/BusViewModel.kt:148-165 | a blank query or no items gives []; otherwise at most limit items, each an input item with a positive score, best first |
| Fuzzy.FuzzySearchIsRankedPrefix | app/src/main/java/com/rex/busfinder/viewmodel/BusViewModel.kt:160-164 | the result is the names of the first `limit` ranked candidates |
| Fuzzy.FuzzySearchKeepsBest | app/src/main/java/com/rex/busfinder/viewmodel/BusViewModel.kt:160-164 | a positively scored item left out means the list is full and every kept item scores at least as much |
| FuzzyExamples.GabtoliScore | app/src/main/java/com/rex/busfinder/viewmodel/BusViewModel.kt:182 | "gab" vs "gabtoli" scores 1152 |
| FuzzyExamples.GabtoliBusStandScore | app/src/main/java/com/rex/busfinder/viewmodel/BusViewModel.kt:183 | "gab" vs "gabtoli bus stand" scores 1132 |
| FuzzyExamples.MohakhaliScore | app/src/main/java/com/rex/busfinder/viewmodel/BusViewModel.kt:184 | "xyz" vs "mohakhali" scores 0 |
| FuzzyExamples.ShorterNameRanksFirst | app/src/main/java/com/rex/busfinder/viewmodel/BusViewModel.kt:233-237 | for "gab", "Gabtoli" outscores "Gabtoli Bus Stand", and both score above 0 |
| ViewModel.SuggestionsFor | app/src/main/java/com/rex/busfinder/viewmodel/BusViewModel.kt:242-252 | a blank query or no stop names gives []; otherwise at most five stop names with positive scores, best first |
| ViewModel.SuggestionsKeepBest | app/src/main/java/com/rex/busfinder/viewmodel/BusViewModel.kt:251 | a positively scored stop left out means five suggestions are shown, each scoring at least as much |
| ViewModel.BusViewModel.constructor | app/src/main/java/com/rex/busfinder/viewmodel/BusViewModel.kt:76-96 | the routes and the stored history are loaded, the stop names are the ascending cleaned list, and every query, suggestion and result field starts empty |
| ViewModel.BusViewModel.UpdateFromQuery | app/src/main/java/com/rex/busfinder/viewmodel/BusViewModel.kt:282-289 | the origin query is set; the destination suggestions are cleared only for a non-empty query; nothing else changes |
| ViewModel.BusViewModel.UpdateToQuery | app/src/main/java/com/rex/busfinder/viewmodel/BusViewModel.kt:291-298 | the destination query is set; the origin suggestions are cleared only for a non-empty query; nothing else changes |
| ViewModel.BusViewModel.UpdateFromSuggestions | app/src/main/java/com/rex/busfinder/viewmodel/BusViewModel.kt:242-260 | the origin suggestions become the suggestion list for the query; nothing else changes |
| ViewModel.BusViewModel.UpdateToSuggestions | app/src/main/java/com/rex/busfinder/viewmodel/BusViewModel.kt:262-280 | the destination suggestions become the suggestion list for the query; nothing else changes |
| ViewModel.BusViewModel.SearchBuses | app/src/main/java/com/rex/busfinder/viewmodel/BusViewModel.kt:300-323 | a blank field empties the results and the label and leaves the history alone; otherwise the results are the direct routes, the label is "Direct routes", the search is saved and the shown history is the table |
| ViewModel.BusViewModel.ShowDirectRoutes | app/src/main/java/com/rex/busfinder/viewmodel/BusViewModel.kt:311-312 | the results and the "Direct routes" label are published; nothing else changes |
| ViewModel.BusViewModel.SaveAndReload | app/src/main/java/com/rex/busfinder/viewmodel/BusViewModel.kt:313-314 | the table ends as the saveSearch rule says, stays valid, and is what the view model shows; nothing else changes |
| ViewModel.BusViewModel.ClearSearchHistory | app/src/main/java/com/rex/busfinder/viewmodel/BusViewModel.kt:381-390 | the table and the shown history are empty; nothing else changes |
| ViewModel.BusViewModel.ClearSearches | app/src/main/java/com/rex/busfinder/viewmodel/BusViewModel.kt:392-397 | both queries and both suggestion lists are empty; nothing else changes |

## Left out

- Loading `bus_routes.json` with Gson, and the Room database plumbing (`BusDatabase`, `getSearchHistoryDao`), are I/O. The route list and the table enter the model as values.
- The try/catch fallbacks are left out: the empty list, null, and the "Error" label. Nothing in the in-memory model can throw.
- Coroutines are left out: `withContext`, `viewModelScope.launch`, Flow collection, and the 300 ms debounce with its job cancellation. Each coroutine is modelled as running to completion in one method call, and the suggestion update as its own method.
- `isLoading` and the transient "Searching..." label are left out. They are visible only while a coroutine is suspended.
- `println` debug output is left out, and so is the debug `getBusRoute` in `BusViewModel`: it only logs and forwards to the repository's `getBusRoute`, which is modelled.
- `searchBusesWithConnections` is left out. It calls `findMultiHopJourney`, which is not part of this model.
- `getRecentSearches` and `deleteSearchHistoryItem` are not separate members. They read `rows` and call `DeleteSearch` respectively.
- `lowercase` and `trim` are modelled over ASCII: 'A'-'Z' fold, and space, tab, line feed, vertical tab, form feed, carriage return and the four separators U+001C to U+001F are whitespace, as Kotlin's `isWhitespace` has them. Kotlin's Unicode case mapping and its Unicode whitespace are not modelled.
- Strings are sequences of Unicode code points, while Kotlin's `length` and `compareTo` count and compare UTF-16 code units. The two agree on text below U+10000. Above it, a length or an order can differ.
- Kotlin `Int` overflow in the score is not modelled; scores are unbounded integers.
- History.Place: SQLite does not specify the order of rows with equal timestamps. The model puts the row being written before older rows of the same timestamp.
- RouteSearch.CleanStopName: its contract states blankness, trimming and the absence of en dashes. `CleanStopNameNoEnDash` and `CleanStopNameUnchanged` state the rest, not the position-by-position effect of the double-space pass.
- Fuzzy.FuzzySearch: `limit` is a `nat`. Kotlin's `take` rejects a negative limit, and every caller passes 5.
