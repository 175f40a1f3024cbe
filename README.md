# pgvcardchecker change detector, in Dafny

pgvcardchecker is a one-shot Go program. It downloads a published vCard
file of PagerDuty outgoing phone numbers and collects every telephone (`TEL`)
value of every card. It sorts the values and joins them with `|` into one
token. It then compares the token with the one stored in Redis under the key
`PDPhoneNumbers`. When the two differ, it raises a desktop alert and stores
the new token. Any error ends the process through `log.Fatal`.

This project models that change detector, from the decoder's output onward:

- `go_strings.dfy` (module `GoStrings`): Go strings as byte sequences. It
  defines Go's string order (`<`, used by `sort.Strings`) and proves it a
  strict total order. It also defines `strings.Join`, with lemmas that place
  every element and every separator in the result.
- `sorting.dfy` (module `Sorting`): `sort.Strings`. `SortInPlace` is an
  in-place sort of an array and is proved to produce a sorted permutation.
  Its specification is the functional `SortStrings`. `SortedUnique` shows
  that any two sorted permutations of the same list are equal.
- `outcomes.dfy` (module `Outcomes`): the error kinds (transport, decode,
  Redis), and `Option` and `Result`.
- `extraction.dfy` (module `Extraction`): `downloadVcfCardAndGetPhoneNumbers`.
  The HTTP response is either a transport error or a body. A body is given as
  the sequence of results its vCard decoder would return, one per `Decode()`
  call, followed by EOF. `CollectTelephones` is the decode loop and
  `DownloadVcfCardAndGetPhoneNumbers` adds the sort. `CollectTelephones` is
  proved to return the decode error, or else the unsorted telephone values
  of the cards before EOF (`Telephones` of `CardsBeforeEnd`).
  `DownloadVcfCardAndGetPhoneNumbers` is proved equal to the specification
  `Extracted`. The lemmas cover order, count, membership
  and reordering of the extracted values.
- `host.dfy` (module `Host`): the world outside the process, as the class
  `World`. It has one mutable field for the Redis cell and a log of effects:
  each GET, each SET and each alert, in order. Whether a Redis round trip
  fails is an input.
- `checker.dfy` (module `Checker`): `main`. `Expected` gives the whole run
  (exit, final cell, effects) as a function of the stored token, the
  response and the two Redis faults. `CheckOnce` runs the steps against a
  `World` and is proved to match `Expected`. The lemmas state what a run
  promises: an abort before any effect, a no-op when nothing changed, and
  alert-then-write when something changed. They also cover idempotence, order
  independence, and the worked scenarios of a first, second and third run.

Two details of the code shape the model:

- The code checks only the transport error of `http.Get` (main.go:54-57).
  The body of a non-success response is decoded like any other, so only a
  transport error or a decode error ends the download.
- The alert's result is ignored (main.go:93), so a failed alert is never
  fatal. The alert is raised before the SET, so a failed SET still leaves an
  alert behind (`ChangedAlertsThenWrites`).

The token is not a faithful encoding of the list. Numbers may contain `|`,
and the empty list and the list holding one empty number both give `""`
(`TokenNotInjective`). An empty list of numbers therefore matches an empty
or never-set cell (`NoNumbersMatchEmptyCell`). Adding a number to a
non-empty list always changes the token (`AddedNumberChangesToken`).

## Model

| member | source | states |
|---|---|---|
| GoStrings.Less | main.go:78 | defines Go's `<` on strings, the order `sort.Strings` sorts by: the first differing byte decides, compared as unsigned, and a proper prefix comes first |
| GoStrings.LessIrreflexive | main.go:78 | no string sorts before itself under Go's byte-wise string order |
| GoStrings.LessTransitive | main.go:78 | Go's string order is transitive |
| GoStrings.LessTrichotomy | main.go:78 | any two strings are ordered one way or the other, or are equal |
| GoStrings.LessAsymmetric | main.go:78 | `a < b` rules out `b < a` |
| GoStrings.LessEqAntisymmetric | main.go:78 | strings that are each `<=` the other are equal |
| GoStrings.LessEqTransitive | main.go:78 | `<=` on strings is transitive |
| GoStrings.PrefixIsLess | main.go:78 | a proper prefix sorts before the longer string |
| GoStrings.Join | main.go:43 | defines `strings.Join`: no elements give the empty string, one element gives itself, and otherwise the separator sits between neighbouring elements |
| GoStrings.JoinLength | main.go:43 | the joined token is the total length of the numbers plus one separator between each neighbouring pair, and empty for no numbers |
| GoStrings.JoinElementAt | main.go:43 | each number appears unchanged in the token, after the numbers before it and one separator behind each |
| GoStrings.JoinSeparatorAfter | main.go:43 | a separator follows every number except the last |
| Sorting.Insert | main.go:78 | inserting into a sorted list keeps it sorted and adds exactly that string |
| Sorting.SortStrings | main.go:78 | the reference sort returns a sorted permutation of its input |
| Sorting.SortedUnique | main.go:78 | two sorted lists with the same multiset of strings are equal, so the sort result is unique |
| Sorting.SortStringsPermutationInvariant | main.go:78 | the sorted list depends only on the multiset of the input |
| Sorting.SumLengthsSorted | main.go:78 | sorting keeps the total length of the strings |
| Sorting.Swap | main.go:78 | an exchange of two slots keeps every other slot and the multiset |
| Sorting.InsertAt | main.go:78 | one insertion step leaves the first `i + 1` slots sorted and a permutation of what they held, and every later slot unchanged |
| Sorting.SortInPlace | main.go:78 | `sort.Strings` leaves the array sorted, a permutation of its old contents, and equal to `SortStrings` of them |
| Extraction.Values | main.go:73 | defines `card.Values(name)`: the values of the named property in card order, and none when the card lacks it |
| Extraction.CardsBeforeEnd | main.go:64-71 | defines the cards the loop reads: the decoded cards up to the first EOF or error |
| Extraction.CardsBeforeEndLeading | main.go:64-71 | the cards the loop reads are exactly the leading parsed steps, in order, and the step after them, if any, is EOF or an error |
| Extraction.EndOf | main.go:64-71 | decoding ends at EOF or at an error, never at a card |
| Extraction.DecodeFrom | main.go:65-71 | a card at the decoder's position is the next card read; EOF, an error, or running out ends decoding there |
| Extraction.Telephones | main.go:62-76 | defines the values the loop collects: each card's telephone values in card order, the cards in decode order |
| Extraction.TelephonesConcat | main.go:62-76 | the values of two runs of cards are the values of the first run followed by those of the second |
| Extraction.TelephonesAppend | main.go:73-75 | decoding one more card appends exactly its telephone values, in their order |
| Extraction.TelephonesLength | main.go:62-76 | nothing is deduplicated or dropped: the count is the sum of the per-card counts |
| Extraction.TelephoneAt | main.go:62-76 | value `k` of card `i` sits right after the values of the earlier cards, so cards keep decode order and values keep card order |
| Extraction.TelephonesMembers | main.go:62-76 | a string is extracted exactly when some card has it as a telephone value |
| Extraction.TelephonesWithout | main.go:62-76 | removing one card removes exactly its telephone values from the multiset |
| Extraction.TelephonesCardPermutation | main.go:62-76 | reordering the cards leaves the multiset of extracted values unchanged |
| Extraction.TelephonesValuePermutation | main.go:73-75 | reordering the values inside each card leaves the multiset of extracted values unchanged |
| Extraction.Extracted | main.go:52-81 | the download yields the transport error, or the decode error that ended the loop, or else a sorted permutation of the telephone values of the cards before EOF |
| Extraction.AppendValues | main.go:73-75 | the inner range loop appends all of a card's values, in order |
| Extraction.CollectTelephones | main.go:62-76 | the decode loop returns the decode error if decoding ends in one, and otherwise every telephone value of the cards before EOF |
| Extraction.DownloadVcfCardAndGetPhoneNumbers | main.go:52-81 | the download step returns the transport or decode error, or else the extracted values sorted and as a permutation (equal to `Extracted`) |
| Host.World.GetNumbersFromRedis | main.go:83-90 | one GET, which returns the cell or the round-trip error and leaves the cell unchanged |
| Host.World.StorePhoneNumbers | main.go:92-97 | an alert and then one SET; the cell holds the new token after a successful SET and is unchanged after a failed one, whose error is returned |
| Host.StoreThenRead | main.go:83-97 | a successful SET followed by a successful GET returns the stored token, which the cell then holds |
| Checker.Token | main.go:43 | defines the token: the numbers joined by `strings.Join` with the one-byte vertical-bar separator |
| Checker.FreshToken | main.go:33-43 | defines the token of a download: the token of the extracted numbers, or the error that stopped the download |
| Checker.Expected | main.go:32-50 | defines a whole run of `main` (exit, final cell, effects in order) from the stored token, the response and the two Redis faults |
| Checker.CheckOnce | main.go:32-50 | `main` ends, leaves the cell and logs the effects exactly as `Expected` says |
| Checker.TokenDependsOnlyOnMultiset | main.go:78 | lists with the same multiset of numbers give the same token |
| Checker.CardOrderIrrelevant | main.go:62-78 | documents with the same cards in another order lead to the same run |
| Checker.ValueOrderIrrelevant | main.go:73-78 | documents whose cards hold the same values in another order lead to the same run |
| Checker.DownloadErrorAbortsFirst | main.go:33-36 | a failed download ends the run fatally with no GET, SET or alert and the cell untouched; only such a run has no effects |
| Checker.DecodeErrorDiscardsCards | main.go:64-71 | after a decode error the cards read before it do not matter, and the run ends with that error |
| Checker.UnchangedIsNoOp | main.go:43-49 | when the stored token equals the fresh one, the run reads once and does nothing else |
| Checker.ChangedAlertsThenWrites | main.go:44-48 | when they differ, the run reads, alerts once, then writes the fresh token once; success stores it, and failure leaves the cell and ends fatally after the alert |
| Checker.AlertExactlyWhenChanged | main.go:38-49 | every run has at most one GET, one alert and one SET; it alerts exactly when it writes, which is exactly when download and GET succeed and the tokens differ; the cell only ever changes to the fresh token |
| Checker.SecondRunIsNoOp | main.go:43-49 | after a completed run, a second run on the same document neither alerts nor writes, whatever its Redis round trips do |
| Checker.NoNumbersMatchEmptyCell | main.go:43-44 | a document with no telephone values matches an empty or never-set cell, so nothing is reported |
| Checker.TokenNotInjective | main.go:43 | distinct lists can give the same token (a number containing the separator; the empty list and one empty number) |
| Checker.AddedNumberChangesToken | main.go:43 | one more number added to a non-empty list always changes the token |
| Checker.OneCardToken | main.go:73-78 | a document with one card yields that card's numbers, sorted and joined |
| Checker.TwoNumbersToken | main.go:78 | two numbers sort to the same list in either order, and join as the smaller, the separator, the larger |
| Checker.FirstRunStoresSortedToken | main.go:32-50 | first run on "+1 222", "+1 111" against an empty cell: one alert, and the two numbers are stored in ascending order, separated by a vertical bar |
| Checker.ReorderedSecondRunIsNoOp | main.go:43-49 | the next run on the same numbers in the other order reads the cell and does nothing else |
| Checker.AddedNumberRun | main.go:43-49 | a document with one more number than the stored non-empty list is reported once and its new token is stored |
| Checker.AddedNumberIsReported | main.go:43-49 | adding "+1 333" to the stored two numbers is reported once and a new token is stored |

## Left out

- The HTTP request (main.go:53-58) is network I/O. Its result is an input,
  either a transport error or a body. The response status is not checked by
  the code and is not modelled.
- vCard decoding (main.go:60, 65, 73) is a foreign library. A body is the
  sequence of `Decode()` results, followed by EOF. A card is a map from
  property name to values; parameters and groups are not modelled.
- The Redis connection pool (main.go:20-30), its failure in `init` and the
  Redis wire protocol are not modelled. GET and SET are one round trip each
  on a single cell, and whether a round trip fails is an input. What radix
  returns for an absent key is not modelled: the initial cell is any string,
  possibly empty.
- Host.World.StorePhoneNumbers: a failed SET is assumed not to have been
  applied, so the cell keeps its old value. Redis may have applied a SET
  whose reply was lost; the one-cell model does not capture that case.
- The desktop notification (main.go:93) is recorded as an `Alert` effect
  with its title, message and "sticky" flag. Its empty icon argument and its
  ignored return value are not modelled.
- `log.Fatal` is the `Fatal` exit value. The log line and the process exit
  are not modelled.
- Extraction.DownloadVcfCardAndGetPhoneNumbers: on a decode error the Go
  function also returns the partial, unsorted slice. The model returns only
  the error, because `main` discards the slice (main.go:33-36).
- Sorting.SortInPlace: Go's `sort.Strings` uses pattern-defeating quicksort;
  the model uses insertion sort. Both produce the same sorted list
  (`SortedUnique`); the sequence of comparisons and swaps is not modelled.
- Go slices are modelled as sequences. The sort runs on an array copy of
  the collected list, so slice aliasing and capacity are not modelled.
- Two overlapping runs racing on the same Redis key are not modelled;
  each run is sequential.
- No inverse of the token is modelled, because the code promises none
  (`TokenNotInjective` shows why none exists).
