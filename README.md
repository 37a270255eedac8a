# Locks analyser: corpus merge and range analysis

A model of the two pieces of logic inside `app.py` of the locks analyser, a
small Streamlit page for counting lock levers ("сувальды").

**Corpus merge.** Every row of an uploaded spreadsheet is an identifier plus a
list of integers. Rows are merged into an ordered corpus. The first record
with the same identifier has its values overwritten in place. A row with a new
identifier is appended. Later rows win. This is the class `Corpus.Store`. Its
methods are proved against the functions `Upserted` and `UpsertedAll`, and the
lemmas beside them state what a merge changes and what it keeps.

**Range analysis.** The request names two identifiers and an optional "SKAT"
mode. The analysis then:

1. keeps the records whose identifier lies between the bounds under Python's
   string order, both ends inclusive (`LexOrder`);
2. in SKAT mode, drops the last value of every record that has more than one;
3. counts each value and doubles the count;
4. buckets every occurrence by its stamp, the absolute difference of its two
   decimal digits (`Digits.Stamp`);
5. in each bucket, walks the distinct values in ascending order with a visited
   set. A value whose digit reversal (`Digits.Mirror`) is a different value of
   the same bucket is emitted as a pair with it. Any other value is emitted
   alone.

Each loop of the source is a method with loop invariants (`Filter`,
`DropLastEach`, `CountValues`, `GroupByStamp`, `PairMirrors`, `PairAllGroups`,
`Analyze`). Each is proved equal to a function on values. The guarantees are
proved as lemmas about those functions:

- doubled counts;
- the set of stamps;
- a partition of the distinct values into entries;
- the pair facts: mirror symmetry, same stamp, ascending order;
- the palindrome rule.

The pairing walk has a second, independent definition, `EntriesOf`, with no
visited set. The loop is proved to compute exactly that definition.

Values are modelled as the two-digit integers 10..99, which is the domain the
analysis is written for. Identifiers are `string`s. The result of an analysis
is a map from stamp to its list of entries.

The corpus is treated as a mapping from identifier to record, but the code
keeps a list and merges into the first record with the identifier. The model
follows the code. The lemmas `UpsertedKeepsUniqueIds` and
`UpsertedAllKeepsUniqueIds` show that a corpus with unique identifiers keeps
them unique.

## Model

| member | source | states |
|---|---|---|
| Digits.Stamp | app.py:84 | The stamp of a two-digit value is between 0 and 9 and is the difference of its two digits in one order or the other. |
| Digits.Mirror | app.py:94 | The reversal of a two-digit value has the value's second digit first and its first digit second (a leading zero disappears, as `int` drops it). |
| Digits.MirrorTwoDigit | app.py:94 | The reversal is again a two-digit value exactly when the second digit is not 0. |
| Digits.MirrorInvolutive | app.py:94 | Reversing twice gives the value back when the first reversal is two-digit. |
| Digits.MirrorSymmetric | app.py:94-99 | `a` reverses to `b` exactly when `b` reverses to `a`, so marking both visited is consistent. |
| Digits.MirrorKeepsStamp | app.py:84-94 | A value and its reversal have the same stamp, so a mirror is always looked for in the right bucket. |
| Digits.PalindromeIff | app.py:84-96 | A value is its own reversal exactly when its digits are equal, exactly when its stamp is 0. |
| LexOrder.LexLeReflexive | app.py:71 | String `<=` holds between a string and itself. |
| LexOrder.LexLeAntisymmetric | app.py:71 | String `<=` in both directions means equality. |
| LexOrder.LexLeTransitive | app.py:71 | String `<=` is transitive. |
| LexOrder.LexLeTotal | app.py:71 | Any two strings are related by string `<=` one way or the other. |
| LexOrder.BoundsIncluded | app.py:71 | When `start <= end`, both bounds lie in the range. |
| LexOrder.OutsideExcluded | app.py:71 | An identifier strictly above `end` or strictly below `start` is not in the range. |
| Corpus.FindById | app.py:30 | The search returns the position of the first record with the identifier, or None exactly when no record has it. |
| Corpus.UpsertedReplacesFirst | app.py:30-32 | With a matching record, merging replaces the values of the first match and changes nothing else (same length, same order, same identifiers). |
| Corpus.UpsertedAppends | app.py:30-34 | With no matching record, merging appends the row and leaves every record in place. |
| Corpus.UpsertedLookup | app.py:30-34 | After a merge, the row's identifier reads back the row's values and every other identifier reads back what it read before. |
| Corpus.UpsertedIds | app.py:30-34 | A merge adds the row's identifier to the identifiers and no other. |
| Corpus.UpsertedKeepsUniqueIds | app.py:30-34 | A corpus whose identifiers are unique keeps them unique after a merge. |
| Corpus.UpsertedAllLookup | app.py:25-34 | After a batch, an identifier the batch carries reads back the values of the last row with it (later rows win), and any other identifier reads back its old values. |
| Corpus.UpsertedAllKeepsUniqueIds | app.py:25-34 | A batch keeps the identifiers of the corpus unique. |
| Corpus.Store.constructor | app.py:21-24 | The store starts from the stored corpus, or empty when nothing was stored. |
| Corpus.Store.Upsert | app.py:30-34 | The in-place merge of one row leaves exactly `Upserted(old records, row)`. |
| Corpus.Store.Ingest | app.py:25-34 | Merging the rows of a batch in order leaves exactly `UpsertedAll(old records, rows)`. |
| SortedSets.Insert | app.py:88 | Inserting into an ascending list keeps it strictly ascending and adds exactly the inserted value. |
| SortedSets.SortedDistinct | app.py:88 | `sorted(set(nums))` is strictly ascending and holds exactly the values of `nums`. |
| MirrorPairing.PairMirrors | app.py:88-103 | The walk with its visited set produces exactly the reference list `EntriesOf` over the sorted distinct values. |
| MirrorPairing.WalkStep | app.py:91-102 | At each step a value is already visited exactly when its smaller mirror is present, and the visited set the loop builds is the one the invariant needs next. |
| MirrorPairing.EntriesOfFacts | app.py:94-102 | Every emitted entry is a walked value with its count; a pair holds a different, larger mirror that is present, with its own count; a single value's mirror is itself or absent. |
| MirrorPairing.EntriesOfAscending | app.py:88-91 | Entries come out in ascending order of `number`. |
| MirrorPairing.AccountedStep | app.py:96-102 | One step of the walk newly covers exactly the emitted value and its mirror, neither covered before. |
| MirrorPairing.EmittedStep | app.py:96-102 | One step of the walk adds exactly the values of the emitted entry to what has been emitted. |
| MirrorPairing.MembersUpTo | app.py:91-102 | After any number of steps, every covered value has been emitted exactly once and nothing else has been emitted. |
| MirrorPairing.MirrorEntriesPartition | app.py:88-103 | Every distinct value of a bucket appears exactly once among the entries (as `number` or as `mirror`), and no other value appears. |
| MirrorPairing.MirrorEntriesFacts | app.py:94-102 | Entries ascend; each has its value's count; a pair's mirror is the value's reversal, is present, reverses back, has the same stamp, is larger and has its own count; a value is single exactly when it is its own reversal or its reversal is absent. |
| MirrorPairing.PalindromeUnpaired | app.py:96-102 | A value with equal digits is emitted alone with its count. |
| MirrorPairing.MirrorEntriesPalindrome | app.py:96-102 | A value with equal digits in a bucket is emitted alone with its count. |
| RangeAnalysis.Filter | app.py:70-71 | The comprehension's loop produces exactly `Filtered(corpus, start, end)`. |
| RangeAnalysis.FilteredMembers | app.py:70-71 | A record is kept exactly when it is in the corpus and its identifier lies between the bounds, both inclusive. |
| RangeAnalysis.FilteredConcat | app.py:70-71 | Filtering distributes over concatenation, so kept records keep their relative order. |
| RangeAnalysis.DropLastEach | app.py:72-75 | The SKAT loop produces exactly `Trimmed(view)`. |
| RangeAnalysis.TrimmedFacts | app.py:72-75 | Under SKAT a record with more than one value loses exactly its last value, any other record is unchanged, so no record is emptied, and identifiers and positions are kept. |
| RangeAnalysis.CountedMultiplicity | app.py:76-79 | The tally built by `counts.get(num, 0) + 1` has exactly the occurring values as keys, each with its number of occurrences. |
| RangeAnalysis.CountedDoubled | app.py:80 | Doubling the tally gives twice each value's number of occurrences, with no other key. |
| RangeAnalysis.CountValues | app.py:76-80 | The counting loops produce exactly the doubled occurrence count of every value of the view, and no other key. |
| RangeAnalysis.WithStampMembers | app.py:81-85 | A bucket holds exactly the occurrences of its stamp. |
| RangeAnalysis.WithStampSnoc | app.py:85 | Appending one occurrence extends only the bucket of its stamp. |
| RangeAnalysis.StampGroupsSnoc | app.py:84-85 | `groups.setdefault(diff, []).append(num)` turns the buckets of the occurrences so far into the buckets with one more occurrence. |
| RangeAnalysis.StampGroupsFacts | app.py:81-85 | Every occurring value has the bucket of its stamp; only stamps 0 to 9 have buckets, none of them empty; bucket `d` holds exactly the values of stamp `d`. |
| RangeAnalysis.GroupByStamp | app.py:81-85 | The grouping loops produce exactly `StampGroups` of the view's occurrences. |
| RangeAnalysis.PairAllGroups | app.py:86-103 | The loop over the buckets maps each stamp to the pairing walk over its bucket, and holds no other stamp. |
| RangeAnalysis.Analyze | app.py:63-103 | No stored corpus gives `NoStoredData`; an empty bound gives `InvalidRangeInput`; otherwise the result is `MirrorGroups` of the occurrences of the filtered, optionally trimmed view. |
| RangeAnalysis.AnalysisStamps | app.py:81-87 | The result has a group for the stamp of every occurring value, and every group's stamp is between 0 and 9 and is the stamp of an occurring value. |
| RangeAnalysis.AnalysisPartition | app.py:86-103 | Each distinct occurring value appears exactly once in the result, in the group of its stamp, and nothing else appears. |
| RangeAnalysis.AnalysisEntries | app.py:76-103 | Entries of a group ascend; each occurs, has the group's stamp and twice its number of occurrences as count; a pair holds the value's larger reversal, which occurs, with its own doubled count; a single value's reversal is itself or does not occur. |
| RangeAnalysis.AnalysisPalindromes | app.py:94-102 | A value with equal digits that occurs is always single, in group 0, with twice its number of occurrences. |
| AnalysisExample.WorkedExample | app.py:76-103 | For the records [12, 21, 33, 45] and [21, 21], stamp 0 holds 33 alone with count 2, stamp 1 holds the pair 12/21 with counts 2 and 6 and 45 alone with count 2, and no other stamp has a group. |

## Left out

- The Streamlit page (config, headers, columns, buttons, checkbox, text inputs, messages, the display loop): presentation only.
- Reading spreadsheets with `pandas.read_excel` and parsing the cells with `strip` and `int` (app.py:26-29): a foreign library and string parsing. The model merges rows that are already `(id, values)` records, and `Store.Ingest` takes them as one batch in file order.
- JSON persistence: loading and saving `raw_data.json` and `mirror_groups.json`, and the manual edit-and-save box (app.py:22-24, 35-52, 69, 104-105). This is file I/O. The stored corpus is a parameter, `None` when no file exists.
- The order of keys in `mirror_groups`: Python keeps the order in which stamps are first met. The model's result is a map, so only the set of stamps and each stamp's entry list are modelled.
- Values outside 10..99. For a value below 10 or a negative value, `str(num)[1]` or `int('-')` raises, and the source stops. A value of 100 or more is processed with a stamp from its first two digits and a mirror reversing all digits. Every analysis member requires two-digit values (`AllTwoDigit`), so neither behaviour is modelled.
- Analyze: the source shows the number of kept records (app.py:106). That count is the length of the view and is not part of the result.
- Corpus.Store.Upsert: the source tests `if existing:` on the found record. A record always has two keys, so the record is always truthy and the test is modelled as "a record was found". Aliasing between the found dict and the list is modelled as replacing the record at its position.
- RangeAnalysis.Filter: the source copies each kept record's values (`list(...)`), so SKAT never changes the corpus. The model works on values, so the corpus cannot change.
