# Java stream pipelines, modelled in Dafny

`JavaStreams.main` is a demonstration program. It runs fourteen small
`java.util.stream` pipelines, one after another, over integer ranges,
arrays of names, lines of a band file and lines of a CSV data file. This
project restates every pipeline except block 13 (a `double` reduction) as a
pure function of its input, and proves what each pipeline promises. Lines
read from a file are passed in as a `seq<string>`. What a pipeline prints is
modelled as the sequence, map or value it produces.

Modules:

- `Wrappers`: `Option` and `Result`.
- `JavaInt`: Java's 32-bit `int`, its wrap-around arithmetic (`Wrap`),
  `Integer.parseInt` (`ParseInt`, returning a `Result`) and
  `Integer.toString` (`IntToString`).
- `JavaString`: the `String` methods the pipelines call:
  - `compareTo`, giving the natural order used by `sorted()`;
  - `startsWith` and `contains`;
  - `toLowerCase`, on ASCII letters only;
  - `split` on a one-character separator, with Java's removal of trailing
    empty fields.
- `Streams`: the stream operations `filter`, `map`, `skip`, `findFirst` and
  `sorted`, on finite sequential streams.
- `IntStreams`: `IntStream.range`, `sum` (wrapping at 32 bits) and
  `summaryStatistics`.
- `JavaStreams`: the blocks of `main`:
  - the CSV record pipeline of blocks 10–12, with its two exceptions
    (`NumberFormat`, `DuplicateKey`) carried as error values;
  - the example inputs of the program, with the results its comments state.

Block 11 is lazy. Rows before a record whose field 1 does not parse have
already been printed when `parseInt` throws. `SelectRows` therefore returns
the rows emitted so far together with the exception, if any (`Emitted`).
Block 12 collects with `Collectors.toMap`, which has no merge function. The
first key met twice, in encounter order, ends the pipeline with an
`IllegalStateException` (`DuplicateKey`).

## Model

| member | source | states |
|---|---|---|
| JavaInt.Wrap | Streams/JavaStreams.java:62 | the `(int)` narrowing of a `long`: the result is an `int`, congruent to the input modulo 2^32, and equal to the input when the input already fits |
| JavaInt.WrapAdd | Streams/JavaStreams.java:25 | wrapping an intermediate sum does not change the wrapped total, so `int` addition may wrap at every step |
| JavaInt.ParseInt | Streams/JavaStreams.java:70 | `Integer.parseInt`: an accepted value fits in an `int` and comes from a non-empty string; a rejected string is reported as itself |
| JavaInt.ParseIntAccepts | Streams/JavaStreams.java:70 | an optional sign followed by one or more ASCII digits is accepted with its signed value when that value fits in an `int`, and rejected as itself otherwise |
| JavaInt.ParseIntShape | Streams/JavaStreams.java:70 | every accepted string is an optional sign followed by ASCII digits only |
| JavaInt.IntToString | Streams/JavaStreams.java:70 | the inverse of `parseInt`, used to state its round trip: `Integer.toString` writes a minus sign exactly for negative values, then a non-empty run of digits with no leading zero except for 0 itself |
| JavaInt.ParseIntToString | Streams/JavaStreams.java:70 | `parseInt` reads back every `int` that `Integer.toString` writes |
| JavaInt.ParseIntExamples | Streams/JavaStreams.java:70 | "17", "+5", "-007" and "-2147483648" are accepted with their values; "2147483648", "", "-", " 17" and "2.8" are rejected |
| JavaString.CompareTo | Streams/JavaStreams.java:29 | `compareTo` is zero exactly on equal strings |
| JavaString.CompareToAntisymmetric | Streams/JavaStreams.java:29 | `a.compareTo(b)` is the negation of `b.compareTo(a)` |
| JavaString.LessEqReflexive | Streams/JavaStreams.java:29 | every string comes no later than itself |
| JavaString.LessEqTotal | Streams/JavaStreams.java:29 | any two strings are ordered one way or the other |
| JavaString.LessEqAntisymmetric | Streams/JavaStreams.java:37 | two strings each no later than the other are equal |
| JavaString.LessEqTransitive | Streams/JavaStreams.java:50 | the natural order of strings is transitive |
| JavaString.StartsWith | Streams/JavaStreams.java:36 | `startsWith(p)` holds exactly when `p` is no longer than the string and agrees with it position by position |
| JavaString.StartsWithChar | Streams/JavaStreams.java:36 | `startsWith` a one-character prefix holds exactly when the first character is that character |
| JavaString.Contains | Streams/JavaStreams.java:57 | a contained string is no longer than the container, and the empty string is contained in every string |
| JavaString.ContainsAt | Streams/JavaStreams.java:57 | `contains(t)` holds exactly when some suffix of the string starts with `t` |
| JavaString.LowerChar | Streams/JavaStreams.java:45 | a capital ASCII letter becomes the letter 32 code points later; any other character is unchanged; no capital letter is left |
| JavaString.ToLowerCase | Streams/JavaStreams.java:45 | `toLowerCase` keeps the length and lowercases each character in place |
| JavaString.ToLowerCaseIdempotent | Streams/JavaStreams.java:45 | lowercasing twice is lowercasing once, and the result has no capital letter |
| JavaString.Pieces | Streams/JavaStreams.java:62 | the pieces between separators: at least one, none holding the separator |
| JavaString.PiecesCount | Streams/JavaStreams.java:62 | there is one more piece than the string has separators |
| JavaString.JoinPieces | Streams/JavaStreams.java:62 | joining the pieces with the separator gives back the string |
| JavaString.PiecesOfPiece | Streams/JavaStreams.java:62 | a string without the separator is its own single piece |
| JavaString.PiecesJoin | Streams/JavaStreams.java:62 | splitting a join of separator-free pieces gives back the pieces |
| JavaString.DropTrailingEmpty | Streams/JavaStreams.java:62 | the result is the longest prefix that does not end in an empty string; everything dropped is empty |
| JavaString.Split | Streams/JavaStreams.java:62 | `split(",")` yields fields without the separator |
| JavaString.LastPieceEmpty | Streams/JavaStreams.java:62 | the last piece is empty exactly when the string is empty or ends with the separator |
| JavaString.SplitKeepsAllPieces | Streams/JavaStreams.java:62 | a line not ending in the separator loses no field, and joining its fields gives the line back |
| JavaString.SplitJoin | Streams/JavaStreams.java:62 | splitting a join of two or more separator-free fields gives the fields minus the trailing empty ones |
| JavaString.SplitDropsTrailingField | Streams/JavaStreams.java:62 | "a,b," has two fields |
| JavaString.SplitKeepsInnerEmptyField | Streams/JavaStreams.java:62 | "a,,b" has three fields, the middle one empty |
| JavaString.SplitEmptyAndSeparatorsOnly | Streams/JavaStreams.java:62 | "" has one empty field and ",," has none |
| JavaString.SplitPair | Streams/JavaStreams.java:62 | two separator-free fields joined by the separator, the second non-empty, split back into those two fields |
| JavaString.SplitRecord | Streams/JavaStreams.java:62 | three separator-free fields joined by the separator, the last non-empty, split back into those three fields (so "B,17,2.8" has three fields) |
| Streams.Filter | Streams/JavaStreams.java:36 | `filter(p)` keeps no more elements than it is given, and every kept element satisfies `p` |
| Streams.FilterIsSubsequence | Streams/JavaStreams.java:57 | `filter` keeps its elements in encounter order |
| Streams.FilterCounts | Streams/JavaStreams.java:36 | `filter` keeps every occurrence of an element that satisfies `p` and none of one that does not |
| Streams.FilterAppend | Streams/JavaStreams.java:36 | filtering a concatenation filters each part |
| Streams.FilterNone | Streams/JavaStreams.java:36 | a filter no element passes yields nothing |
| Streams.FilterAll | Streams/JavaStreams.java:36 | a filter every element passes yields the whole stream |
| Streams.FilterCons | Streams/JavaStreams.java:69 | filtering from the front: the first element if it passes, then the filtered rest |
| Streams.FilterLength | Streams/JavaStreams.java:62 | the number of elements kept is the number of positions whose element passes |
| Streams.Map | Streams/JavaStreams.java:41 | `map(f)` yields one image per element, position by position |
| Streams.FilterMap | Streams/JavaStreams.java:45-46 | mapping and then filtering keeps the images of exactly the elements whose image passes, in their order |
| Streams.Skip | Streams/JavaStreams.java:21 | `skip(n)` yields the elements after the first `n`, or none when there are fewer |
| Streams.FindFirst | Streams/JavaStreams.java:30 | `findFirst` is empty exactly for an empty stream, and otherwise holds the first element |
| Streams.Insert | Streams/JavaStreams.java:29 | inserting adds exactly one occurrence of the new string |
| Streams.Sort | Streams/JavaStreams.java:29 | `sorted()` yields a permutation of its input |
| Streams.InsertSorted | Streams/JavaStreams.java:29 | inserting into an ascending sequence keeps it ascending |
| Streams.SortSorted | Streams/JavaStreams.java:29 | `sorted()` yields an ascending permutation of its input |
| Streams.SortedUnique | Streams/JavaStreams.java:37 | two ascending arrangements of the same strings are equal |
| Streams.SortIsUnique | Streams/JavaStreams.java:37 | any ascending permutation of the input is what `sorted()` yields |
| Streams.FilterSorted | Streams/JavaStreams.java:50 | filtering an ascending stream leaves it ascending |
| Streams.SortThenFilter | Streams/JavaStreams.java:50 | sorting then filtering gives what filtering then sorting gives |
| IntStreams.Range | Streams/JavaStreams.java:17 | `range(a, b)` has `b - a` elements (none when `b <= a`), the `i`-th being `a + i` |
| IntStreams.SkipRange | Streams/JavaStreams.java:21 | skipping `k` elements of a range starts the range `k` later |
| IntStreams.Sum | Streams/JavaStreams.java:25 | the exact sum of a stream of non-negative elements is non-negative |
| IntStreams.IntSum | Streams/JavaStreams.java:25 | `sum()` of an `IntStream` is always an `int` |
| IntStreams.IntSumIsWrappedSum | Streams/JavaStreams.java:25 | the wrapping `sum()` equals the exact sum wrapped once |
| IntStreams.SumRange | Streams/JavaStreams.java:25 | twice the sum of `range(a, b)` is `(b - a) * (a + b - 1)` |
| IntStreams.IntSumRange | Streams/JavaStreams.java:25 | when the exact sum of a range fits in an `int`, `sum()` returns it |
| IntStreams.Accept | Streams/JavaStreams.java:96 | accepting a value adds one to the count and the value to the sum; the new min and max bound the value and the old min and max, and each is either the old one or the value |
| IntStreams.Summarize | Streams/JavaStreams.java:96 | the count is the length, the sum is the exact sum, and a non-empty stream has min no larger than max |
| IntStreams.SummarizeSpec | Streams/JavaStreams.java:96 | `summaryStatistics()`: count is the length, sum the sum; min and max occur in a non-empty stream and bound every element; an empty stream keeps the initial (0, 0, MAX_VALUE, MIN_VALUE) |
| JavaStreams.IntegerRanges | Streams/JavaStreams.java:17-26 | blocks 1–3: `range(1, 10)` is 1..9, `skip(5)` leaves 6, 7, 8, 9, and the sum of `range(1, 5)` is 10 |
| JavaStreams.FirstInOrder | Streams/JavaStreams.java:29-31 | block 4: nothing exactly for no names; otherwise a name that comes no later than any name |
| JavaStreams.FirstInOrderIs | Streams/JavaStreams.java:29-31 | a name that comes no later than every name is what block 4 finds |
| JavaStreams.FirstInOrderExample | Streams/JavaStreams.java:29-31 | for "Ava", "Aneri", "Alberto" block 4 finds "Alberto" |
| JavaStreams.NamesStartingWithS | Streams/JavaStreams.java:34-37 | block 5: ascending, with every occurrence of each name starting with "S" and no other name |
| JavaStreams.NamesStartingWithSIs | Streams/JavaStreams.java:34-37 | any ascending arrangement of the names starting with "S" is what block 5 yields |
| JavaStreams.NamesStartingWithSExample | Streams/JavaStreams.java:34-37 | for the program's nine names block 5 yields Sarah, Sarika, Shivika |
| JavaStreams.KeptNamesStartingWithS | Streams/JavaStreams.java:34-36 | block 5's filter keeps Sarika, Shivika, Sarah, in that order |
| JavaStreams.Square | Streams/JavaStreams.java:41 | `x * x` is an `int`, and equals the exact square whenever that fits |
| JavaStreams.Average | Streams/JavaStreams.java:41 | `average()`: empty exactly for no elements; otherwise the mean times the count is the sum |
| JavaStreams.AverageOfSquaresExample | Streams/JavaStreams.java:40-41 | block 6: the squares of 2, 4, 6, 8, 10 are 4, 16, 36, 64, 100, they sum to 220, and their mean is 44 |
| JavaStreams.LowercaseStartingWithA | Streams/JavaStreams.java:44-46 | block 7: the lowercased forms of exactly the names whose lowercased form starts with "a", in their original order |
| JavaStreams.LowercaseStartingWithAExample | Streams/JavaStreams.java:44-46 | for the program's eight names block 7 yields al, ankit, amanda |
| JavaStreams.LongBandNames | Streams/JavaStreams.java:50 | block 8: ascending, every line longer than 13 characters, every occurrence of each such line kept; equal to filtering first and sorting after |
| JavaStreams.JitBandNames | Streams/JavaStreams.java:56-57 | block 9: an order-preserving subsequence of the lines, every one containing "jit", every occurrence of each such line kept |
| JavaStreams.Fields | Streams/JavaStreams.java:62 | the fields of a line never hold a comma, and a line without a comma is its own single field |
| JavaStreams.Records | Streams/JavaStreams.java:62 | the three-field records number no more than the lines, and each has exactly three fields |
| JavaStreams.CountRecords | Streams/JavaStreams.java:61-63 | block 10: an `int`; for a file of at most `Integer.MAX_VALUE` lines, the number of lines that split into exactly three fields, so never more than the number of lines |
| JavaStreams.SelectRows | Streams/JavaStreams.java:67-71 | block 11: every emitted row has three fields and a field 1 that parses to more than 15; an early stop is a NumberFormatException |
| JavaStreams.SelectRowsPrefix | Streams/JavaStreams.java:68-70 | over lines whose records all parse, block 11 emits exactly the qualifying records, in file order, and then goes on with what follows |
| JavaStreams.SelectRowsAllParse | Streams/JavaStreams.java:67-71 | when every record parses, block 11 completes and emits exactly the three-field records with field 1 over 15, in file order |
| JavaStreams.SelectRowsFirstFailure | Streams/JavaStreams.java:70 | when line `k` is the first record whose field 1 does not parse, the qualifying records before it are emitted and the pipeline stops with that field's NumberFormatException |
| JavaStreams.SelectRowsCompletes | Streams/JavaStreams.java:70 | block 11 completes exactly when every three-field record has a field 1 that parses |
| JavaStreams.FormatRowFields | Streams/JavaStreams.java:71 | `FormatRow` (block 11's printed row, its three fields joined by blanks), split on blanks, gives back its three blank-free fields |
| JavaStreams.KeysOfSnoc | Streams/JavaStreams.java:83 | one more row adds exactly its key to the keys |
| JavaStreams.DistinctKeysSnoc | Streams/JavaStreams.java:83 | one more row keeps the keys distinct exactly when its key is new |
| JavaStreams.ToMap | Streams/JavaStreams.java:83 | a built map has exactly the rows' keys; a DuplicateKey names one of those keys; a NumberFormat failure is the field 1 of some row that does not parse |
| JavaStreams.ToMapSucceeds | Streams/JavaStreams.java:83 | `toMap` succeeds exactly when the keys are distinct, and then its keys are the rows' keys; otherwise it fails with a DuplicateKey for one of the keys |
| JavaStreams.ToMapContents | Streams/JavaStreams.java:83 | a map `toMap` builds has one entry per row, mapping the row's field 0 to its parsed field 1 |
| JavaStreams.CollectAges | Streams/JavaStreams.java:79-83 | block 12 fails whenever block 11's filter would stop early, and a built map has exactly the keys of the qualifying records |
| JavaStreams.CollectAgesAllParse | Streams/JavaStreams.java:79-83 | block 12 with every record parsing: it succeeds exactly when the qualifying records have distinct keys, the map then holds exactly their keys with their parsed field 1, and a failure is a DuplicateKey |
| JavaStreams.CollectAgesFailsOnBadAge | Streams/JavaStreams.java:82-83 | a record whose field 1 does not parse makes block 12 fail, wherever it is |
| JavaStreams.ThreeLines | Streams/JavaStreams.java:67-83 | for lines splitting as "B,17,2.8", "C,14,1.9", "E,9", block 11 emits the B row and block 12 maps B to 17 |
| JavaStreams.ThreeLinesCount | Streams/JavaStreams.java:61-63 | block 10 counts two records in those three lines |
| JavaStreams.SmallDataFile | Streams/JavaStreams.java:61-83 | blocks 10–12 on the lines "B,17,2.8", "C,14,1.9", "E,9": count 2, one row B 17 2.8, map {B: 17} |
| JavaStreams.DuplicateKeyFails | Streams/JavaStreams.java:83 | two qualifying records with key B make block 12 fail with DuplicateKey("B") |
| JavaStreams.BadAgeFails | Streams/JavaStreams.java:70 | a qualifying record then a record with field 1 "old": block 11 has emitted the first row and stops with NumberFormat("old"), and block 12 fails with it |
| JavaStreams.SummaryExample | Streams/JavaStreams.java:96-97 | block 14: for 7, 2, 19, 88, 73, 4, 10 the count is 7, the sum 203, the min 2 and the max 88 |

## Left out

- Reading `src/bands.txt` and `src/data.txt` with `Files.lines`, and the `close()` calls, are I/O and resource handling. The lines are a parameter instead.
- The contents of those two files are not available. The outputs in the comments for blocks 8–12 (three band names, "Arijit Singh", a count of 5, rows B, D, F) are not reproduced. The three CSV lines in `SmallDataFile`, `DuplicateKeyFails` and `BadAgeFails` are illustrative inputs only.
- Console output is left out except for one line format: `FormatRow` models the row that block 11 prints (`Streams/JavaStreams.java:71`), and `FormatRowFields` states that it splits back into its fields. For every other block the model gives the sequence, map or value the block prints, not the text. This includes the `forEach` calls, the `ifPresent` calls and the `toString` of `IntSummaryStatistics`.
- The iteration order of the `HashMap` printed in block 12 is unspecified. The map is a Dafny `map`, which has no order.
- Block 13, the `double` reduction, is floating point and is not modelled.
- Average: the `average()` of block 6 is computed as an exact rational, not as a `double`. The mean 44 is representable exactly, so block 6's result is unaffected. The `average` field of the summary statistics is not modelled.
- ToLowerCase: only the ASCII capitals A–Z are lowercased. Java's full Unicode and locale rules are library behaviour and are not modelled.
- ParseInt: only the ASCII digits 0–9 are accepted. Java also accepts other Unicode decimal digits.
- LongBandNames: lengths are counted in code points (Dafny `char`s). Java's `length()` counts UTF-16 code units, so the two agree only on text without supplementary characters.
- CompareTo: characters are compared as Dafny `char` values. Java compares UTF-16 code units. The two orders agree on text without surrogate pairs.
- Split models `String.split` only for a one-character separator that is not a regular-expression metacharacter, which is the only kind the program uses. With that separator, a line without it is returned whole, so "" has one empty field. Otherwise the trailing empty fields are removed. No other regular expression is modelled.
- SummarizeSpec: `count` and `sum` of `IntSummaryStatistics` are `long`s. They are modelled as unbounded integers, so their wrap-around past 2^63 is not modelled.
- Average: the sum is taken exactly. Java's `IntStream.average` sums in a `long`, and that `long` cannot overflow for any stream shorter than 2^32 elements.
- Skip takes a `nat`. Java's `skip` throws `IllegalArgumentException` for a negative count, and the program only skips 5.
- The only exceptions modelled are NumberFormatException from `parseInt` and IllegalStateException from `toMap`. I/O errors can occur: `Files.lines` throws IOException for a missing or unreadable file (lines 49, 56, 61, 67, 77), and reading a line that cannot be decoded throws UncheckedIOException while the stream runs. They are left out together with file reading.
