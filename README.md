# Suffix arrays by induced sorting (SA-IS), modelled in Dafny

The repository builds the suffix array of a string by SA-IS induced sorting.
It then builds an "enhanced" LCP table and uses both to answer pattern
searches in logarithmic time. Two versions of the class are modelled:

- **`src/suffixArray.cpp`** (module `SuffixArrays`). Characters are coded as
  their character values and the sentinel is 0. The intermediate arrays
  (types, sample pointers, counts, buckets) are locals handed from method to
  method. Only `S`, `SA` and `LCP` are fields.
- **`suffixArray.cpp`** (module `Legacy`), the older class at the root of the
  repository. Characters are coded as their distance from `'A'` and the
  sentinel is `INT_MIN`. Every intermediate array is a field that the methods
  update in place. `-1` marks an empty suffix-array slot. Both the LCP fill
  and the search start from a virtual rank `-1`.
- **`tests/BruteForce.cpp`** (module `BruteForceMatcher`). This is the naive
  matcher the tests use as a reference. Its `Search` is proved to return
  exactly the occurrences, in ascending order.

Both classes are modelled as Dafny classes with the source's fields. Their
loops become methods with loop invariants:

- the type array (right to left);
- the sample ("leftmost S", LMS) pointer array;
- character counts and bucket heads and tails;
- the three phases of `inducedSort`: preload codes that occur once, seed the
  sample positions at their bucket tails, then do the L-type scan and the
  S-type scan;
- naming the sample substrings to build the reduced string `S1`;
- the rank array;
- Kasai's LCP scan;
- the recursive interval-minimum fill `LCPRec`;
- `countMatches`, `findAllOccurances` and the binary search `searchPrivate`.

The specification side lives in plain modules:

| module | what it defines |
|---|---|
| `Lex` | common prefixes, lexicographic order on suffixes, what a suffix array is |
| `SaisSpec` | S/L types, sample positions, buckets and the sorted count list that stands for `std::map` |
| `Induce`, `InduceS`, `InducedSort` | ghost "runs" of each induce phase, and the proof that every write lands inside the array, in a free slot of the right bucket |
| `LegacySort` | the same steps over the legacy `-1` blanks |
| `Keys` | the keys the induced sort compares: a suffix's codes and types up to the next sample position, or to the end |
| `InducedOrder` | the order each phase of the induced sort keeps within a bucket, and the two passes of the construction |
| `Reduce` | the naming scan and its invariant |
| `NameOrder`, `ReducedOrder` | why a smaller name means a smaller sample suffix, and how the reduced suffix array ranks the sample suffixes |
| `SeedFinding` | the worked example `"babac"` of the seeding order of the last round |
| `LcpTable`, `LegacyLcp` | the interval-minimum table and Kasai's invariant |
| `SearchSpec` | the bracket invariant of the binary search, and the run of matches around a hit |

What is proved:

- **Induced sort.** It never writes out of bounds. For any order of seeding
  the sample positions, it produces a permutation of the positions in which
  every suffix sits in its bucket, L-types before S-types, with the sentinel
  first. Within each bucket it orders the positions by their text up to the
  next sample position, so the first round sorts the sample substrings.
  Seeded with the sample positions in descending suffix order, it produces
  the suffix array.
- **Reduction.** Names are handed out in the order of the sorted sample
  substrings, so a smaller name means a smaller sample suffix, and the
  order of the reduced string's suffixes is the order of the sample
  suffixes they stand for. Seeding the last round from the suffix array of
  the reduced string therefore yields the suffix array of the text, and
  both constructors end with `SA` the suffix array of `S`. The suffix array
  of a text is unique.
- **Naming.** It gives equal names only to equal sample substrings. It reports
  "all letters unique" exactly when the names are distinct. The recursion
  shrinks the text (`2*|S1| <= |S|+1`).
- **LCP table.** Over the suffix array, the table holds the common
  prefix of neighbours in `1..n-1`, and the common prefix of the ends of every
  interval the recursive fill visits at `n + mid`.
- **Search.** Given that table, `search` returns each occurrence of the
  pattern exactly once, and nothing else.

## Model

| member | source | states |
|---|---|---|
| SuffixArrays.SuffixArray.ConstructS | src/suffixArray.cpp:87-95 | appends the character values of the string and then the sentinel 0 to `S` |
| SuffixArrays.CodesWellFormed | src/suffixArray.cpp:87-95 | for a string without NUL characters, every code is above the sentinel 0, so the coded text is well formed |
| SuffixArrays.CodedMatchAt | src/suffixArray.cpp:76-80 | a non-empty pattern coded like the text occurs in the coded text exactly where it occurs in the string |
| SuffixArrays.SuffixArray.CalcCharCounts | src/suffixArray.cpp:99-104 | the result is the sorted list of (code, count) pairs of `S`: keys increasing, exactly the codes of `S`, each with its number of occurrences |
| SuffixArrays.SuffixArray.InitBuckets | src/suffixArray.cpp:106-119 | bucket `k` starts at the sum of the counts of the codes before it; `charToBucket` numbers each code by its place in the counts; together they are the bucket layout of `S` |
| SuffixArrays.CountsBeforeIsStart | src/suffixArray.cpp:111-117 | the running sum before code `k` equals the number of positions of `S` holding a smaller code |
| SuffixArrays.PrefixSumLayout | src/suffixArray.cpp:106-119 | prefix sums plus the code numbering form the bucket layout the induce phases assume |
| SuffixArrays.SuffixArray.ConstructTTypeArray | src/suffixArray.cpp:123-140 | the result marks each position S-type exactly when its suffix is smaller than the next suffix (the recursive type definition), including the one-character text |
| SaisSpec.STypeMeansSmaller | src/suffixArray.cpp:121-134 | on a well-formed text, position `i` is S-type exactly when suffix `i` is lexicographically smaller than suffix `i+1` |
| SuffixArrays.SuffixArray.ConstructSamplePointerArray | src/suffixArray.cpp:142-155 | the result lists, in increasing order, exactly the S-type positions that are first or follow an L-type position |
| SaisSpec.LastLmsIsSentinel | src/suffixArray.cpp:142-155 | the sentinel position is always the last sample position |
| SaisSpec.LmsNotAdjacent | src/suffixArray.cpp:149-153 | two consecutive sample positions are at least two apart |
| SaisSpec.LmsFewer | src/suffixArray.cpp:35 | there are at most `(n+1)/2` sample positions, and fewer than `n` once `n >= 2`, so the recursive call is on a shorter text |
| SaisSpec.SentinelBucket | src/suffixArray.cpp:94 | the sentinel is alone in bucket 0 and every other code's bucket starts at 1 or later |
| SaisSpec.BucketsOrdered | src/suffixArray.cpp:113-117 | the bucket of a smaller code ends before the bucket of a larger code starts |
| SaisSpec.CountsOfStep | src/suffixArray.cpp:101-102 | incrementing the count of `c` turns the counts of `s` into the counts of `s + [c]` |
| SaisSpec.BumpCounts | src/suffixArray.cpp:102 | `charCounts[c]++` raises the count of `c` by one, leaves every other count alone, and adds a key only when `c` was absent |
| SuffixArrays.SuffixArray.InitTails | src/suffixArray.cpp:157-163 | each tail is one before the next bucket's start, and the last is `n-1` |
| InducedSort.InitTailsEnd | src/suffixArray.cpp:157-163 | each tail is the last slot of its code's bucket |
| SuffixArrays.SuffixArray.InducedSortCommon | src/suffixArray.cpp:189-202 | `SA` is cleared to 0 and every code occurring once is placed at the head of its bucket |
| InducedSort.PreRunSafe | src/suffixArray.cpp:199-201 | each preload step writes inside `SA`, at its bucket head, exactly when the code occurs once, and changes nothing otherwise |
| InducedSort.PreStepAt | suffixArray.cpp:269-271 | preload step `i` on the `-1`-blank slots writes inside the array at its bucket head exactly when the code occurs once, and changes nothing otherwise |
| SuffixArrays.SuffixArray.SeedSample | src/suffixArray.cpp:237-240 | loading the sample positions in text order at the moving bucket tails gives the seeded array of the ghost run |
| SuffixArrays.SampleSeedOrder | src/suffixArray.cpp:237-240 | the sample list is a valid seed order: distinct sample positions covering all of them |
| InducedSort.SeedSafe | src/suffixArray.cpp:217-218 | each seeding step writes inside `SA` at the current tail of its bucket, and that tail moves down by one |
| SuffixArrays.SuffixArray.SeedReduced | src/suffixArray.cpp:215-221 | loading `samplePointerArray[SA1[i]]` from the last `i` down gives the seeded array of the ghost run in that order |
| SuffixArrays.ReducedSeedOrder | src/suffixArray.cpp:215-221 | a permutation of the sample indexes maps to a valid seed order |
| SuffixArrays.SuffixArray.InduceLTypes | src/suffixArray.cpp:173-177 | the left-to-right scan produces the slots of the ghost L-scan run: each L-type predecessor is written at its bucket head, which moves up |
| InducedSort.LScanSafe | src/suffixArray.cpp:173-177 | every step of the L-type scan reads and writes inside the array, and writes only into a free slot |
| SuffixArrays.SuffixArray.InduceSTypes | src/suffixArray.cpp:179-186 | the right-to-left scan produces the slots of the ghost S-scan run: each S-type predecessor is written at its bucket tail, which moves down |
| InducedSort.SScanSafe | src/suffixArray.cpp:179-186 | every step of the S-type scan reads and writes inside the array |
| SuffixArrays.SuffixArray.InduceSuffixes | src/suffixArray.cpp:165-187 | after both scans `SA` is the ghost run's result: a permutation of the positions, bucket sorted, L-types before S-types within a bucket, the sentinel first, each bucket ordered by the text up to the next sample position; when the seeds came in descending suffix order, `SA` is the suffix array of `S` |
| InducedSort.InducedSortResult | src/suffixArray.cpp:204-243 | for any seed order of the sample positions, the three phases yield a bucket-sorted permutation with the sentinel first and no blank left (the order within buckets is `InducedOrder.FirstPass` and `InducedOrder.FinalPass`) |
| InducedSort.SeedSteps | src/suffixArray.cpp:237-240 | each seeding step of the ghost run is a step the program can take |
| InducedSort.ScanSteps | src/suffixArray.cpp:173-186 | each step of both scans of the ghost run is a step the program can take |
| Keys.EncOrder | src/suffixArray.cpp:175-183 | a first character smaller by code, or equal in code with an L-type before an S-type, makes the smaller suffix |
| Keys.KeyOrder | src/suffixArray.cpp:165-187 | on keys reaching to the next sample position, or to the end of the text, a smaller key means a smaller suffix |
| InducedOrder.PassOrder | src/suffixArray.cpp:165-187 | when the seeds of each bucket come in the order of their keys, the whole induced sort leaves every bucket ordered by the keys one sample position longer |
| InducedOrder.FirstPass | src/suffixArray.cpp:225-243 | seeded in any order, the induced sort orders each bucket by the text up to the next sample position: at the sample positions, by their sample substrings |
| InducedOrder.WholeSorted | src/suffixArray.cpp:165-187 | a bucket-sorted permutation whose buckets are ordered by the whole suffixes is the suffix array |
| InducedOrder.FinalPass | src/suffixArray.cpp:204-223 | seeded with the sample positions in descending suffix order, the induced sort yields the suffix array of the text |
| SuffixArrays.SuffixArray.InducedSort | src/suffixArray.cpp:225-243 | seeding with the sample list leaves `SA` a bucket-sorted permutation with the sentinel first, each bucket ordered by the text up to the next sample position, so the sample substrings come sorted |
| SuffixArrays.SuffixArray.InducedSortReduced | src/suffixArray.cpp:204-223 | seeding in the order of a permutation `SA1` of the samples leaves `SA` a bucket-sorted permutation with the sentinel first; when `SA1` ranks the sample suffixes (as the suffix array of the reduced string does), `SA` is the suffix array of `S` |
| SuffixArrays.RankedSeedsDescend | src/suffixArray.cpp:215-221 | reading `SA1` from its last entry to its first, a reduced suffix array that ranks the sample suffixes seeds them in descending suffix order |
| SuffixArrays.ScanReady | src/suffixArray.cpp:24-31 | after the first induced sort the naming scan has what it reads: the sample list, bucket starts that head their buckets, and slots sorted by bucket and by sample substring; and `2*|samples| <= |S|+1` |
| SuffixArrays.ReverseMap | src/suffixArray.cpp:259-262 | the map sends each sample position to its index in the sample list, and holds nothing else |
| SuffixArrays.SuffixArray.GetLMSSubstrLen | src/suffixArray.cpp:245-249 | the length reaches from sample `k` to the next sample inclusive, or to the end of the text for the last sample; the slice it delimits is that sample substring |
| Reduce.LmsEnd | src/suffixArray.cpp:245-249 | a sample substring ends after its start and no later than the text |
| Reduce.SampleListOf | src/suffixArray.cpp:142-155 | the sample list of a well-formed text is non-empty, strictly increasing, in range and ends at the sentinel |
| SuffixArrays.SuffixArray.NameSlot | src/suffixArray.cpp:272-292 | one slot of the naming scan keeps the naming invariant: a sample found in `SA` gets the previous name when its substring equals the previous one in the same bucket, otherwise a fresh name |
| SuffixArrays.SuffixArray.NameBucket | src/suffixArray.cpp:267-270 | bucket `bucketIdx`, from its head to the slot before the next head (the last bucket to `n-1`), keeps the naming invariant and the key order of the names |
| SuffixArrays.SuffixArray.NameSlots | src/suffixArray.cpp:271-292 | the slot-by-slot scan of one bucket keeps the naming invariant to the bucket's end, records in the flag whether a name was reused, and keeps smaller names on smaller sample substrings |
| SuffixArrays.SuffixArray.NameBuckets | src/suffixArray.cpp:264-293 | the scan over every bucket names every sample, with the flag false exactly when a name was reused, and smaller names on smaller sample substrings |
| SuffixArrays.SuffixArray.ConstructS1AndCheckAllUniqueLetters | src/suffixArray.cpp:251-296 | `S1` has one name per sample, each below `|S1|`; equal names imply equal sample substrings; a smaller name means a smaller sample suffix; the flag is true exactly when it came in true and the names are distinct; `S1` is well formed |
| Reduce.NamingNew | src/suffixArray.cpp:287-291 | giving a new name to the next sample found keeps the naming invariant |
| Reduce.NamingReuse | src/suffixArray.cpp:278-284 | reusing the previous name for an equal substring keeps the invariant and records the reuse |
| Reduce.NamingDone | src/suffixArray.cpp:251-296 | at the end of the scan every sample is named below `|S1|`, equal names mean equal substrings, the names are distinct exactly when none was reused, and `S1` is well formed |
| NameOrder.RankFresh | src/suffixArray.cpp:287-291 | a fresh name, given to a sample whose substring differs from the previous one, is larger than every name before it and its key is larger too, so names stay in key order |
| NameOrder.RankReuse | src/suffixArray.cpp:278-284 | reusing the previous name for an equal substring keeps names in key order |
| NameOrder.RankedSuffixes | src/suffixArray.cpp:251-296 | once every sample is named, a smaller name means a smaller sample suffix |
| ReducedOrder.ReducedLess | src/suffixArray.cpp:32-36 | when names order the sample suffixes and equal names stand for equal sample substrings, a smaller reduced suffix stands for a smaller sample suffix |
| ReducedOrder.ReducedRanked | src/suffixArray.cpp:35-36 | the suffix array of the reduced string lists the sample suffixes in increasing order |
| Reduce.NamesArePermutation | src/suffixArray.cpp:32-33 | distinct names below `|S1|` form a permutation of `0..|S1|-1` |
| Reduce.InvertNames | src/suffixArray.cpp:32-33 | for distinct names below `|S1|`, the inverse of `S1` is the suffix array of `S1` |
| SeedFinding.BabacAsWritten | src/suffixArray.cpp:32-33 | for `"babac"`, the sample list `[1, 3, 5]` reduces to the distinct names `[1, 2, 0]`, which are not their own suffix array; seeding from them gives the seeds `1, 5, 3`, and the induced sort then yields `[5, 1, 3, 2, 0, 4]`, which is not the suffix array |
| SeedFinding.BabacCorrected | src/suffixArray.cpp:32-33 | for `"babac"`, the suffix array of the names is `[2, 0, 1]`; seeding from it gives `3, 1, 5`, and the induced sort yields `[5, 1, 3, 0, 2, 4]`, the suffix array |
| SuffixArrays.SuffixArray.SortSuffixes | src/suffixArray.cpp:14-37 | with distinct names inverted, the construction leaves `SA` the suffix array of `S` (bucket sorted, sentinel first) and `S` unchanged; the as-written construction does not meet this for `"babac"` |
| SuffixArrays.SuffixArray.SortSuffixesAsWritten | src/suffixArray.cpp:30-37 | the construction as written, with `S1` passed as `SA1`, still leaves `SA` a bucket-sorted permutation with the sentinel first, and no more (see `SeedFinding.BabacAsWritten`) |
| SuffixArrays.SuffixArray.constructor | src/suffixArray.cpp:8-43 | `S` is the coded string with its sentinel; `SA` is the suffix array of `S`; `LCP` is the enhanced LCP table. It builds the corrected program: distinct names are inverted rather than passed on as at lines 32-33, the flag is taken as true, and the LCP fill is skipped when `n <= 1` |
| SuffixArrays.AbcdSuffixArray | tests/BasicTests.cpp:45-47 | the suffix array of `"abcd"` with its sentinel is exactly `4, 0, 1, 2, 3`, so the constructor yields that |
| SuffixArrays.SuffixArray.FromCodes | src/suffixArray.cpp:47-66 | the recursive constructor keeps the given codes and leaves `SA` the suffix array of them, with no LCP table; distinct names are inverted rather than passed on as at lines 58-60 |
| SuffixArrays.RankArray | src/suffixArray.cpp:317-323 | `rank` is the inverse permutation of `SA` |
| SuffixArrays.ExtendMatch | src/suffixArray.cpp:332-334 | starting from a known common length `k0`, the loop ends at exactly the common prefix length of the two suffixes |
| SuffixArrays.KasaiScan | src/suffixArray.cpp:325-336 | for a sorted `SA`, entry `rank[p]+1` is the common prefix of suffix `p` and the next suffix in order, and entry 0 and the upper half are untouched |
| SuffixArrays.KasaiVisit | src/suffixArray.cpp:326-336 | one step of Kasai's scan keeps its invariant: the last-ranked suffix is skipped with `k` reset, otherwise the common prefix with the next suffix in order is stored at its rank, and `k` drops by one |
| LcpTable.KasaiStep | src/suffixArray.cpp:326 | moving from suffix `i` to `i+1` loses at most one character of common prefix with the next suffix in order, which justifies `k--` |
| LcpTable.KasaiStore | src/suffixArray.cpp:331-335 | storing the computed length keeps Kasai's invariant and carries `k-1` over |
| LcpTable.KasaiSkip | src/suffixArray.cpp:327-329 | the last-ranked suffix is skipped with `k` reset to 0 and the invariant kept |
| LcpTable.AdjacentFromNext | src/suffixArray.cpp:335 | filling entry `rank[p]+1` for every `p` gives the common prefix of every pair of neighbours |
| LcpTable.RangeMinIsLcp | src/suffixArray.cpp:306 | in a sorted suffix array, the minimum of the neighbour entries between ranks `a` and `b` is the common prefix of suffixes `a` and `b` |
| LcpTable.LcpThrough | src/suffixArray.cpp:306-310 | the common prefix of the ends of an interval is the smaller of the common prefixes through any rank inside it |
| SuffixArrays.SuffixArray.LCPRec | src/suffixArray.cpp:300-314 | the result is the minimum of `LCP[i+1..j]`, and every interval visited from `(i, j)` stores its minimum at `n + mid`, with the lower half unchanged |
| LcpTable.FilledTwo | src/suffixArray.cpp:305-306 | for two neighbours the stored value is the smaller of the two entries, which is the interval minimum |
| LcpTable.FilledThree | src/suffixArray.cpp:307-308 | for three neighbours the first entry combined with the upper two's minimum is the interval minimum |
| LcpTable.FilledHalves | src/suffixArray.cpp:309-312 | the minimum of the two halves is the interval minimum, and both halves' stored values survive |
| LcpTable.HalvesKeep | src/suffixArray.cpp:312 | entries outside the intervals visited are left as they were |
| LcpTable.LcpRecCalls | src/suffixArray.cpp:300-314 | every recursive call on a non-empty interval is on a strictly shorter interval inside it |
| LcpTable.EmptyIntervalRecursesForever | src/suffixArray.cpp:338 | on the interval `(0, 0)` (the empty input string) the first recursive call is the same interval again |
| SuffixArrays.SuffixArray.ConstructLCPArray | src/suffixArray.cpp:316-339 | for a sorted `SA`, `LCP` is the enhanced table: neighbour prefixes in `1..n-1`, 0 in entry 0, and each visited interval's common prefix at `n + mid`; the fill runs only when `n > 1` |
| LcpTable.KasaiDone | src/suffixArray.cpp:316-339 | Kasai's result with entry 0 cleared and the fill from `(0, n-1)` done is the enhanced table |
| LcpTable.LcpTableFromFill | src/suffixArray.cpp:337-338 | neighbour entries plus a completed fill make the enhanced table |
| SuffixArrays.SuffixArray.GetLCP | src/suffixArray.cpp:341-346 | on neighbours or a visited interval, the value read is the common prefix of the two suffixes |
| SuffixArrays.SuffixArray.CountMatches | src/suffixArray.cpp:348-355 | counting from a known prefix `startIndex` stops at the first mismatch or at the pattern length, which is the common prefix of the pattern and that suffix |
| SearchSpec.PatternStops | src/suffixArray.cpp:427 | a pattern above the sentinel parts from every suffix before the suffix ends, so `S[SA[mid] + maxMatches]` is in range |
| SuffixArrays.SuffixArray.FindAllOccurances | src/suffixArray.cpp:357-380 | the result is the hit, then the ranks below it down to the first entry below the pattern length, then the ranks above it up to the next such entry |
| SearchSpec.RunIsOccurrences | src/suffixArray.cpp:357-380 | in a sorted array, the ranks between those two stops are exactly the ranks whose suffix starts with the pattern |
| SearchSpec.FoundAll | src/suffixArray.cpp:357-380 | the collected run holds no repeats and holds exactly the positions where the pattern occurs |
| SearchSpec.NoMatchAnywhere | src/suffixArray.cpp:436 | when no rank starts with the pattern, the pattern occurs nowhere |
| SearchSpec.SearchStart | src/suffixArray.cpp:383-391 | after the two end checks fail, ranks `0` and `n-1` bracket every match |
| SearchSpec.StepUp | src/suffixArray.cpp:403-408 | when `lowMatches <= lcpHigh < highMatches`, moving `low` to `mid` with `lcpHigh` matches keeps the bracket |
| SearchSpec.StepDownKeep | src/suffixArray.cpp:409-412 | when `highMatches < lcpHigh`, moving `high` to `mid` keeps the bracket |
| SearchSpec.StepDown | src/suffixArray.cpp:414-416 | when `lcpLow < lowMatches`, moving `high` to `mid` with `lcpLow` matches keeps the bracket |
| SearchSpec.StepUpKeep | src/suffixArray.cpp:417-418 | when `lowMatches < lcpLow`, moving `low` to `mid` keeps the bracket |
| SearchSpec.StepCompareFrom | src/suffixArray.cpp:419-423 | when no shortcut applies, the pattern agrees with suffix `mid` on the larger of `lowMatches` and `highMatches` characters |
| SearchSpec.StepCompareLess | src/suffixArray.cpp:427-429 | a smaller text character at the mismatch moves `low` up and keeps the bracket |
| SearchSpec.StepCompareMore | src/suffixArray.cpp:430-433 | a larger text character moves `high` down and keeps the bracket |
| SearchSpec.Halves | src/suffixArray.cpp:397-398 | `mid` lies strictly between `low` and `high`, and both halves are intervals the LCP fill visited |
| SuffixArrays.SuffixArray.MatchesAtMid | src/suffixArray.cpp:422-423 | the match count computed at `mid` is the common prefix of the pattern and suffix `mid` |
| SuffixArrays.SuffixArray.ReportMatches | src/suffixArray.cpp:387-391 | at a rank whose suffix starts with the pattern, the reported list holds each occurrence once and nothing else |
| SuffixArrays.SuffixArray.SearchPrivate | src/suffixArray.cpp:382-437 | given that `SA` is the suffix array and `LCP` its enhanced table (both established by the constructor), the result holds each position where the pattern occurs, exactly once, and no other |
| SuffixArrays.SuffixArray.Narrow | src/suffixArray.cpp:393-436 | from a bracket of two ranks the pattern does not prefix, the halving loop returns each occurrence exactly once, or nothing when it occurs nowhere |
| SuffixArrays.SuffixArray.Search | src/suffixArray.cpp:70-84 | given that `SA` is the suffix array and `LCP` its enhanced table (both established by the constructor): an empty pattern gives `[]`; otherwise the result is exactly the occurrences of the coded pattern, without repeats |
| SuffixArrays.AaInAaaa | tests/BasicTests.cpp:40-43 | a search that returns exactly the occurrences of `"aa"` in `"aaaa"` returns the positions `0, 1, 2` |
| Lex.LcpMeaning | src/suffixArray.cpp:350-352 | the common prefix agrees up to its length and differs right after it, unless one sequence ends there |
| Lex.MatchAtIsLcp | src/suffixArray.cpp:425 | the pattern occurs at `i` exactly when its common prefix with suffix `i` is the whole pattern |
| Lex.LessTransitive | src/suffixArray.cpp:427 | lexicographic order on suffixes is transitive |
| Lex.LessTotal | src/suffixArray.cpp:427 | any two different sequences are ordered one way or the other |
| Lex.LcpOfSorted | src/suffixArray.cpp:306 | for `a < b < c`, the common prefix of `a` and `c` is the smaller of those through `b` |
| Lex.SuffixesDiffer | src/suffixArray.cpp:94 | thanks to the sentinel, two different suffixes differ before either ends |
| Lex.SortedPairs | src/suffixArray.cpp:403-418 | in a suffix array every earlier rank holds a smaller suffix |
| Lex.LcpNarrows | src/suffixArray.cpp:403-418 | the common prefix with a farther rank is at most the common prefix with a nearer one |
| Lex.SuffixArrayUnique | src/suffixArray.cpp:8-43 | two suffix arrays of the same text are equal, so the suffix array the constructor proves is the one the tests expect |
| Legacy.SuffixArray.ConstructS | suffixArray.cpp:136-144 | appends each character's distance from `'A'` and then `INT_MIN` to `S` |
| Legacy.LegacyCodesWellFormed | suffixArray.cpp:136-144 | every code is above `INT_MIN`, so the coded text is well formed for any string |
| Legacy.LegacyCodedMatchAt | suffixArray.cpp:63-66 | a non-empty pattern coded like the text occurs in the coded text exactly where it occurs in the string |
| Legacy.SuffixArray.CalcCharCounts | suffixArray.cpp:148-151 | the field becomes the old counts with every code of `S` added; from empty counts, it is the counts of `S` |
| Legacy.BumpAllCounts | suffixArray.cpp:149-150 | adding the codes of `s` to the counts of `x` gives the counts of `x + s` |
| Legacy.SuffixArray.InitBuckets | suffixArray.cpp:152-160 | `bucketsLen` is the number of distinct codes; the appended bucket starts are the prefix sums of the counts; each code is numbered by its place; from empty fields, the result is the bucket layout of `S` |
| Legacy.NumberedLayout | suffixArray.cpp:152-160 | prefix sums and the numbering by place give the bucket layout |
| Legacy.SuffixArray.ConstructTTypeArray | suffixArray.cpp:164-174 | `typeTArray` marks each position S-type exactly as the recursive type definition does, sentinel included |
| Legacy.SuffixArray.ConstructSamplePointerArray | suffixArray.cpp:176-188 | the appended entries list, in increasing order, exactly the S-type positions that are first or follow an L-type one |
| Legacy.SuffixArray.GetTypeArrayString | suffixArray.cpp:73-81 | the string has one letter per position: `'S'` where the type array says S-type and `'L'` elsewhere, so `'S'` exactly at the S-type suffixes |
| Legacy.MississippiCodes | SuffixArrayTest.cpp:66 | the codes of `"mmiissiissiippii"` with the sentinel |
| Legacy.MississippiTypes | SuffixArrayTest.cpp:66-67 | the types of `"mmiissiissiippii"` are exactly those of `LLSSLLSSLLSSLLLLS` |
| Legacy.SwissMissSamples | SuffixArrayTest.cpp:72-74 | the types of `"swiss_miss"` are those of `SLSLLSLSLLS`, and its sample positions are exactly `0, 2, 5, 7, 10` |
| Legacy.SuffixArray.InitTails | suffixArray.cpp:273-277 | each tail is one before the next bucket start, and the last is `n-1` |
| Legacy.SuffixArray.ClearAndPreload | suffixArray.cpp:266-271 | `SA` is reset to all `-1`, and each code occurring once is placed at its bucket head |
| LegacySort.PreSteps | suffixArray.cpp:269-271 | every preload step on the `-1`-blank slots writes inside the array, at the bucket head, only for a code occurring once |
| Legacy.SuffixArray.SeedSample | suffixArray.cpp:284-289 | loading the sample list in order at the moving tails gives the seeded array of the ghost run |
| Legacy.SuffixArray.SeedReduced | suffixArray.cpp:279-283 | loading `samplePointerArray[arrToLoad[i]]` from the last `i` down gives the seeded array of the ghost run in that order |
| LegacySort.SeedStepsRaw | suffixArray.cpp:279-289 | each seeding step writes at the current tail of its bucket, which moves down, for any valid seed order |
| Legacy.SuffixArray.InduceLTypes | suffixArray.cpp:296-307 | the left-to-right scan, skipping `-1` and 0, produces the slots of the ghost L-scan run |
| Legacy.SuffixArray.InduceSTypes | suffixArray.cpp:309-314 | the right-to-left scan from the restored tails, skipping `-1` and 0, produces the slots of the ghost S-scan run |
| LegacySort.ScanStepsRaw | suffixArray.cpp:302-314 | every step of both scans reads a blank, a 0 or an in-range position, and writes inside the array at its bucket's pointer |
| LegacySort.LStepFromProgram | suffixArray.cpp:302-307 | an L-scan step on the 0-for-blank picture is the same step on the `-1`-blank slots |
| LegacySort.SStepFromProgram | suffixArray.cpp:309-314 | an S-scan step on the 0-for-blank picture is the same step on the `-1`-blank slots |
| Legacy.SuffixArray.InducedSort | suffixArray.cpp:264-316 | with `LMSInduction` set and the sample list, or unset and a permutation of sample indexes, `SA` ends a bucket-sorted permutation with the sentinel first, each bucket ordered by the text up to the next sample position; set with seeds in descending suffix order, or unset with `arrToLoad` ranking the sample suffixes, `SA` is the suffix array of `S` |
| Legacy.SuffixArray.GetLMSSubstrLen | suffixArray.cpp:191-195 | the length reaches to the next sample inclusive, or to the text's end for the last one, and delimits that sample substring |
| Legacy.ReverseMap | suffixArray.cpp:202-204 | the map sends each sample position to its index in the sample list, and holds nothing else |
| Legacy.SuffixArray.NameSlot | suffixArray.cpp:217-235 | one slot keeps the naming invariant, with the name counter starting at -1 and `allUniqueLetters` false exactly when a name was reused |
| Legacy.SuffixArray.NameSlots | suffixArray.cpp:216-235 | the slot-by-slot scan of one bucket keeps the naming invariant to the bucket's end, with the flag false exactly when a name was reused and smaller names on smaller sample substrings |
| Legacy.SuffixArray.NameBucket | suffixArray.cpp:212-215 | bucket `bucketIdx`, from its head to the slot before the next head (the last bucket to `n-1`), keeps the naming invariant and the key order of the names |
| Legacy.SuffixArray.NameBuckets | suffixArray.cpp:205-236 | the scan over every bucket leaves the naming invariant holding over all of `SA`, with the flag false exactly when some name was reused |
| Legacy.SuffixArray.NameSamples | suffixArray.cpp:197-239 | the names have one entry per sample, each below their number; equal names mean equal sample substrings; a smaller name means a smaller sample suffix; the flag is true exactly when they are distinct |
| Legacy.SuffixArray.ConstructS1AndCheckAllUniqueLetters | suffixArray.cpp:197-239 | `S1` is sized to the sample list and holds names as above, ordered like the sample suffixes; the result is true exactly when `S1` has no repeated name |
| Legacy.SuffixArray.Prepare | suffixArray.cpp:14-21 | counts, buckets, types and sample list become the bucket layout, the type array and the sample list of `S` |
| Legacy.SuffixArray.SortSubstrings | suffixArray.cpp:14-24 | after the preparation and the first induced sort, `SA` is a bucket-sorted permutation ordered within buckets by sample substrings, ready for naming, and the sample list is at most about half of `S` |
| Legacy.SuffixArray.SortSample | suffixArray.cpp:14-29 | after the first induced sort and naming, `S1` has one name per sample, is well formed, at most about half as long as `S`, and a reduction of `S` (names ordered like the sample suffixes, equal only on equal sample substrings), and the flag says whether its names are distinct |
| Legacy.SuffixArray.SortSuffixes | suffixArray.cpp:24-34 | with distinct names inverted, the construction leaves `SA` the suffix array of `S` (bucket sorted, sentinel first); the as-written construction does not meet this for `"babac"` |
| Legacy.SuffixArray.SortSuffixesAsWritten | suffixArray.cpp:29-34 | the construction as written, with `getSA1()` (which returns `S1`) loaded as `SA1`, still ends with a bucket-sorted permutation, and no more (see `SeedFinding.BabacAsWritten`) |
| Legacy.SuffixArray.constructor | suffixArray.cpp:8-39 | `S` is the coded string with `INT_MIN`; `SA` is the suffix array of `S`; `LCP` is the legacy enhanced table. It builds the corrected program: distinct names are inverted rather than loaded through `getSA1()` as at lines 29-30, and the LCP fill is skipped when `n <= 1` |
| Legacy.SuffixArray.FromCodes | suffixArray.cpp:43-56 | the recursive constructor keeps the given codes and leaves `SA` the suffix array of them; distinct names are inverted rather than passed on as at lines 50-51 |
| Legacy.SuffixArray.LCPRec | suffixArray.cpp:318-330 | from `(i, j)` with `i >= -1`, the result is the minimum of `LCP[i+1..j]` and every visited interval stores its minimum at `n + mid` |
| LegacyLcp.Half | suffixArray.cpp:320 | C++ `int` halving truncates toward zero, which differs from floor division only for negative sums |
| LegacyLcp.LegacyRecCalls | suffixArray.cpp:318-330 | on intervals of two or more neighbours, every recursive call is on a strictly shorter interval inside it |
| LegacyLcp.OneNeighbourRecursesForever | suffixArray.cpp:354 | for the empty string the call `LCPRec(-1, 0)` makes the same call again |
| Legacy.SuffixArray.ConstructLCPArray | suffixArray.cpp:332-355 | for a sorted `SA`, `LCP` holds neighbour prefixes in `1..n-1`, 0 in entry 0, 0 for intervals starting at rank -1 and each other visited interval's common prefix at `n + mid`; the fill runs only when `n > 1` |
| LegacyLcp.FromVirtualRank | suffixArray.cpp:353-354 | an interval starting at the virtual rank -1 covers entry 0, so its minimum is 0 |
| LegacyLcp.LegacyTableFromFill | suffixArray.cpp:353-354 | neighbour entries, entry 0 cleared and the fill from `(-1, n-1)` make the legacy table |
| LegacyLcp.LegacyKasaiDone | suffixArray.cpp:332-355 | Kasai's scan, entry 0 cleared and the fill from the virtual rank give the legacy table |
| Legacy.SuffixArray.GetLCP | suffixArray.cpp:357-362 | on neighbours or a visited interval, the value is the common prefix of the two suffixes, or 0 from the virtual rank |
| Legacy.SuffixArray.CountMatches | suffixArray.cpp:363-370 | counting from `startIndex` stops at the first mismatch or at `patternLength`, which is the common prefix with that suffix |
| Legacy.SuffixArray.FindAllOccurances | suffixArray.cpp:241-260 | the result is the hit, then the ranks below it while `LCP` stays at least the pattern length (entry 0 always stops it), then the ranks above it likewise |
| Legacy.SuffixArray.ReportMatches | suffixArray.cpp:380-381 | at a rank whose suffix starts with the pattern, the reported list holds each occurrence once and nothing else |
| Legacy.LegacySearchStart | suffixArray.cpp:375-378 | with `low = -1` and no match at the last rank, the virtual rank and rank `n-1` bracket every match |
| Legacy.SuffixArray.MatchesAtMid | suffixArray.cpp:412-413 | the match count at `mid` is the common prefix of the pattern and suffix `mid` |
| Legacy.SuffixArray.SearchPrivate | suffixArray.cpp:372-427 | given that `SA` is the suffix array and `LCP` its legacy table (both established by the constructor), the result holds each occurrence once and nothing else |
| Legacy.SuffixArray.Search | suffixArray.cpp:58-70 | given that `SA` is the suffix array and `LCP` its legacy table (both established by the constructor): an empty pattern gives `[]`; otherwise the result is exactly the occurrences of the pattern coded from `'A'`, without repeats |
| BruteForceMatcher.BruteForce.constructor | tests/BruteForce.cpp:3 | the matcher keeps the input string |
| BruteForceMatcher.BruteForce.Search | tests/BruteForce.cpp:5-19 | the result is exactly the positions where the pattern occurs, in ascending order; an empty pattern occurs at every position `0..|text|`, a longer one nowhere |

## Left out

- SuffixArrays.SuffixArray.SortSuffixesAsWritten: states only a bucket-sorted
  permutation, because the code as written does not sort (Findings, first
  row); `SeedFinding.BabacAsWritten` shows an input where it fails.
- Legacy.SuffixArray.SortSuffixesAsWritten: states only a bucket-sorted
  permutation, for the same reason.
- SuffixArrays.SuffixArray.constructor: the text must have no NUL character.
  A NUL would code as 0, equal to the sentinel, and the sentinel would no
  longer be strictly smallest. SuffixArrays.SuffixArray.Search demands the
  same of the pattern.
- Integer widths: `size_t` and `int` are unbounded integers, and `char` is a
  Dafny `char`. Wrap-around of `size_t` arithmetic is modelled only where it
  decides control flow, namely the down-counting loops that stop at 0. The
  C++ truncating `/` on the legacy `-1` interval is written out (`Half`).
- SuffixArrays.SuffixArray.SortSuffixes: the uninitialised
  `areAllLettersUnique` of the string constructor (src/suffixArray.cpp:30) is
  taken as initialised to `true`, the value the vector constructor gives it.
- Legacy.SuffixArray.SortSuffixes requires empty intermediate fields, as they
  are in both constructors. Calling it again on a filled object appends to
  `buckets` and `samplePointerArray` in the source, and that is not modelled
  beyond the append contracts of the individual methods.
- The legacy rank array and Kasai loop (suffixArray.cpp:333-352) are the same
  code as in `src/suffixArray.cpp`. The legacy class calls the same
  `RankArray` and `KasaiScan` methods.
- Legacy.SuffixArray.ConstructS1AndCheckAllUniqueLetters computes the names
  in a local sequence and assigns `S1` once at the end. The source writes
  `S1[it->second]` slot by slot, and no reader sees `S1` in between.
- `printTable` (console output), the getters `getSA`, `getSamplePointerArray`
  and `getSA1`, which are plain field reads, and the tests' file input are
  not modelled.

## Findings

| source | as written | input that shows it | evidently intended | confidence | as-written member | corrected member |
|---|---|---|---|---|---|---|
| src/suffixArray.cpp:32-33 | with distinct names, `S1` is passed where its suffix array belongs; likewise src/suffixArray.cpp:58-60 and suffixArray.cpp:29-30 and 50-51; the src string constructor gets there only if its uninitialised flag (line 30) reads true | `"babac"`: its reduced string is `[1, 2, 0]`, which is not its own suffix array (that is `[2, 0, 1]`), so the samples are seeded `1, 5, 3` instead of `3, 1, 5` and the final array is `[5,1,3,2,0,4]` instead of `[5,1,3,0,2,4]` | seed with the inverse permutation of `S1`, which is its suffix array | not executed | SeedFinding.BabacAsWritten | SeedFinding.BabacCorrected, SuffixArrays.SuffixArray.SortSuffixes |
| src/suffixArray.cpp:338 | `LCPRec(0, S.size() - 1)` on the empty string is `LCPRec(0, 0)`, whose width is none of 1, 2 or 3, so it calls `LCPRec(0, 0)` again forever | `""` | skip the fill when the text is the sentinel alone | not executed | LcpTable.EmptyIntervalRecursesForever | SuffixArrays.SuffixArray.ConstructLCPArray |
| suffixArray.cpp:354 | `LCPRec(-1, S.size() - 1)` on the empty string is `LCPRec(-1, 0)`, which again calls `LCPRec(-1, 0)` forever | `""` | skip the fill when the text is the sentinel alone | not executed | LegacyLcp.OneNeighbourRecursesForever | Legacy.SuffixArray.ConstructLCPArray |
