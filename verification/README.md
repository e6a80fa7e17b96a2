# Producer award intervals — a Dafny model

This project models the logic core of a small movie-awards service. The
service loads award nominations into a store. It then reports, for each
producer with at least two wins, the gap in years between consecutive
wins. From those gaps it picks the producers with the shortest and the
longest gap.

The model covers three pieces:

- **Current aggregator** (`app/movie/service.py`). It groups the winning
  `(producer, year)` pairs by exact producer name, in first-appearance
  order (the insertion order of a Python dict). It sorts each producer's
  years, keeping duplicates, and emits one `IntervalRecord` per adjacent
  pair. It returns the *tie sets*: every record whose interval is the
  global minimum and every record whose interval is the global maximum,
  both in emission order. `IntervalRecord` is the response record
  `AwardedProducerResponse` (`producer`, `interval`, `previousWin`,
  `followingWin`).
- **Legacy aggregator** (`app/services/movies.py`). It does the same
  grouping and pair walk, but keeps only one running best per extreme. An
  interval replaces the best only when it is strictly longer (the longest
  starts at 0) or strictly shorter (the shortest starts at `float("inf")`,
  modelled as `Bound.Infinity`). It returns a 4-tuple, which is all `None`
  when there are no awards.
- **`winner` validator** `MovieRecord.convert_winner`. The same code
  appears in `app/movie/schema.py` and `app/schemas/movies.py`, and the
  model defines it once. A blank string is `False`. `yes` and `no`, in any
  letter case, are `True` and `False`. Any other string is rejected.
  Non-string values pass through unchanged.

Modules:

- `Wrappers`: `Option` (Python's `None`) and `Result` (a raised validation error).
- `Sorting`: `list.sort` on years.
- `Grouping`: the dict of years per producer.
- `Intervals`: the current aggregator.
- `IntervalProperties`: lemmas about the current aggregator.
- `LegacyIntervals`: the legacy aggregator, and how it compares with the current one.
- `Winner`: the field validator.

The store query is replaced by an input sequence of `(producer, year)`
pairs. Nothing else is a parameter, because the aggregators are pure.

Both tie sets keep emission order, which follows the grouping order (the
first appearance of each producer in the input). `LongestAndShortest`
states them as order-preserving subsequences of the emission. Both store
queries (`app/movie/repository.py:26` and `app/services/movies.py:79`)
return the rows ordered by producer name and then year, so in the running
program producers are grouped in name order.

The test at `tests/test_movies.py:71-93` calls the legacy function and
unpacks its 4-tuple into two names, which Python rejects. Its expected
shortest and longest records are therefore proved here about the
current aggregator, by `JohnAndJane` and `JaneAndJohn`.

## Model

| member | source | states |
|---|---|---|
| Sorting.Sort | app/movie/service.py:95 | the sorted years are in ascending order and are a permutation of the input, so duplicates are kept |
| Sorting.SortedPermutationUnique | app/movie/service.py:95 | two ascending sequences with the same multiset of years are equal |
| Sorting.SortIsTheSortedPermutation | app/services/movies.py:101 | any ascending rearrangement of the years (whatever sort algorithm or stability produced it) equals the modelled sort |
| Grouping.ProducersAreTheWinners | app/movie/service.py:84-88 | the dict keys: each producer that won at least once appears exactly once, and no other name appears |
| Grouping.ProducersInFirstAppearanceOrder | app/movie/service.py:84-88 | the dict keys are ordered by each producer's first win in the input |
| Grouping.YearsOfCounts | app/movie/service.py:85-88 | a producer's year list holds each year exactly as many times as the input holds that (producer, year) pair |
| Grouping.YearsOfNonWinner | app/movie/service.py:86-88 | a name that is not a dict key has no years |
| Grouping.GroupByProducer | app/services/movies.py:84-90 | the dict-building loop yields exactly the first-appearance key order and, per key, exactly that producer's years |
| Intervals.ProducerIntervals | app/movie/service.py:92-103 | a producer with n wins contributes 0 records if n < 2 and n - 1 otherwise; each record carries that producer, has previousWin <= followingWin, and has interval = followingWin - previousWin >= 0 |
| Intervals.Emitted | app/movie/service.py:91-103 | the number of emitted records is the sum over producers of max(0, wins - 1); every record belongs to one of the dict keys, is well-formed and has a non-negative interval |
| Intervals.MinInterval | app/movie/service.py:110 | the minimum is at most every record's interval and is the interval of some record |
| Intervals.MaxInterval | app/movie/service.py:109 | the maximum is at least every record's interval and is the interval of some record |
| Intervals.WithInterval | app/movie/service.py:113-114 | the comprehension keeps every record with the given interval, with its multiplicity, drops all others, and keeps their order |
| Intervals.LongestAndShortest | app/movie/service.py:72-116 | each tie set is empty exactly when no record is emitted; `shortest` holds every emitted record at the global minimum, with its multiplicity and in emission order, and nothing else; `longest` is the same at the global maximum |
| IntervalProperties.ProducerContribution | app/movie/service.py:92-96 | the records of any one producer in the emission are exactly its adjacent-pair records, so there are max(0, n - 1) of them |
| IntervalProperties.RecordProvenance | app/movie/service.py:95-102 | every emitted record spans two consecutive entries of its producer's sorted years, and its interval is their difference (0 for a repeated year) |
| IntervalProperties.ProducerRecordsAreItsPairs | app/movie/service.py:95-103 | the converse of `RecordProvenance`: the k-th record of a producer's slice of the emission spans its k-th and (k+1)-th sorted years, so every consecutive pair is emitted exactly once and in ascending order, and there are no other records of that producer |
| IntervalProperties.EmittedBlocks | app/movie/service.py:91-103 | the emission is one contiguous block per dict key, in key order: block a starts where block a - 1 ends and is exactly the adjacent-pair records of the a-th producer, so producers' records never interleave |
| IntervalProperties.NoRepeatWinnerGivesEmpty | app/movie/service.py:80-106 | with no awards, or no producer with two wins, nothing is emitted and the result is ([], []) |
| IntervalProperties.TieSetsBracket | app/movie/service.py:109-116 | every shortest record is emitted and at the minimum; every longest record is emitted and at the maximum; no shortest interval exceeds a longest one |
| IntervalProperties.AllEqualGivesSameTieSets | app/movie/service.py:109-114 | when all emitted intervals are equal, shortest == longest |
| IntervalProperties.TwoProducers | app/movie/service.py:92-116 | two distinct producers with two wins each, years listed in any order: the smaller gap is the only shortest record and the larger gap the only longest one, whichever producer comes first; equal gaps put both records, first-listed producer first, in both tie sets |
| IntervalProperties.JohnAndJane | tests/test_movies.py:71-93 | the test rows in insertion order, John (2000, 2005) then Jane (2010, 2012), give shortest = [Jane 2 2010 2012] and longest = [John 5 2000 2005] |
| IntervalProperties.JaneAndJohn | app/movie/repository.py:26 | the same rows in the store's producer-then-year order, Jane first, give the same shortest and longest records |
| LegacyIntervals.Walk | app/services/movies.py:92-113 | the running longest starts at 0 and bounds every interval; it names a producer only if some interval is positive, and then the first record to reach it; the running shortest stays infinite until the first record, then bounds every interval from below and names the first record to reach it |
| LegacyIntervals.WalkProvenance | app/services/movies.py:101-113 | a producer the walk names really owns two consecutive sorted win years whose difference is the named interval |
| LegacyIntervals.WalkAgainstTieSets | app/services/movies.py:104-113 | the legacy shortest pick is the head of the current shortest tie set; a legacy longest pick is the head of the current longest tie set; when the legacy longest names no producer but records exist, the current maximum is 0 |
| LegacyIntervals.LegacyLongestAndShortest | app/services/movies.py:72-115 | no awards gives four Nones; awards without a repeat winner give (None, 0, None, infinity); otherwise the intervals are the global bounds, the producers are the first in walk order to reach them, and an all-zero dataset names no longest producer (provenance and the comparison with the current version are stated about the `Walk` state by `WalkProvenance` and `WalkAgainstTieSets`) |
| Winner.ConvertWinner | app/movie/schema.py:11-22 | a non-string passes through unchanged; a blank string gives False; yes in any letter case gives True; no in any letter case gives False; every other string is rejected with the validator's message, and exactly one of these outcomes happens |
| Winner.StripEmptyIffBlank | app/movie/schema.py:14-15 | stripping leaves the empty string exactly when the string is all whitespace |
| Winner.LowerMatchesWord | app/movie/schema.py:16-19 | lower-casing gives a lower-case word exactly when the string spells that word in some mix of letter cases |
| Winner.OnlyYesNoSpellings | app/schemas/movies.py:16-21 | a non-blank string whose length is neither 2 nor 3 is always rejected, because nothing is stripped before the comparison |
| Winner.PaddedAndBooleanWordsRejected | tests/test_movies.py:57-61 | " yes", "True" and "False" are rejected, so rows that use True/False winners are not stored |
| Winner.AcceptedSpellings | app/schemas/movies.py:13-19 | "yes", "Yes", "NO", "" and whitespace-only strings are accepted with the expected flag |

## Left out

- CSV import (`process_csv_to_movies`): file reading and writing, the `_invalid.csv` side file, and the session add, commit and rollback. These are I/O.
- The SQLAlchemy query, repository, models and database bootstrap. The store is the input sequence. Both queries sort rows by producer and then year; the model accepts the rows in any order and states the tie-set order and the legacy tie-breaking in terms of the order it is given.
- The Flask controller, routes, status-code envelope and configuration. This is web wiring.
- Pydantic machinery beyond the validator body: `model_validate`, `from_attributes`, the `int()` coercion of `year`, and the final `bool` typing of the passed-through value.
- `float("inf")` as a number. The legacy shortest sentinel is the datatype value `Bound.Infinity`.
- The `v.strip() == None` test in the validator. It is always false in Python, so it changes nothing.
- Winner.ConvertWinner: `str.strip()` and `str.lower()` are modelled on ASCII only (the whitespace characters `\t \n \v \f \r`, `\x1c`-`\x1f` and space; the letters A-Z). Python also strips and lower-cases non-ASCII characters. No non-ASCII character lower-cases to the letters of "yes" or "no", but a non-ASCII whitespace-only string is not treated as blank here.
- The legacy nested loops: the source walks producers and then each producer's years in two nested loops. The model walks the single emitted record list, which has the same order.
- Repeated calls on the same input give the same result. This is not stated as a lemma, because every operation here is a pure function of its input.
