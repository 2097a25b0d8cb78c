# A verified model of a network vulnerability scanner

The scanner mirrors vulnerability feeds into a local database, probes hosts, runs plugins,
collects facts in a per-host knowledge base and decides which CVEs apply to the versions it
found. This project models the parts of it where a wrong answer would be silent, in Dafny,
and proves what they are for. Each module follows one component:

- `VersionOrder`, `VersionCompare`: the four-valued version comparator. `VersionOrder` says
  what a version string means (an epoch and a list of components) and orders two versions
  by one walk over the padded lists; `VersionCompare` is the comparator as it runs on bytes,
  proved equal to it. The main result is that every decided answer is the answer of a single
  total preorder, so decided comparisons never contradict each other over chains of any length.
  `VersionLaws` says what the comparator answers in terms of the characters alone: epochs,
  numbers, words, case and delimiters.
- `CpeMatch`, `ScanPersist`: range rows on top of the comparator, the verdict per CVE, and the
  streaming pass that persists verdicts in one transaction.
- `Calendar`, `Timestamp`: civil dates, day numbers, and the text of instants.
- `NvdIngest`, `NvdRecords`, `NvdReplay`, `NvdSync`, `NvdCatchup`, `NvdCoverage`, `EpssSync`:
  pages in transactions, what a record stores column by column, what replaying records does to
  the tables, pages of a window, windows of a catch-up run, and any sequence of runs with
  failures anywhere. The watermark never passes a page that was not
  committed. Within a committed page the code drops a record whose values cannot be bound to
  its statement and goes on; the model does the same, and shows that nothing is lost without
  such a failure.
- `DepGraph`, `WorkerPool`: plugin ordering, and the lock-free work queue as interleaved
  atomic steps.
- `Kb`, `KbValidate`: the chained hash table on linked entries, rehashed in place, against a
  plain map; keys and strict UTF-8.
- `Cidr`, `TargetList`: address blocks bit by bit, target expansion under a cap, and
  in-place removal of repeated addresses.
- `CpeMap`: recognising a product in a banner, printing its CPE, and reading it back.
- `Detection`: from feed to finding. A product within the bounds of an ingested entry is
  confirmed, from its banner on, and nothing is confirmed without such an entry.
- `IcmpChecksum`: the Internet checksum and the echo request that carries it.
- `Ascii`, `Splitting`, `Wrappers`: bytes, decimal digits, text between separators.

Conventions. A `char` buffer is a Dafny string with one character per byte. C integer
division truncates (`Calendar.CDiv`); the 32-bit sum of the checksum and the doubling of the
bucket count wrap explicitly. Calls into libraries are parameters: what a server answers, how
an address is read, printed and resolved, what scanning a target returns. Failures of the
database or of memory are arbitrary, but only where a `reliable` or `memory` flag is false, so
that contracts also say what happens when nothing fails. The library sort is stood in for by a
small insertion sort, of which only the contract (the same keys, ascending) is used.

Where the code and its documentation disagree, the model follows the code:

- `include/cytadel/match/cpe_match.h` says that a bound of "*" or "-" makes the row
  undecidable; the code answers that the row is malformed (`src/match/cpe_match.c:135-145`).
- `include/cytadel/match/version_compare.h` says that an unmatched word attached to a number
  always ranks above nothing; the code consults both keyword tables first, and leaves the
  single letters a, b, c before a digit undecidable (`src/match/version_compare.c:355-395`);
  `VersionOrder.AttachedWordVerdict` and `AttachedWordAndNumberVerdict` say what it answers.
- `src/plugin/depgraph.h` says that the flagged plugins are those on the cycle or depending
  only on it; the code flags exactly those from which a cycle can be reached, whatever else
  they depend on.

`dafny verify dfyconfig.toml` checks the whole project.

## Model

| member | source | states |
|---|---|---|
| VersionCompare.HasDisallowedByte | src/match/version_compare.c:63-71 | True exactly when some byte is a control byte, 0x7F or not ASCII. |
| VersionCompare.NextToken | src/match/version_compare.c:95-127 | Starts at the first non-delimiter from the position, ends with the maximal digit or alpha run, reports no token exactly at the end of the text, and reports whether a delimiter was skipped. |
| VersionCompare.SkipZeros | src/match/version_compare.c:140-151 | The digits left after leading zeros denote the same number, and start with no zero. |
| VersionCompare.CompareDigitRuns | src/match/version_compare.c:140-166 | Digit runs of any length compare as the natural numbers they denote, without ever being converted. |
| Ascii.LexIsNumericOrder | src/match/version_compare.c:155-166 | For equally long digit runs, byte order is the order of the numbers. |
| Ascii.LongerIsLarger | src/match/version_compare.c:151-156 | Without leading zeros, the longer digit run is the larger number. |
| VersionCompare.CompareAlphaIgnoringCase | src/match/version_compare.c:172-185 | The sign of the byte-wise order of the two lower-cased words, a proper prefix first. |
| VersionCompare.IsKeyword | src/match/version_compare.c:200-258 | Finds a word in a table exactly when its lower-case form is a member. |
| VersionCompare.KeywordRank | src/match/version_compare.c:200-270 | 0 exactly for pre-release keywords, 1 exactly for words naming the release, 2 otherwise, in any case. |
| VersionCompare.IsAllZeroDigits | src/match/version_compare.c:273-280 | A digit run is all zeros exactly when its value is zero. |
| VersionCompare.IsAmbiguousAttachedLetter | src/match/version_compare.c:296-306 | True exactly for one letter a, b or c, in either case, with a digit right after it. |
| VersionCompare.ResidualVerdict | src/match/version_compare.c:355-395 | The walk over what one side has left equals the pointwise comparison of those components with nothing. |
| VersionCompare.SplitEpoch | src/match/version_compare.c:404-422 | Takes a digits-and-colon prefix off as the epoch, and only that; the epoch is "0" without one. |
| VersionCompare.TruncateAtPlus | src/match/version_compare.c:456-478 | Keeps exactly the text before the first plus sign. |
| VersionCompare.CompareRuns | src/match/version_compare.c:540-622 | Two runs at one position get the verdict of their components, whatever is attached to what. |
| VersionCompare.CompareBodies | src/match/version_compare.c:515-622 | The lockstep loop with its residual walk equals one pointwise lexicographic walk over the two component lists, each padded with nothing. |
| VersionCompare.CompareVersionStrings | src/match/version_compare.c:428-623 | The comparator on raw bytes answers what the order of the two parsed versions answers, on every pair of strings. |
| VersionOrder.DecidedIsRanked | src/match/version_compare.c:428-623 | Whenever the comparator decides, its answer is that of one total preorder of all strings. |
| VersionOrder.RankComposes | src/match/version_compare.c:428-623 | That preorder is transitive, for all triples of strings and with no undecidable exception. |
| VersionOrder.RankMirror | src/match/version_compare.c:428-623 | Swapping the arguments of that preorder mirrors it. |
| VersionOrder.RankWalkComposes | src/match/version_compare.c:515-622 | The same transitivity for any three component lists, walked position by position. |
| VersionOrder.DecidedWalksAreRanked | src/match/version_compare.c:355-622 | On any two component lists the walk is undecidable or answers as the ranking does. |
| VersionOrder.VersionsMirror | src/match/version_compare.c:428-623 | The mirror law on parsed versions, epochs included. |
| VersionOrder.DecidedComparisonsCompose | src/match/version_compare.c:355-622 | If a is at most b and b at most c, both decided, then a against c is the composed answer or undecidable, never its opposite. |
| VersionOrder.UndecidableExactly | src/match/version_compare.c:355-622 | Two strings are undecidable if and only if one of them is no version, or their epochs are equal and, no later than the first position the ranking tells apart, they hold incomparable kinds. |
| VersionOrder.WalkUndecidableExactly | src/match/version_compare.c:355-622 | The same condition for any two component lists. |
| VersionOrder.DecidedComposesExactly | src/match/version_compare.c:355-622 | Two decided at-most steps from a over b to c give the composed answer for a and c if and only if the epochs of a and c differ or no position obstructs their components. |
| VersionOrder.ChainsNeverTurnBack | src/match/version_compare.c:355-622 | Decided chains of any length, even through mutually undecidable pairs, end in the composed answer or undecidable: there is no cycle with a strict step. |
| VersionOrder.EqualComposesExactly | src/match/version_compare.c:355-622 | Equality carries over from a = b and b = c to a = c if and only if at no position one of a, c has a zero number and the other a release keyword; where it does not, a against c is undecidable. |
| VersionOrder.FlatChainsAreEqualExactly | src/match/version_compare.c:355-622 | The same condition decides for the ends of a chain of equalities of any length. |
| VersionOrder.RankedEqualWalks | src/match/version_compare.c:515-622 | On component lists: lists the ranking holds equal are decided equal unless they clash in a zero number against a release keyword. |
| VersionOrder.EqualIsNotTransitive | src/match/version_compare.c:355-395 | Any version with ".0" added and with "-ga" added is equal to the version, while the two results are undecidable against each other. |
| VersionOrder.OneIsEnough | src/match/version_compare.c:355-395 | The smallest instance: "1.0" = "1" and "1" = "1-ga", but "1.0" against "1-ga" is undecidable. |
| VersionOrder.LessIsNotTransitive | src/match/version_compare.c:355-395 | Any version with "-rc" added is less than the version, which is less than itself with ".5" added, while the two results are undecidable against each other. |
| VersionOrder.CompareMirror | src/match/version_compare.c:428-623 | Swapping the arguments always mirrors the answer, undecidable included. |
| VersionOrder.CompareReflexive | src/match/version_compare.c:428-623 | A string equals itself exactly when it has only allowed bytes and a real component; otherwise it is undecidable against itself. |
| VersionOrder.BuildMetadataIsIgnored | src/match/version_compare.c:456-478 | A "+build" suffix of allowed bytes (section 10 of SemVer 2.0.0) never changes a result on either side. |
| VersionOrder.VPrefixIsIgnored | src/match/version_compare.c:50-57 | One "v" or "V" before a digit never changes a result on either side. |
| VersionOrder.SuffixVerdict | src/match/version_compare.c:355-395 | A suffix set off by a delimiter is judged on its own, whatever version it is added to. |
| VersionOrder.WordSuffixVerdict | src/match/version_compare.c:310-395 | A delimited pre-release keyword lowers any version, a non-zero number raises it, zeros and release keywords leave it unchanged, every other word is undecidable. |
| VersionOrder.AttachmentVerdict | src/match/version_compare.c:355-395 | Text attached to the final digit of a version is judged on its own, whatever version it is attached to. |
| VersionOrder.AttachedWordVerdict | src/match/version_compare.c:372-394 | A word attached to the final digit of any version lowers it exactly for pre-release keywords, leaves it unchanged exactly for release keywords and raises it otherwise. |
| VersionOrder.AttachedWordAndNumberVerdict | src/match/version_compare.c:282-306 | With a number after the word the answer is undecidable exactly for a single a, b or c; a release keyword leaves the decision to the number; the other words as before. |
| VersionOrder.SuffixesAgainstEachOther | src/match/version_compare.c:516-622 | Two extensions of one version compare exactly as their suffixes do. |
| VersionLaws.CaseIsIgnored | src/match/version_compare.c:29-270 | Over the comparator alone: writing any capital letters small changes no answer, on either side. |
| VersionLaws.DelimitersAreAlike | src/match/version_compare.c:25-127 | Which of ".", "-" and "_" separates two components changes no answer, on either side. |
| VersionLaws.BadByteIsUndecidable | src/match/version_compare.c:63-71 | A control byte, DEL or a byte that is not ASCII makes a string undecidable against everything. |
| VersionLaws.ReadableExactly | src/match/version_compare.c:425-540 | Without a "v" and an epoch of its own, a string equals itself if and only if it has no bad byte and something other than delimiters before any "+"; otherwise it is undecidable against itself. |
| VersionLaws.EpochsDecide | src/match/version_compare.c:398-513 | Of two readable texts behind digits and a colon, the one with the larger number in front is later, whatever follows. |
| VersionLaws.EqualEpochsAreIgnored | src/match/version_compare.c:398-513 | With equal epochs, however they are spelled, the answer is that of the texts behind them. |
| VersionLaws.MissingEpochIsZero | src/match/version_compare.c:398-513 | No epoch is epoch zero: "0:" in front changes nothing, and a positive epoch is later than a text without one. |
| VersionLaws.NumbersDecide | src/match/version_compare.c:139-168 | The first number in which two extensions of a version differ decides by value, whatever follows: 1.9 is before 1.10. |
| VersionLaws.WordsDecide | src/match/version_compare.c:540-622 | Two delimited words at the same place: pre-release keywords and unknown words each in byte order of their lower case, pre-release before release keywords, release keywords alike, everything else undecidable. |
| VersionLaws.NumberAgainstWord | src/match/version_compare.c:540-622 | A number and a word at the same place are undecidable. |
| VersionLaws.PreReleasesComeBefore | src/match/version_compare.c:172-270 | Each of the thirteen pre-release words, behind any delimiter, puts a version before itself. |
| VersionLaws.ReleaseWordsAreNeutral | src/match/version_compare.c:172-270 | Each of "ga", "final", "release" and "stable" leaves a version equal to itself. |
| VersionLaws.AttachedWordsByTable | src/match/version_compare.c:355-395 | A word of small letters attached to a final digit: before for the pre-release words, equal for the release words, after for every other, like the patch letter of "1.0.2k". |
| VersionLaws.ReleaseCycle | src/match/version_compare.c:172-622 | alpha before beta before rc before the release, for every version. |
| CpeMatch.IsSentinelText | src/match/cpe_match.c:98-108 | True exactly for non-empty text of "*" and "-" bytes only. |
| CpeMatch.ScanBounds | src/match/cpe_match.c:110-168 | The scan answers the three-valued conjunction over the set of bounds: malformed without a bound or with a sentinel bound, else no match on a definite failure, else undecidable, else match. |
| CpeMatch.EvaluateRow | src/match/cpe_match.c:170-222 | A row flagged not vulnerable is no match before anything else; a range row follows its bounds; any other row matches exactly on a decided equality. |
| CpeMatch.OrderOfBoundsIsIrrelevant | src/match/cpe_match.c:77-97 | The outcome of a range row does not depend on the order, repetition or open sides of its bounds. |
| CpeMatch.BoundIsConvex | src/match/cpe_match.c:45-69 | A bound that two versions pass is never failed by a version ranked between them. |
| CpeMatch.MatchesFormAnInterval | src/match/cpe_match.c:170-222 | A row that matches two versions never answers "no match" or "malformed" for one ranked between them. |
| CpeMatch.DecidedBetweenIsNotExcluded | src/match/cpe_match.c:170-222 | The same for every member of a chain of decided comparisons between two matched versions. |
| CpeMatch.EqualVersionsNeverConflict | src/match/cpe_match.c:170-222 | Two spellings decided equal never get a match and a "no match" from one row. |
| CpeMatch.RangeRowExactly | src/match/cpe_match.c:170-222 | A vulnerable range row is malformed if and only if it has no bound or one of "*" and "-" alone; otherwise it matches if and only if the version is decided at or after a set startIncluding, after a set startExcluding, at or before a set endIncluding and before a set endExcluding, and it answers "no match" if and only if some set bound is decided the other way. |
| CpeMatch.ExactRowExactly | src/match/cpe_match.c:170-222 | Any other row matches if and only if it is flagged vulnerable and its version is decided equal, and answers "no match" if and only if it is not flagged or the version is decided different; it is never malformed. |
| ScanPersist.Accumulator.Accumulate | src/db/scan_persist.c:80-96 | One more outcome folded into the flags keeps them in step with the multiset of outcomes seen; a malformed row touches only its counter. |
| ScanPersist.Accumulator.Finalize | src/db/scan_persist.c:109-132 | The verdict read off the flags is the verdict of the multiset of outcomes. |
| ScanPersist.AggregateCveVerdict | src/db/scan_persist.c:134-150 | The fold over rows equals the verdict of the multiset of their outcomes. |
| ScanPersist.AggregateIgnoresOrder | src/db/scan_persist.c:99-150 | Any permutation of the rows gives the same verdict. |
| ScanPersist.MoreRowsNeverReassure | src/db/scan_persist.c:99-132 | No further row takes back a match or turns an open question into "not affected"; malformed counts add up. |
| ScanPersist.AggregateExactly | src/db/scan_persist.c:109-132 | Confirmed if and only if some row matches; undetermined if and only if none does and some cannot be decided; not affected if and only if neither and some row answers "no match"; no verdict otherwise. |
| ScanPersist.FlushGroup | src/db/scan_persist.c:354-516 | A finished group adds its malformed rows to the counter and exactly its one result, with the severity, KEV and EPSS columns read for its id, or none without a verdict. |
| ScanPersist.StreamRows | src/db/scan_persist.c:601-682 | The one-pass loop over rows ordered by id reports what grouping first and aggregating afterwards reports: one result for every distinct valid id with a verdict, in id order, and no other; every malformed row is counted once. |
| ScanPersist.ScanStore.DetectAndPersist | src/db/scan_persist.c:518-706 | Refuses exactly incomplete arguments; success appends exactly the report of the rows found for the lower-cased vendor and product and adds the malformed count to the scan; any failure, the commit included, leaves every table unchanged. |
| ScanPersist.ReportExactly | src/db/scan_persist.c:601-682 | A report read off the candidate rows: a CVE is in it if and only if some of its rows is a match, a "no match" or undecidable; each result has the status its rows give, and the severity, KEV and EPSS columns of its own id. |
| ScanPersist.MalformedExactly | src/db/scan_persist.c:99-150 | The counter is the number of malformed rows with a usable id. |
| Calendar.DateRoundTrip | src/db/nvd_catchup.c:75-99 | From every Gregorian date to its day number and back is the identity. |
| Calendar.DayRoundTrip | src/db/nvd_catchup.c:75-99 | From every integer day to its date, which is a Gregorian date, and back is the identity. |
| Calendar.ValidExactlyForDates | src/db/nvd_catchup.c:106-115 | The round-trip test accepts exactly the dates of the month-length and leap-year rules, which the code does not contain. |
| Calendar.NextDayIsNextNumber | src/db/nvd_catchup.c:75-82 | The calendar successor of a date has the successor of its day number. |
| Calendar.DayNumbersFollowDates | src/db/nvd_catchup.c:75-82 | Day numbers are strictly increasing in (year, month, day), in both directions. |
| Calendar.EpochDay | src/db/nvd_catchup.c:75-82 | 1970-01-01 is day 0. |
| Calendar.KnownDays | src/db/nvd_catchup.c:75-82 | Day numbers around the ends of February of 1900, 2000, 2024 and 2100. |
| Timestamp.ReadDigits | src/db/nvd_catchup.c:144-159 | Succeeds exactly when n digits stand at the position, and returns their value; otherwise the position is unchanged. |
| Timestamp.ParseInstant | src/db/nvd_catchup.c:176-286 | Returns an instant exactly when the text denotes one under the grammar, and then that instant. |
| Timestamp.ParseTime | src/db/nvd_catchup.c:216-284 | The time part is read exactly when it is a separator, a clock time in range, an optional fraction and an optional zone. |
| Timestamp.ParseTail | src/db/nvd_catchup.c:239-279 | The tail is read exactly when it is an optional fraction of one to nine digits, an optional Z and nothing else. |
| Timestamp.ScaleFraction | src/db/nvd_catchup.c:259-272 | Division and multiplication by powers of ten give the first three digits of the fraction, padded with zeros. |
| Timestamp.FormatInstant | src/db/nvd_catchup.c:296-312 | Prints the canonical text exactly for instants with a four-digit year and a time within one day. |
| Timestamp.ReadsIsUnambiguous | src/db/nvd_catchup.c:176-286 | No text denotes two instants. |
| Timestamp.CanonicalReads | src/db/nvd_catchup.c:176-312 | Every printable instant is read back from its canonical text. |
| Timestamp.ReadableHasCanonicalForm | src/db/nvd_catchup.c:176-312 | Every text that can be read has a canonical form that reads to the same instant. |
| Timestamp.CanonicalOrder | src/db/nvd_catchup.c:126-134 | Byte order of canonical texts is the order of the instants. |
| Timestamp.CanonicalShape | src/db/nvd_catchup.c:296-312 | The canonical text has "T" and "Z", dashes, colons and the dot in their places, and the digits between them are the fields of the instant. |
| Timestamp.BareDateIsMidnight | src/db/nvd_catchup.c:205-225 | A bare date denotes what it denotes with "T00:00:00Z" added. |
| Timestamp.SeparatorIsFree | src/db/nvd_catchup.c:216-225 | "T", "t" and a blank between date and time make no difference. |
| Timestamp.ZoneIsFree | src/db/nvd_catchup.c:274-279 | "Z", "z" and no zone make no difference. |
| Timestamp.FractionInMillis | src/db/nvd_catchup.c:239-272 | Only the first three digits of a fraction count, and missing ones are zeros. |
| NvdIngest.ReadCpeMatch | src/db/nvd_ingest.c:647-712 | The row offered by a match entry, or none: criteria present, six fields, a known part, non-empty vendor and product, and not an unbounded wildcard. |
| NvdIngest.NvdDb.ProcessCpeMatch | src/db/nvd_ingest.c:647-767 | Inserts the entry if it offers a row that is new and accepted; skips it, and counts it skipped, when it offers none, breaks a constraint or cannot be bound; any other failure is fatal. |
| NvdIngest.NvdDb.ProcessCpeNode | src/db/nvd_ingest.c:779-814 | Applies the entries of a node while the shared budget lasts; both counters are exact. |
| NvdIngest.NvdDb.ProcessConfigurations | src/db/nvd_ingest.c:943-970 | The nested walk with one shared budget equals inserting the first 4096 entries of the flattened list, with exact counters. |
| NvdIngest.NvdDb.ProcessCve | src/db/nvd_ingest.c:822-971 | One element changes the tables as its specification says, or is skipped whole: for its id or dates, for a constraint, or because its row cannot be bound; any other failure is fatal. |
| NvdIngest.NvdDb.IngestPage | src/db/nvd_ingest.c:977-1141 | One page in one transaction: success applies every element that could be bound, all of them on a reliable database, and moves the watermark only on a complete window; any failure leaves tables, watermark, status and totals unchanged; the counters are exact. |
| NvdIngest.ReliableKeepsAll | src/db/nvd_ingest.c:890-925 | Without a failed bind the pages are ingested whole. |
| NvdIngest.RecordCanBeLost | src/db/nvd_ingest.c:890-925 | A failed bind can lose a record: a page with one good new element may commit and leave the tables as they were. |
| NvdRecords.EntryExactly | src/db/nvd_ingest.c:647-745 | An entry whose criteria join these fields offers a row if and only if the part is known, vendor and product are not empty and it is not a wildcard without bounds; the row has the vendor and product in lower case, the version, and each bound in its own column. |
| NvdRecords.ElementExactly | src/db/nvd_ingest.c:815-900 | An element offers a row if and only if it has a well-formed identifier and both time stamps; every column is that of the element, and the severity follows the score thresholds, v3 before v2. |
| NvdRecords.StoredExactly | src/db/nvd_ingest.c:546-553 | A row is in a match table filled by ingests if and only if some ingested element has it among the first 4096 of its entries, and its data are those offered. |
| NvdRecords.CveRowExactly | src/db/nvd_ingest.c:526-543 | A row of a CVE table filled by ingests is that of the last element with its id, with the publication date of the first. |
| NvdReplay.CvesAfter | src/db/nvd_ingest.c:526-543 | After any elements a stored row is the last one offered, except for the publication date, which is the first ever stored. |
| NvdReplay.CpesAfter | src/db/nvd_ingest.c:546-555 | After any elements the match table holds what it held and, for every key stored, the data its URI determines. |
| NvdReplay.ReplayAbsorbsExactly | src/db/nvd_ingest.c:557-590 | Ingesting records over whatever earlier ones left gives what ingesting them alone gives, if and only if every key stored before was there already or is stored again and every row offered before is offered again with the same publication date, was there already, or is unchanged. |
| NvdReplay.SupersededIsAbsorbed | src/db/nvd_ingest.c:557-590 | Records handed over again, in the same or a newer state with every match they had, leave no trace. |
| NvdReplay.RepeatedAreSuperseded | src/db/nvd_ingest.c:557-590 | In particular records that occur in the replay in any order and number, when records of one id agree on the publication date. |
| NvdReplay.OtherPublicationSticks | src/db/nvd_ingest.c:532-543 | Where they do not agree, the replay differs: an abandoned attempt that was the first to store a CVE fixes its publication date. |
| NvdReplay.ApplyTwice | src/db/nvd_ingest.c:526-555 | Applying the same elements twice in a row leaves the tables that applying them once leaves. |
| NvdReplay.ReplayAbsorbsPrefix | src/db/nvd_ingest.c:557-590 | Replaying all pages over tables that already hold a prefix of them gives the uninterrupted result. |
| NvdReplay.CrashReplayConverges | src/db/nvd_ingest.c:557-590 | After any number of attempts cut short anywhere, one complete pass leaves cves and cve_cpe_matches as one uninterrupted pass would. |
| NvdReplay.PassesConverge | src/db/nvd_catchup.c:458-509 | Over any sequence of runs in which whatever a run before the last abandoned is handed over again later, in the same or a newer state, the tables end as if the committed windows had been ingested once each, in order, and after them what the last run abandoned. |
| NvdReplay.PassesConvergeOnCommitted | src/db/nvd_catchup.c:458-509 | Under the same condition and with nothing abandoned by the last run, the committed windows alone decide the tables. |
| NvdSync.SyncWindow | src/db/nvd_sync.c:76-213 | Commits a prefix of the pages in order; succeeds exactly when the last committed page is the first final one, and only then moves the watermark, to the end date; every failure has its stated cause; with a reliable database and a feed served whole it always succeeds. |
| NvdSync.PagesCoverExactly | src/db/nvd_sync.c:99-207 | Against a fixed feed served in pages of any length up to the page size, the first n pages hold at most its first n page sizes of records, and exactly those if and only if each of them was full. |
| NvdSync.WindowIsWholeExactly | src/db/nvd_sync.c:99-207 | A window synced to its final page has handed over the feed, every record once and in order, if and only if each of its pages was full, the last one holding all that was left; otherwise it has handed over fewer records and still counts as done, as the start index steps by the page size whatever came back. |
| NvdSync.WindowPartitionsFeed | src/db/nvd_sync.c:99-207 | With full pages, a window synced to its final page has handed every record of the feed to ingest exactly once, in order, in the fewest pages. |
| NvdSync.HealthyWindowSucceeds | src/db/nvd_sync.c:99-213 | With every request answered, a reliable database and a feed within the page limit no cause of failure is left. |
| NvdSync.PerPageIsNearest | src/db/nvd_sync.c:99-125 | The page size is the one from 1 to 2000 that is nearest to the configured one. |
| NvdSync.ServedWhole | src/db/nvd_sync.c:99-207 | The page limit in figures: the configured number of pages, or 100000. |
| NvdSync.AbandonedWindowIsRepaired | src/db/nvd_sync.c:99-207 | After a window abandoned at any page, the window that takes its place, which may end later and carry newer states of the records, leaves what it alone would leave. |
| NvdCatchup.SyncNextWindow | src/db/nvd_catchup.c:467-493 | The next window ends after the window length or at now, whichever is first; only a whole window moves the watermark, to that end. |
| NvdCatchup.Catchup | src/db/nvd_catchup.c:380-512 | A run commits chained windows and leaves the watermark at the last one; the tables hold all pages of all committed windows and, after a failed window, some pages of that one; each result is tied to its cause; with a reliable database and every window served whole, only the window cap can stop it. |
| NvdCatchup.StartingPoint | src/db/nvd_catchup.c:424-449 | The cursor is the instant the stored watermark denotes, or the epoch without one; a watermark is refused exactly when it denotes none; the window length follows. |
| NvdCatchup.RunsTileTime | src/db/nvd_catchup.c:424-511 | Over any sequence of runs, whatever failed in each, the committed windows tile time from the first cursor without gap or overlap, none longer than 120 days, and the watermark resumes where they end. |
| NvdCatchup.WatermarkNeverMovesBack | src/db/nvd_catchup.c:424-511 | Over any sequence of runs the stored watermark never moves back. |
| NvdCatchup.OkRunCatchesUp | src/db/nvd_catchup.c:424-512 | A successful run that starts behind now leaves the watermark at now, to the millisecond. |
| NvdCatchup.WatermarkCoversExactly | src/db/nvd_catchup.c:458-509 | The pages behind the watermark are the records of the committed windows, each once and in order, if and only if every page of every window was full; otherwise they are fewer, although the watermark has passed them. |
| NvdCatchup.TablesFollowWatermark | src/db/nvd_catchup.c:424-512 | After any runs on a reliable database with full pages, failed anywhere, in which whatever a run before the last abandoned is handed over again later, the tables are what ingesting the records of all committed windows once, in order, makes of them, followed by what the last run ingested of a window it gave up. |
| NvdCatchup.CatchupRepeatedly | src/db/nvd_catchup.c:384-512 | Calling the driver again and again, whatever comes of each call, gives runs chained by the stored watermark, the last of which left the watermark stored now, and tables that are those after all their passes; each run stands for its call. |
| NvdCatchup.CapStopsExactlyFarBehind | src/db/nvd_catchup.c:458-465 | Among runs without a failed window, the cap stops exactly those whose now lies more than 1000 windows past the cursor. |
| NvdCatchup.BetweenIsInRange | src/db/nvd_catchup.c:467-481 | Formatting a window bound never fails: every instant between two printable ones is printable. |
| NvdCatchup.EpochIsInRange | src/db/nvd_catchup.c:435-444 | The built-in starting point is 1999-01-01 and can be printed. |
| NvdCoverage.EveryChangeArrives | src/db/nvd_catchup.c:380-512 | Against a server that answers a window, asked for by the texts of its bounds, with the records modified in it, a run commits exactly the records modified from where it resumed to where its last window ended, and leaves that end as the watermark. |
| EpssSync.Pull | src/db/epss_sync.c:64-156 | Ingests the responses in order, each requested at the number of records received so far; succeeds exactly with a last page, and only then moves the watermark, once; every failure has its stated cause, an over-long URL included; with a reliable database and a feed served whole it always succeeds. |
| EpssSync.PullPartitionsFeed | src/db/epss_sync.c:81-155 | A successful pull has handed every record of the feed to ingest exactly once and in order, however short the pages were. |
| EpssSync.HealthyPullSucceeds | src/db/epss_sync.c:81-155 | With a reliable database, every request answered with a non-empty page of one feed, URLs that fit and pages long enough for the feed to end within the page cap, no cause of failure is left. |
| EpssSync.PullOverUrls | src/db/epss_sync.c:59-62 | Over a server that reads the limit and the offset out of its URLs, with the configured base and page size or their defaults, the pull has nothing to stop for and brings in the whole feed, each record once and in order. |
| EpssSync.PullIsBounded | src/db/epss_sync.c:145-149 | Offsets strictly increase, so a feed never takes more non-final pages than it has records. |
| DepGraph.FindIndex | src/plugin/depgraph.c:11-20 | Finds an id exactly when some plugin declares it, and returns such a plugin. |
| DepGraph.FindMissing | src/plugin/depgraph.c:33-49 | Reports the first unknown dependency in declaration order, exactly when there is one. |
| DepGraph.FindReady | src/plugin/depgraph.c:74-84 | The lowest unplaced index whose counter is zero, if any. |
| DepGraph.MeetDependents | src/plugin/depgraph.c:101-111 | Keeps every unplaced counter equal to the number of dependency entries not yet placed, repeated entries included. |
| DepGraph.Toposort | src/plugin/depgraph.c:22-117 | Sorted exactly when every dependency exists and the graph is acyclic, and then the order is the lexicographically least run order; on a cycle a node is flagged exactly when a cycle is reachable from it. |
| DepGraph.GreedyIsLeast | src/plugin/depgraph.c:73-112 | Always taking the smallest ready index yields the least of all orders that put dependencies first. |
| DepGraph.PlacedReachesNoCycle | src/plugin/depgraph.c:98-111 | No cycle is reachable from a node that could be placed. |
| DepGraph.StalledExactlyOnCycles | src/plugin/depgraph.c:85-96 | When nothing is ready, a node is left over exactly when a cycle is reachable from it. |
| DepGraph.OrderableExactlyWhenAcyclic | src/plugin/depgraph.c:22-117 | An order with every dependency first exists exactly when no cycle is reachable from anywhere. |
| WorkerPool.StepKeepsInvariant | src/core/worker_pool.c:68-86 | Every atomic step of the parent or of any worker keeps the invariant tying cursor, claims, workers and result slots together. |
| WorkerPool.RunKeepsInvariant | src/core/worker_pool.c:68-173 | Every state reachable under any interleaving satisfies the invariant. |
| WorkerPool.EveryTargetExactlyOnce | src/core/worker_pool.c:68-173 | When all created workers have exited, every target was claimed by exactly one of them and its slot holds its result, each half stored once; with no thread created nothing was touched. |
| WorkerPool.NeverTwice | src/core/worker_pool.c:28-42 | At every moment of every run no index has two claimants and no slot two writers. |
| WorkerPool.ReturnMeansDone | src/core/worker_pool.c:156-172 | If the pool has returned and no join failed, every created worker has exited. |
| WorkerPool.CodeIsExact | src/core/worker_pool.c:127-172 | The code returned is 0 if and only if no thread creation and no join has failed. |
| WorkerPool.ZeroMeansAllScanned | src/core/worker_pool.c:88-173 | A run that returns 0 has scanned every target exactly once, on as many threads as the least of the targets, 1024 and the setting raised to at least one. |
| WorkerPool.OneThreadIsEnough | src/core/worker_pool.c:88-173 | Without a failed join every target is scanned exactly once if any thread could be created, and none is touched otherwise. |
| WorkerPool.RunsAreBounded | src/core/worker_pool.c:71-75 | No run is longer than a bound computed from its first state: every run ends. |
| WorkerPool.NeverStuck | src/core/worker_pool.c:118-173 | Until the pool has returned, some step is possible. |
| KbValidate.ValidateKey | src/kb/kb_validate.c:5-50 | Accepts exactly slash-separated non-empty segments of key characters, at most 255 bytes in all. |
| KbValidate.ValidateNoEmbeddedNul | src/kb/kb_validate.c:52-62 | Accepts exactly the texts without a zero byte. |
| KbValidate.ValidateUtf8 | src/kb/kb_validate.c:69-143 | Accepts exactly the byte strings that are the UTF-8 encoding of some sequence of scalar values (section 4 of RFC 3629); every read is in bounds. |
| KbValidate.DecodeThenEncode | src/kb/kb_validate.c:84-135 | What the byte tables let through decodes to a scalar value whose encoding is those very bytes: no overlong form, no surrogate, nothing above U+10FFFF. |
| KbValidate.EncodingIsPrefixFree | src/kb/kb_validate.c:69-143 | No encoding is a prefix of another, so the first scalar value is determined. |
| KbValidate.Utf8AfterStart | src/kb/kb_validate.c:119-139 | Skipping one well-formed sequence neither makes nor spoils validity of the whole. |
| KbValidate.KeyExactly | src/kb/kb_validate.c:5-52 | A key in terms of its characters: at most 255 letters, digits, "_", ".", "-" and single slashes, at least one, with no slash first or last. |
| KbValidate.Utf8IsSafe | src/kb/kb_validate.c:69-143 | No accepted text holds an overlong form, a surrogate, a value beyond U+10FFFF or a lone lead byte. |
| KbValidate.EveryScalarIsAccepted | src/kb/kb_validate.c:69-143 | Every code point outside the surrogates has accepted text of one to four bytes. |
| Kb.KnowledgeBase.constructor | src/kb/kb.c:140-156 | A new table of 64 buckets is valid and empty. |
| Kb.KnowledgeBase.Find | src/kb/kb.c:52-61 | Returns the entry of the key with its current value, or null exactly when the key is not in the map. |
| Kb.KnowledgeBase.PushFront | src/kb/kb.c:91-93 | Linking an entry in at the front of its bucket gives a table with exactly that entry more. |
| Kb.KnowledgeBase.GrowIfNeeded | src/kb/kb.c:69-102 | Growing, succeeding or failing, keeps the table valid and its contents, entries and values; it fails only with the buckets untouched. |
| Kb.KnowledgeBase.Rehash | src/kb/kb.c:82-101 | Re-splicing every chain in place moves every entry to the bucket its hash selects, losing and duplicating none. |
| Kb.KnowledgeBase.MoveBucket | src/kb/kb.c:88-95 | Splicing one old chain moves exactly its entries. |
| Kb.KnowledgeBase.InsertNew | src/kb/kb.c:110-138 | Inserting a new key, growing first if needed, is adding it to the map. |
| Kb.KnowledgeBase.SetStr | src/kb/kb.c:186-247 | Stores exactly when key, length, zero bytes and UTF-8 are in order and memory lasts; success is a map update of value and type, refusal changes nothing. |
| Kb.KnowledgeBase.SetInt | src/kb/kb.c:249-273 | The same for integers, where only a new key needs memory. |
| Kb.KnowledgeBase.SetBool | src/kb/kb.c:275-299 | The same for booleans. |
| Kb.KnowledgeBase.Get | src/kb/kb.c:301-327 | Agrees with the map on every key; an invalid key is told apart from an absent one. |
| Kb.KnowledgeBase.Count | src/kb/kb.c:359-361 | The entry count is the number of keys. |
| Kb.KnowledgeBase.ForEach | src/kb/kb.c:340-357 | Visits every key exactly once, with its value. |
| Kb.Drive | src/kb/kb.c:186-338 | Any calls in any order, memory lasting or not at each, through any growth: every get returns the value and type last accepted for its key, every set is accepted exactly when key, value and memory allow, and the table ends as the trace says. |
| Cidr.ParseBlock | src/net/cidr.c:24-99 | Accepts exactly one slash, a readable address and a prefix of one or two digits up to 32, masks the address, and tells the three refusals apart. |
| Cidr.NetworkIsRoundedDown | src/net/cidr.c:94-97 | Masking bit by bit rounds the address down to a multiple of the block size, /0 and /32 included. |
| Cidr.NthIsOffset | src/net/cidr.c:113-135 | Combining network and index bit by bit is adding them. |
| Cidr.BlockIsExact | src/net/cidr.c:94-135 | The addresses of a block, from /0 to /32, are exactly those agreeing with it on the prefix bits. |
| Cidr.BlockAscends | src/net/cidr.c:101-135 | They come in strictly ascending order and fit in 32 bits. |
| TargetList.TargetArray.Push | src/net/target_list.c:47-59 | Appends one target, growing when full; a refused allocation changes nothing. |
| TargetList.ExpandToken | src/net/target_list.c:74-162 | Appends exactly what one token stands for, or refuses with the status of the first rule broken and appends nothing; the separate running total, tested against the cap and raised once per block or host, equals the array length on every exit but a failed allocation, and never exceeds the cap. |
| TargetList.ExpandSpec | src/net/target_list.c:166-206 | Expands the comma-separated tokens in order up to the first refusal; too long a text and too many tokens are refused; the running total stays the array length. |
| TargetList.RefusalIsFinal | src/net/target_list.c:166-206 | Once a token is refused, no later token changes the answer. |
| TargetList.MarkRunHeads | src/net/target_list.c:266-270 | Marking the head of every run of equal addresses among the sorted keys marks exactly the first target of each address. |
| TargetList.RunHeadIsFirst | src/net/target_list.c:218-231 | Sorted by address and then index, a key heads its run exactly when no earlier target has its address. |
| TargetList.Dedup | src/net/target_list.c:242-285 | Sorting, marking and sliding down in place equals the order-preserving filter that keeps the first target of every address. |
| TargetList.FirstPerIpKeepsEachOnce | src/net/target_list.c:233-241 | The filter keeps every address, once. |
| TargetList.FirstPerIpKeepsFirsts | src/net/target_list.c:233-241 | What the filter keeps is exactly the earliest target of each address. |
| TargetList.ParseTargets | src/net/target_list.c:287-365 | Specification and file together give their expansion with repeated addresses removed, or the status of the first thing refused, for all inputs. |
| TargetList.TrimExactly | src/net/target_list.c:74-100 | Blanks around a token go, and nothing else. |
| TargetList.BlockTokenExactly | src/net/target_list.c:74-162 | A block token expands to its addresses in order, from the one rounded down to the block size on, each printed as host and address, or to nothing if they do not fit under the cap. |
| TargetList.BlockAddressesExactly | src/net/target_list.c:117-136 | Among them are exactly the addresses that agree with the block on the prefix bits. |
| TargetList.HostTokenExactly | src/net/target_list.c:137-160 | Any other token stands for the one target its host resolves to. |
| TargetList.BadTokenIsInvalid | src/net/target_list.c:74-162 | A blank token, one of 256 characters or more, and one with a slash that is no block are refused as invalid. |
| TargetList.ParsedAddressesExactly | src/net/target_list.c:287-365 | Of an accepted list, file or both the result holds exactly the addresses some token or line stands for, each once. |
| TargetList.AcceptedExactly | src/net/target_list.c:287-365 | Within the limits on the text an input is accepted if and only if every token and line stands for something and all together for 1 to 65536 targets. |
| CpeMap.FindText | src/net/cpe_map.c:36-47 | The first occurrence of a non-empty needle, exactly when there is one. |
| CpeMap.ExtractVersion | src/net/cpe_map.c:61-76 | The longest run of version characters, at most 63 of them, in lower case. |
| CpeMap.Identify | src/net/cpe_map.c:83-103 | Finds the rule that speaks for a banner and its version, exactly when there is one; a marker without a version ends the search. |
| CpeMap.IdentifiedByName | src/net/cpe_map.c:20-103 | What is identified occurs in the banner, followed by its version up to the case of letters, and goes by one of the seven pairs of vendor and product names. |
| CpeMap.IdentificationIsUnique | src/net/cpe_map.c:83-103 | A banner identifies at most one rule and one version. |
| CpeMap.MapAndWrite | src/net/cpe_map.c:78-125 | Stores exactly for an identified banner while memory lasts, and then reading the port back gives that rule and version; otherwise the knowledge base is unchanged; neither length check can refuse. |
| CpeMap.CpeIsStorable | src/net/cpe_map.c:105-121 | Every printed CPE fits its buffer, is UTF-8 without zero bytes and is within the value limit. |
| CpeMap.KeyIsValid | src/net/cpe_map.c:115-119 | The key of every port is a valid key of at most nine bytes. |
| CpeMap.SplitCpe | src/cli/scan_wiring.c:109-125 | Fills the fields between colons, and fails exactly when there are more than the array holds. |
| CpeMap.ResolvePort | src/cli/scan_wiring.c:127-215 | Returns the service named by the stored value, and none for every value that is absent or not a usable CPE 2.3 URI. |
| CpeMap.CpeTextSplits | src/net/cpe_map.c:105-107 | The printed CPE splits into 13 fields, with vendor, product and version where the reader looks. |
| CpeMap.StoredCpeResolves | src/cli/scan_wiring.c:127-215 | Whatever the printer stored, the reader returns that rule's vendor and product and the extracted version. |
| CpeMap.ResolveExactly | src/cli/scan_wiring.c:127-215 | A text names a service if and only if it has 6 to 13 fields, "cpe" and "2.3" first, and a vendor, a product and a version that are not empty, the first two within 256 characters. |
| CpeMap.OtherPortsAreUntouched | src/net/cpe_map.c:115-121 | Writing one port's CPE changes what no other port reports. |
| Splitting.SplitOfJoin | src/cli/scan_wiring.c:109-125 | Splitting undoes joining when no field contains the separator. |
| Splitting.JoinOfSplit | src/cli/scan_wiring.c:109-125 | Joining undoes splitting for every text, and no field contains the separator. |
| Splitting.FieldAt | src/db/nvd_ingest.c:502-517 | The field with a given index, or failure exactly when there are too few fields. |
| IcmpChecksum.ComputeChecksum | src/net/icmp_probe.c:25-42 | Both loops end; the result is the complement of the 32-bit word sum folded to 16 bits, and without overflow the complement of the one's complement sum of RFC 1071. |
| IcmpChecksum.CarriesCanWait | src/net/icmp_probe.c:29-40 | Folding the carries once at the end comes to the same as folding after every addition, and is congruent to the word sum modulo 65535. |
| IcmpChecksum.ShortSumsDoNotWrap | src/net/icmp_probe.c:27-34 | Up to 131074 bytes the 32-bit sum cannot overflow and the result is that of RFC 1071. |
| IcmpChecksum.ExactWhenLostCarriesCancel | src/net/icmp_probe.c:25-42 | For bytes of any length, the 32-bit sum gives the RFC's answer if and only if the carries lost cancel modulo 65535 and leave zero only for a zero sum. |
| IcmpChecksum.LongSumsCanBeWrong | src/net/icmp_probe.c:25-42 | The bound is tight: 131075 bytes of 255 give a wrong checksum. |
| IcmpChecksum.StoringAddsWord | src/net/icmp_probe.c:82-83 | Storing a word big-endian in a zeroed field at an even offset adds it to the sum. |
| IcmpChecksum.VerifiesExactly | src/net/icmp_probe.c:25-42 | Recomputing over the packet gives zero exactly for stored words congruent to the sender's checksum modulo 65535, in a packet that is not all zero. |
| IcmpChecksum.StoredChecksumVerifies | src/net/icmp_probe.c:76-83 | Recomputing over a header that carries its checksum gives zero. |
| IcmpChecksum.EchoRequest | src/net/icmp_probe.c:73-83 | The request built for every identifier has its fields in place and verifies to zero. |
| Detection.WithinBoundsIsConfirmed | src/db/scan_persist.c:517-690 | A vulnerable entry with version bounds in any ingested element: every scan that detects its vendor and product, in any case, in a version decided to be within the bounds reports the CVE as confirmed. |
| Detection.EqualVersionIsConfirmed | src/db/scan_persist.c:517-690 | The same for an entry that names one version, when the detected version is decided equal to it. |
| Detection.ConfirmedHasCause | src/db/scan_persist.c:517-690 | Behind every confirmed result stands an entry of an ingested element with that id, stored under the detected vendor and product, that matches. |
| Detection.BannerIsConfirmed | src/cli/scan_wiring.c:127-215 | The same from a banner: what is recognised in it, written to the knowledge base and read back, is what the entries of the feed are looked up by. |

## Left out

- ScanPersist.ScanStore.DetectAndPersist: the candidate query is represented by its ordered rows for a vendor and a product, and the snapshot tables by maps that do not change during the pass.
- Detection.WithinBoundsIsConfirmed: the candidate query is represented by what it must answer from the match table (the columns and the filter of `src/db/scan_persist.c:579-582`), and the table by ingests into an empty one.
- NvdRecords.EntryExactly: stated for texts within the length limits; what clipping does to longer ones is in NvdIngest.OfferedCpe.
- NvdCoverage.EveryChangeArrives: the records do not change while a run lasts and are served in full pages.
- EpssSync.EpssDb.Ingest: a stand-in for the EPSS page ingest: which records are valid and what they do to the epss table and to the CVE placeholders is not modelled, only the list of records handed over and the move of the watermark.
- NvdIngest.NvdDb.IngestPage: total_records is added to again when a page is replayed, as in the code; convergence is claimed for the two tables only. The columns source and ingested_at, the sync_state times and last_error, and the page byte limit are not modelled.
- NvdIngest.NvdDb.ProcessCve: the description and the two CVSS blocks are taken as already extracted; choosing the language, the first metric and the allowed severity words is not modelled. Timestamps that do not fit their buffer are clipped as in the code.
- NvdSync.WindowIsWholeExactly: assumes that an answer holds at most the clamped page size; `src/net/nvd_fetch.c:284` asks for the configured size unclamped, so sizes outside 1 to 2000 are covered only as far as the server keeps to the clamped one.
- NvdCatchup.TablesFollowWatermark: stated for windows served in full pages; WatermarkCoversExactly says that with a short page records are missing.
- WorkerPool.EveryTargetExactlyOnce: an atomic step is indivisible and its effects are seen in order; the memory model behind the relaxed counter is not modelled, and scanning a target is a function of its index. Failure to allocate the thread handles is not modelled.
- DepGraph.Toposort: requires distinct plugin ids, which the registry guarantees (`src/plugin/registry.c:152-166`); failure of its two small allocations, reported as a cycle, is not modelled.
- Kb.KnowledgeBase.SetStr: one flag stands for all allocations of one call; null pointers are not modelled, nor is freeing.
- TargetList.ParseTargets: resolving one host and reading the targets file are parameters; one `memory` flag stands for all allocations, and the final shrink of the array, which cannot change its contents, is left out.
- VersionCompare.CompareVersionStrings: null pointers with a non-zero length are not modelled.
- IcmpChecksum.ExactWhenLostCarriesCancel: states when the code meets the RFC for any length; the echo header is 8 bytes, far below the bound.
- Log messages, error texts and status names.
- SQLite and cJSON internals: tables are maps with commit and rollback, pages are decoded records.
- Sockets, TLS, HTTP retries, name resolution, the Lua interface, port ranges, report writing and the command line.
- KEV and EPSS row ingest, schema migrations and direct plugin findings, which repeat shapes modelled here.
