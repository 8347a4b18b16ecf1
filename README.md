# xmeasures core in Dafny

A Dafny model of the evaluation core of xmeasures. xmeasures computes
extrinsic quality measures of clusterings: a collection of possibly
overlapping clusters, each a list of node ids, is compared with another
collection. The model covers the following.

- The sorted-range toolkit of `shared/operations.hpp`:
  - integral `less`/`equal`, `rdiv` and `bsVal`;
  - the linear, binary and "fast" lower-bound and exact searches;
  - `sorted`, `insorted` and `insortedLight`.
- `SparseMatrix` with its creating `operator()` and its checked `at`.
- The CNL reader:
  - `parseHeader` and `estimateNodes` (src/fileio.cpp);
  - `Collection::load` (include/interface.hpp): tokenising with `strtok`, skipping comments, dropping the cluster id, the node-base filter, and the node index `m_ndcs`;
  - the node-base hash `AggHash`, with its 64-bit wrap-around and the 32-bit square of an id.
- The F1 evaluation in include/interface.hpp:
  - `gmatches`, with its originator-tagged matching counters;
  - `avggms`, weighted and unweighted, with its overflow check;
  - `f1gm`.
- The member contributions: `evalconts` and `clearconts`.
- The helpers of src/interface.cpp: the `to_string` names, `xwmatch`/`xumatch`, `hmean` and `amean`.
- The C interface (src/interface_c.cpp):
  - `loadCollection`, with `makeunique`, the node base and the lost clusters;
  - the F1 entry points `f1x`, `f1`, `f1p` and `f1h`.

`Collection::load` calls `parseCnlHeader` and `estimateCnlNodes`. These are
declared in shared/fileio.h, and their bodies are not part of this model.
They are modelled by `parseHeader` and `estimateNodes` of src/fileio.cpp,
which include/fileio.h declares for the same purpose. The result types
differ: `estimateNodes` returns an `Id` (32 bits), while `estimateCnlNodes`
returns a `size_t` (shared/fileio.h:353). The model follows `estimateNodes`.
Lines are modelled as `readline` yields them, with the trailing `'\n'` kept.
`readline` returns false on a last line without `'\n'`, although the line is
in the buffer. So the loop of `parseHeader` stops before examining such a
line, and the loop of `load` processes it only when it is the line already
in the buffer when the loop starts.

Modules follow the source:

- `Ops`: shared/operations.hpp.
- `Sparse`: `SparseMatrix`.
- `Text`: `strtok`, `strtoul` and `tolower` in the C locale.
- `NodeIndex`: `m_ndcs`, `std::sort` and `std::unique`.
- `Loading`: what a CNL line yields.
- `FileIO`: src/fileio.cpp.
- `Interface`: src/interface.cpp.
- `Matching`: the specification of `gmatches`, `avggms` and `f1gm`.
- `Collections`: the class `Collection` and its methods.
- `CInterface`: src/interface_c.cpp.
- `Arith`: arithmetic facts.
- `Exceptions`: `Option` and `Result`.

Clusters are named by their position in `m_cls`. A node's entry in `m_ndcs`
is the list of its owner positions, in the order in which the clusters were
pushed.

## Model

| member | source | states |
|---|---|---|
| Ops.CDiv | shared/operations.hpp:182-189 | C division truncates toward zero: for every sign of the operands, the quotient's magnitude is the floor of the magnitudes' quotient and its sign is the product of the operands' signs |
| Ops.CDivNegDividend | shared/operations.hpp:182-189 | negating the dividend negates the truncated quotient |
| Ops.CDivNegDivisor | shared/operations.hpp:182-189 | negating the divisor negates the truncated quotient |
| Ops.RDivNegDividend | shared/operations.hpp:182-189 | `rdiv` of a negated dividend is the negated `rdiv` |
| Ops.RDivNegDivisor | shared/operations.hpp:182-189 | `rdiv` by a negated divisor is the negated `rdiv` |
| Ops.RDivSigns | shared/operations.hpp:182-189 | `rdiv` is the `rdiv` of the magnitudes, negated when the operands' signs differ |
| Ops.RDivRoundsHalfUp | shared/operations.hpp:182-189 | `rdiv` of non-negative operands is the quotient plus one exactly when twice the remainder reaches the divisor |
| Ops.RDivNearest | shared/operations.hpp:182-189 | for operands of any sign, `rdiv` is within half a divisor of the exact quotient; for a non-negative dividend and a positive divisor, halves round up |
| Ops.Less | shared/operations.hpp:124-129 | integral `less` is `a < b`, whatever the precision argument |
| Ops.Equal | shared/operations.hpp:169-174 | integral `equal` is `a == b`, whatever the precision argument |
| Ops.BsVal | shared/operations.hpp:222-232 | `bsVal` is negative, zero or positive exactly when `cv` is below, equal to or above `v` |
| Ops.LessEqualAgreeWithBsVal | shared/operations.hpp:124-129 | `less`/`equal` agree with the sign of `bsVal`, do not depend on the precision argument, and at most one of them holds |
| Ops.AscendingPairwise | shared/operations.hpp:603-625 | the adjacent ordering `sorted` checks extends to every pair of positions |
| Ops.LowerBoundUnique | shared/operations.hpp:391-427 | the lower bound of a value in a range is unique, so all searches that compute it agree |
| Ops.LowerBoundFindsMember | shared/operations.hpp:430-438 | on a non-decreasing range, the lower bound holds the value exactly when the value occurs in the range |
| Ops.InsertAtLowerBoundKeepsOrder | shared/operations.hpp:640-665 | inserting at the lower bound keeps a range ascending, and strictly ascending when the value is new |
| Ops.LinearIFind | shared/operations.hpp:451-464 | `linear_ifind` returns the first position whose element is not below the value, on any range |
| Ops.BinaryIFind | shared/operations.hpp:391-427 | `binary_ifind` stays in the range and stops on an element not below the value; on an ascending range it returns the lower bound |
| Ops.LinearFind | shared/operations.hpp:482-490 | `linear_find` returns the first occurrence of the value, or the end exactly when the value is absent from a non-decreasing range |
| Ops.BinaryFind | shared/operations.hpp:430-438 | `binary_find` returns an occurrence of the value, or the end exactly when the value is absent from a non-decreasing range |
| Ops.FastIFind | shared/operations.hpp:503-514 | below `BINSEARCH_MARGIN` elements the linear lower bound, otherwise the bisection; the lower bound on strictly ascending ranges |
| Ops.FastFind | shared/operations.hpp:527-538 | `fast_find` returns an occurrence of the value, or the end exactly when the value is absent from a non-decreasing range |
| Ops.SearchesAgree | shared/operations.hpp:503-514 | the linear and the binary lower-bound searches return the same position on a strictly ascending range |
| Ops.Sorted | shared/operations.hpp:603-625 | `sorted` is true exactly when the range is non-decreasing, or strictly ascending under `unique` |
| Ops.Insorted | shared/operations.hpp:640-665 | `insorted` returns the lower bound of the element; on strictly ascending elements without it, inserting it there keeps them strictly ascending |
| Ops.InsortedLight | shared/operations.hpp:679-705 | `insortedLight` returns the lower bound found by its linear scan; on strictly ascending elements without the element, inserting it there keeps them strictly ascending |
| Sparse.OrderedRowUnique | include/interface.hpp:70-77 | a row kept ordered by position holds each position once |
| Sparse.RowLowerBound | include/interface.hpp:70-77 | in an ordered row, the lower bound holds the column exactly when the column is present, otherwise it is where the column belongs |
| Sparse.SparseMatrix.constructor | include/interface.hpp:62-67 | a new matrix has no rows; the row count only reserves space |
| Sparse.SparseMatrix.Access | include/interface.hpp:69-76 | `operator()` returns the item of the column, inserting a zero item in order when absent, and leaves every other row unchanged |
| Sparse.SparseMatrix.At | include/interface.hpp:113-123 | `at` fails with `out_of_range` exactly when the row or the column is absent; otherwise it returns the stored value |
| Text.StrTok | include/interface.hpp:218-262 | `strtok` yields no token exactly when the text is all delimiters; otherwise the first run of non-delimiters and the text after the delimiter that ends it |
| Text.Tokens | include/interface.hpp:218-262 | repeated `strtok` yields non-empty tokens, and none exactly when the text is all delimiters |
| Text.StrToUL | include/interface.hpp:245 | `strtoul` in base 10 stays below 2^64 |
| Text.StrToULSkipsSpace | include/interface.hpp:245 | `strtoul` skips leading white space |
| Text.StrToULDigits | include/interface.hpp:245 | `strtoul` of digits followed by a non-digit is their decimal value, saturated at `ULONG_MAX` |
| Text.StrToULPlus | include/interface.hpp:245 | a leading `+` does not change the value |
| Text.StrToULMinus | include/interface.hpp:245 | a leading `-` negates the value modulo 2^64, and an overflowing value saturates at `ULONG_MAX` |
| Text.StrTokWord | include/interface.hpp:218-262 | `strtok` skips leading delimiters and returns the word up to the next delimiter, resuming after that delimiter |
| Text.ParseId | include/interface.hpp:245 | the conversion to the 32-bit `Id` stays below 2^32 and keeps every value that fits |
| Text.ParseIdRoundTrip | include/interface.hpp:245 | an id written in decimal is read back as itself |
| Loading.TokensAreTokens | include/interface.hpp:218-262 | the `strtok` cursor of the member loop yields exactly the tokens of the line |
| Loading.ClusterTokensWords | include/interface.hpp:218-233 | the member tokens of a line are a non-empty list of tokens |
| Loading.Members | include/interface.hpp:240-262 | the members a line names are at most as many as its tokens |
| Loading.BlankLineSkipped | include/interface.hpp:218-222 | a line of delimiters adds no cluster |
| Loading.CommentSkipped | include/interface.hpp:221-222 | a line whose first token starts with `#` adds no cluster |
| Loading.MembersFiltered | include/interface.hpp:254-255 | the node base keeps every occurrence of an accepted id and drops every rejected one |
| Loading.LoadFormatted | include/interface.hpp:218-262 | a cluster written as decimal ids separated by spaces is loaded back as itself |
| Loading.LoadFormattedWithId | include/interface.hpp:224-233 | a `<cid>> ` prefix is dropped, and the cluster loads back as itself |
| Loading.FirstSeen | include/interface.hpp:256-260 | the hashed ids are the members, each once |
| Loading.FirstSeenSnoc | include/interface.hpp:256-260 | an id is hashed exactly when it is met for the first time |
| Loading.OwnersCountMemberships | include/interface.hpp:256-258 | a node's owner list is as long as its number of memberships |
| Loading.NoOwnerYet | include/interface.hpp:256-260 | a node has no owner yet exactly when it was not met before, which is when the load hashes it |
| NodeIndex.AddMembersOwners | include/interface.hpp:256-258 | adding a cluster gives each member one more owner entry per occurrence |
| NodeIndex.AddMembersKeys | include/interface.hpp:256-258 | adding a cluster indexes its members and nothing else |
| NodeIndex.PopAllOwners | src/interface_c.cpp:106-107 | popping shortens each owner list by the node's number of occurrences among the popped nodes |
| NodeIndex.PopAllKeys | src/interface_c.cpp:106-107 | popping keeps every key; a popped node stays indexed |
| NodeIndex.IndexCounts | include/interface.hpp:256-258 | a cluster occurs in a node's owner list as often as the node occurs in the cluster |
| NodeIndex.IndexKeys | include/interface.hpp:256-258 | a node is indexed exactly when some cluster holds it |
| NodeIndex.OwnedBy | include/interface.hpp:256-258 | a cluster is listed for a node exactly when the node is one of its members |
| NodeIndex.Sort | src/interface_c.cpp:99 | `std::sort` yields non-decreasing members of the same length |
| NodeIndex.SortCount | src/interface_c.cpp:99 | sorting keeps every node's number of occurrences |
| NodeIndex.InsertSorted | src/interface_c.cpp:99 | an insertion step of the sort keeps the members sorted |
| NodeIndex.Unique | src/interface_c.cpp:100 | `std::unique` keeps the same set of members, no two adjacent ones equal, with the first and the last member kept |
| NodeIndex.UniqueSplits | src/interface_c.cpp:100-109 | every occurrence of a node is either kept or dropped by `std::unique` |
| NodeIndex.UniqueOfSorted | src/interface_c.cpp:99-100 | on sorted members, the kept ones are strictly ascending |
| NodeIndex.StrictCountsOnce | src/interface_c.cpp:99-100 | strictly ascending members hold each node once |
| NodeIndex.DuplicateCounts | src/interface_c.cpp:100-109 | on sorted members, each present node is kept once and its other occurrences are dropped |
| NodeIndex.DropDuplicatesKeepsIndex | src/interface_c.cpp:97-114 | popping each dropped duplicate once, in any order, leaves the index of the deduplicated cluster |
| FileIO.SumsOrderFree | src/fileio.cpp:35-40 | the sums of `AggHash` depend only on the multiset of added ids |
| FileIO.AggHash.constructor | include/fileio.h:323-324 | a new aggregate is empty and all its sums are 0 |
| FileIO.AggHash.Add | src/fileio.cpp:35-40 | `add` counts the id and adds it and its 32-bit square, all modulo 2^64 |
| FileIO.AggHash.Clear | src/fileio.cpp:42-47 | `clear` resets the aggregate to the empty one |
| FileIO.SquareWraps | src/fileio.cpp:39 | the square is taken in 32 bits: an id below 2^16 adds its exact square, every multiple of 2^16 adds 0 |
| FileIO.KindOf | src/fileio.cpp:122-134 | a line is blank exactly when it is empty or starts with `'\n'`, a data line exactly when it starts with neither `#` nor `'\n'`, otherwise a header or a comment |
| FileIO.BareHashIsHeader | src/fileio.cpp:122-162 | a `#` followed only by attribute delimiters and the line's `'\n'` is a header, and it changes no count beyond the clamp |
| FileIO.TrailingAttributeName | src/fileio.cpp:135-162 | in `#nodes <n> <name>`, the node count is set and the trailing name, followed by `'\n'`, ends the attributes |
| FileIO.KindOfByStrTok | src/fileio.cpp:131-134 | a `#` line is a header exactly when its first attribute token exists and does not start with `#` |
| FileIO.ParseValue | src/fileio.cpp:108-115 | `parseId` gives a 32-bit value and consumes part of the text |
| FileIO.Attributes | src/fileio.cpp:135-153 | reading the attributes never decreases the count of attributes read and stops at two |
| FileIO.UnknownAttributeAborts | src/fileio.cpp:140-150 | an unknown attribute name ends the header and changes no count |
| FileIO.AttributeCaseFree | src/fileio.cpp:136-139 | attribute names are matched after lowercasing |
| FileIO.ClustersAttribute | src/fileio.cpp:140-143 | `clusters:` sets the cluster count to its value and leaves the node count unchanged |
| FileIO.Clamp | src/fileio.cpp:157-162 | a cluster count above a non-zero node count is lowered to the node count; otherwise nothing changes |
| FileIO.ParseHeaderLine | src/fileio.cpp:131-162 | a header line yields its attributes, read in order and then clamped |
| FileIO.ReadEnd | src/fileio.cpp:55-84 | successive `readline` calls succeed up to the first line without `'\n'`, or the end |
| FileIO.UnterminatedLastLineDropped | include/interface.hpp:216-264 | a last line without `'\n'` after line `next` is not processed by the loop of `load` |
| FileIO.TerminatedLinesAllRead | include/interface.hpp:216-264 | when every line ends with `'\n'`, `readline` succeeds on all of them |
| FileIO.HeaderScan | src/fileio.cpp:122-134 | the scan stops after the header line, at the first data line, at a line without `'\n'` (left unexamined), or at the end; a header it finds ends with `'\n'` |
| FileIO.HeaderScanCases | src/fileio.cpp:122-165 | after the scan, either a header preceded only by blank lines and comments was found, or there is no header before the first data line or the first line without `'\n'` |
| FileIO.ParseHeader | src/fileio.cpp:105-167 | `parseHeader` returns the counts of the header, or the counts unchanged without one, and the line the cluster loop starts with: the one after the header, or the data line or line without `'\n'` where the scan stopped |
| FileIO.BandEstimateAtMostHalf | src/fileio.cpp:206-215 | each digit band is counted with at least two bytes per id, so the estimate is at most half the size |
| FileIO.AllBands | src/fileio.cpp:211-215 | the loop runs as many bands as the file size has digits, and the wrapped estimate is at most half the size |
| FileIO.BandLoop | src/fileio.cpp:205-216 | the loop's estimate is the sum of the bands modulo 2^32 and at most half the file size |
| FileIO.EstimateNodes | src/fileio.cpp:195-218 | `estimateNodes` divides the band estimate by the membership, which is reset to 1 when not positive; 0 for an empty file; at most half the size when the membership is at least 1 |
| Interface.F1Name | src/interface.cpp:46-65 | `to_string(F1)` is "NONE" exactly for the unnamed kinds |
| Interface.MatchName | src/interface.cpp:67-86 | `to_string(Match)` is "NONE" exactly for the unnamed kinds |
| Interface.F1NamesDistinct | src/interface.cpp:46-65 | distinct named F1 kinds have distinct names |
| Interface.MatchNamesDistinct | src/interface.cpp:67-86 | distinct named match kinds have distinct names |
| Interface.MatchKindsSplit | src/interface.cpp:101-110 | both matchings hold exactly for COMBINED, neither exactly for the unnamed kinds, one exactly for WEIGHTED or UNWEIGHTED |
| Interface.HMean | src/interface.cpp:113-118 | `hmean` is 0 when `a + b` is 0 and otherwise satisfies `h (a + b) = 2ab` |
| Interface.AMean | src/interface.cpp:128-131 | twice `amean` is `a + b` |
| Interface.HMeanSymmetric | src/interface.cpp:113-118 | `hmean` does not depend on the order of its arguments |
| Interface.HMeanBounds | src/interface.cpp:113-131 | for non-negative arguments `min <= hmean <= amean`, and `hmean` is 0 when either argument is 0 |
| Interface.AMeanSymmetric | src/interface.cpp:128-131 | `amean` does not depend on the order of its arguments |
| Matching.OwnersInRange | include/interface.hpp:388-392 | the clusters a node lists are positions of the foreign collection |
| Matching.HitsInRange | include/interface.hpp:386-397 | every counter the sweep bumps is a cluster of the foreign collection |
| Matching.HitsCountShared | include/interface.hpp:386-397 | a foreign cluster is bumped once per member it shares with the cluster |
| Matching.CommonPositive | include/interface.hpp:386-392 | some members are shared exactly when a member of the cluster occurs in the foreign cluster |
| Matching.Scan | include/interface.hpp:392-405 | the sweep over the owner lists keeps one counter per foreign cluster and yields a non-negative greatest match |
| Matching.ScanFresh | include/interface.hpp:392-405 | from counters not tagged by this cluster, each counter ends at its number of hits and the greatest match is the best over the hit clusters |
| Matching.ScanOrigins | include/interface.hpp:395-397 | a counter the sweep touches is tagged by this cluster; the others are unchanged |
| Matching.FreshBestCovers | include/interface.hpp:401-404 | the greatest match is at least the match of every hit cluster |
| Matching.FreshBestAttained | include/interface.hpp:384-404 | the greatest match is 0 or the match of some hit cluster |
| Matching.FreshBestCoversShared | include/interface.hpp:383-405 | the greatest match covers every foreign cluster that shares a member |
| Matching.FreshBestIsGreatest | include/interface.hpp:383-405 | for a match function that grows with the count, the result is the largest match over all foreign clusters |
| Matching.FreshBestNonNegative | include/interface.hpp:384-404 | the greatest match is never negative |
| Matching.Sweep | include/interface.hpp:383-411 | the sweep of all clusters keeps one counter per foreign cluster |
| Matching.GreatestMatches | include/interface.hpp:373-416 | `gmatches` yields one non-negative greatest match per cluster |
| Matching.SweepNoStale | include/interface.hpp:395-397 | after the clusters before `k` are swept, no counter is tagged by a later cluster |
| Matching.GreatestMatchesFresh | include/interface.hpp:373-416 | each cluster's greatest match is computed as if its counters started fresh: the tags make stale counts harmless |
| Matching.Div | include/interface.hpp:361-369 | a quotient is a number exactly when both operands are numbers and the divisor is not 0 |
| Matching.Sizes | include/interface.hpp:350 | the weights are the cluster sizes |
| Matching.AverageOfNothing | include/interface.hpp:361-369 | `avggms` of no clusters, or weighted by total size 0, is NaN |
| Matching.LessTolerance | shared/operations.hpp:112-121 | the floating-point `less` with no tolerance is `<`; with a non-negative tolerance it implies `<` |
| Matching.LessOfRatio | include/interface.hpp:365 | the overflow check `less(clsnum, accgm, size)` holds exactly when the mean exceeds 1 by more than the tolerance of `less` |
| Matching.AverageUnweighted | include/interface.hpp:362-369 | unweighted `avggms` is the mean of the matches, and throws the overflow error exactly when that mean exceeds 1 by more than the tolerance of `less` |
| Matching.AverageWeighted | include/interface.hpp:338-369 | weighted `avggms` is the size-weighted mean of the matches, and throws the overflow error exactly when that mean exceeds 1 by more than the tolerance of `less` |
| Matching.AverageOfUnits | include/interface.hpp:334-370 | matches in [0, 1] never trigger the overflow error and average to NaN or a value in [0, 1] |
| Matching.AverageNonNegative | include/interface.hpp:334-370 | averages of non-negative matches are NaN or non-negative |
| Matching.F1gmAsWrittenZero | include/interface.hpp:330 | as written, `f1gm` of two averages of 0 is NaN, whereas the harmonic mean of `hmean` is 0 |
| Matching.F1gmMean | include/interface.hpp:330 | the combined value is a number exactly when both averages are |
| Matching.F1gmMeanAgrees | include/interface.hpp:330 | the corrected mean equals the formula as written wherever that is a number, and lies between the smaller average and the arithmetic mean |
| Collections.AddTo | include/interface.hpp:602-607 | `updateCont` over a list adds the share to each counter once per occurrence of its cluster in the list |
| Collections.AddToTwice | include/interface.hpp:602-607 | two additions over the same clusters are one addition of the summed shares |
| Collections.AddToNothing | include/interface.hpp:602-607 | a zero share, or an empty list, changes nothing |
| Collections.TotalAddTo | include/interface.hpp:602-607 | the sum of the contributions rises by the share once per listed cluster |
| Collections.TotalZero | include/interface.hpp:725-729 | a zero sum of contributions means every contribution is 0 |
| Collections.SharedTotals | include/interface.hpp:622-647 | over the shared nodes, both contribution sums rise by `cmmsum`, the number of owner pairs, as the first comparison of the VALIDATE check at 703-716 requires |
| Collections.ExtraTotals | include/interface.hpp:649-656 | the extra nodes raise the foreign sum by their memberships, and change nothing when there are none |
| Collections.ExtraSingleOwners | include/interface.hpp:649-656 | when each extra node has one owner, `econt` counts the extra memberships |
| Collections.AddNode | include/interface.hpp:260 | `mbhash.add` adds the node to the hashed ids |
| Collections.ReadMember | include/interface.hpp:245-260 | one member token joins the load state: parsed, filtered, indexed, and hashed when new |
| Collections.LoadMembers | include/interface.hpp:240-262 | the member loop yields the filtered members of the line's tokens and keeps the index and the hash in step |
| Collections.LoadLine | include/interface.hpp:218-263 | a line adds exactly the clusters it yields, with the index and the first-seen hash of the result |
| Collections.LoadClusters | include/interface.hpp:216-264 | the clusters of line `next` and of the following lines up to the first one without `'\n'`, with their index and their first-seen ids |
| Collections.ReadMore | include/interface.hpp:264 | the `while(line.readline(file))` part of the loop loads the lines while they end with `'\n'` |
| Collections.SumOf | include/interface.hpp:362-363 | the unweighted loop computes the sum of the matches |
| Collections.WeightedSumOf | include/interface.hpp:344-357 | the weighted loop computes the size-weighted sum and the total size |
| Collections.AverageOf | include/interface.hpp:334-370 | `avggms` after `gmatches` is the average of the specification, NaN or the overflow error included |
| Collections.Combine | include/interface.hpp:322-330 | an overflow error of the first average, else of the second, is the result; otherwise the guarded harmonic mean |
| Collections.CombineSymmetric | include/interface.hpp:322-330 | the combined value does not depend on the order of the averages |
| Collections.CombineOfUnits | include/interface.hpp:322-330 | averages of unit matches combine without error to NaN or a value in [0, 1] |
| Collections.Collection.constructor | include/interface.hpp:154 | a collection over an indexed cluster list, with fresh counters and no contributions |
| Collections.Collection.Load | include/interface.hpp:151-290 | an empty file gives an empty collection; otherwise the clusters of the lines `load` reads after the header (a last line without `'\n'` only when it is the first of them), hashed by their first-seen ids |
| Collections.Collection.ScanOwners | include/interface.hpp:392-405 | the loop over one owner list continues the sweep of the cluster |
| Collections.Collection.MatchCluster | include/interface.hpp:384-407 | the loop over a cluster's members is the sweep over its hits |
| Collections.Collection.GMatches | include/interface.hpp:373-416 | `gmatches` returns the greatest match of each cluster and leaves the foreign counters swept |
| Collections.Collection.AvgGms | include/interface.hpp:334-370 | `avggms` returns the average of the greatest matches |
| Collections.Collection.F1gm | include/interface.hpp:293-331 | `f1gm` combines the two averages, the second sweep starting from the counters the first one left; the harmonic mean with a zero guard |
| Collections.Collection.ClearConts | include/interface.hpp:722-730 | `clearconts` leaves every contribution and the sum at 0 |
| Collections.Collection.PairContribs | include/interface.hpp:638-644 | one owner here and the owners in `cn` each gain one per pair |
| Collections.Collection.NodeContribs | include/interface.hpp:632-645 | a shared node adds one per pair to both sides and counts its pairs |
| Collections.Collection.SharedContribs | include/interface.hpp:622-647 | the traversal of the nodes computes the shared contributions and `cmmsum` |
| Collections.Collection.AddShare | include/interface.hpp:602-607 | `updateCont` adds 1 to each listed cluster |
| Collections.Collection.ExtraContribs | include/interface.hpp:649-656 | the traversal of the nodes of `cn` missing here computes the extra contributions and `econt` |
| Collections.Collection.EvalConts | include/interface.hpp:560-719 | `evalconts` is skipped when both sums are set; otherwise it clears both, adds the shared and, for an unequal node base, the extra contributions, and sets both sums |
| CInterface.Accepted | src/interface_c.cpp:85-94 | the members the node base accepts are at most the raw ids |
| CInterface.MembersAreAccepted | src/interface_c.cpp:85-94 | the members `load` keeps from a line's tokens are the ids `loadCollection`'s filter accepts: one node-base filter |
| CInterface.AcceptedCounts | src/interface_c.cpp:89-91 | the filter keeps every occurrence of an accepted node and none of a rejected one |
| CInterface.CleanedCounts | src/interface_c.cpp:97-114 | under `makeunique`, each member is kept once and the cluster is strictly ascending; otherwise the members are untouched |
| CInterface.Kept | src/interface_c.cpp:80-127 | the kept clusters are at most the raw clusters |
| CInterface.LostAndKept | src/interface_c.cpp:95-126 | every raw cluster is either kept or listed as lost |
| CInterface.LostAscending | src/interface_c.cpp:125-126 | the lost indices are ascending and within the appended range |
| CInterface.LostExactly | src/interface_c.cpp:125-126 | raw cluster `i` is lost exactly when the node base leaves it empty, and it is listed as `base + i` |
| CInterface.KeptClean | src/interface_c.cpp:80-127 | every kept cluster is non-empty and holds only accepted nodes, each once under `makeunique` |
| CInterface.AddMembersPermuted | src/interface_c.cpp:99 | the index does not depend on the order of the members |
| CInterface.DedupAsWrittenMisindexes | src/interface_c.cpp:100-109 | for members 1 1 2, only a tail of `[1]` rebuilds the index; the tail `[2]` that libstdc++ leaves removes node 2's only owner |
| CInterface.ReadRawCluster | src/interface_c.cpp:85-94 | the member loop keeps the accepted ids and pushes the cluster onto each one's list |
| CInterface.MakeUnique | src/interface_c.cpp:97-114 | deduplication gives the sorted unique members and the index of the deduplicated cluster |
| CInterface.UniqueIndex | src/interface_c.cpp:97-114 | popping the duplicates of the sorted members leaves the index of the unique members |
| CInterface.HashMembers | src/interface_c.cpp:117-120 | every kept member is added to the hash, duplicates included |
| CInterface.LoadCollection | src/interface_c.cpp:53-158 | a null input gives an empty collection; otherwise the kept clusters, the hash of all their members, and the lost indices appended when a list is given |
| CInterface.LoadedClean | src/interface_c.cpp:53-158 | with the defaults, the loaded clusters are non-empty and no more than the raw ones |
| CInterface.F1x | src/interface_c.cpp:178-191 | `f1x` scores the two loaded collections for the requested kinds |
| CInterface.F1Of | src/interface_c.cpp:171-176 | `f1` is `f1x` with weighted matching |
| CInterface.F1p | src/interface_c.cpp:161-164 | `f1p` is the partial-probability F1 with weighted matching |
| CInterface.F1h | src/interface_c.cpp:166-169 | `f1h` is the harmonic F1 with weighted matching |

## Left out

- Floating-point `Count`: only the integral `Count` instantiation is modelled. The `initconts` branch of `f1gm` (include/interface.hpp:297-317), the `m_overlaps` shares of `gmatches` and `evalconts`, and the `cont()` weights are left out.
- Floating point in general: `AccProb` is taken as an exact real, and the tolerance `precision_limit<AccProb>()` of the floating-point `less` (shared/operations.hpp:112-121) is the parameter `tol`. NaN is modelled explicitly (`Float`) only where it decides a result: the averages and `f1gm`.
- `Collections.Collection.EvalConts` takes a `matching` flag in place of the `ClustersMatching*` argument. The `clsmm` matrix itself is not built.
- `Collections.Collection.EvalConts` requires two distinct collections. Evaluating a collection against itself is not modelled.
- `Collections.Collection.EvalConts`: the VALIDATE check that throws `domain_error` (include/interface.hpp:703-716) is not modelled as an error path. With VALIDATE at 1 it compares the sums just assigned (include/interface.hpp:666-667), so it cannot fail. With VALIDATE at 2 or more, the sums are recomputed from `cont()` (include/interface.hpp:677-694). `SharedTotals` then shows that the first comparison holds. The second, `cn.m_contsum - econt == cmmsum`, holds only when each extra node has one owner (`ExtraTotals`, `ExtraSingleOwners`). An extra node with several owners makes the source throw, and that throw is not modelled.
- The other VALIDATE and TRACE branches are left out, except the `overflow_error` check of `avggms`, which is modelled as `Err`. These are diagnostics (asserts and prints), not behaviour.
- The traversal orders of the hash maps `m_ndcs` and `m_cls` are parameters (`order1`, `order2`), or insertion order where the result does not depend on them.
- `Cluster::f1` and `Cluster::pprob`, whose bodies are not part of this model: the match function is the parameter `fmatch`.
- `Collection::f1`, whose body is not part of this model: it is the parameter `Engine` of `CInterface.F1x`. The engine sees the loaded clusters only, not the hashes.
- `AggHash::hash`, which applies `std::hash` to the object's bytes: it is the parameter `hashOf`.
- `loadCollection`: `ahash` is returned rather than written through a pointer (src/interface_c.cpp:139-140), so a null `ahash` argument is not modelled: the hash is always returned for a non-null input. For a null input nothing is written (src/interface_c.cpp:57-60), and the model returns `null`.
- `Collections.Collection.Load`: the node hash is returned rather than written through `ahash` (include/interface.hpp:272-273). For an empty file `load` returns before writing it (include/interface.hpp:165-168), so the caller's hash is left as it was; the model returns a new empty hash there.
- The default-constructed collection is taken to have `m_ndshash == 0`. The class declaration is not part of this model.
- Capacity handling is left out: `reserve`, `shrink_to_fit`, rehashing, the `ndchars` estimate, the node and cluster estimates used only for preallocation (including `estimateClusters`), and the `membership` argument of `loadCollection`.
- File I/O: a file is its sequence of lines, each ending in the `'\n'` that `readline` keeps (the last one may lack it), and an empty file is the empty sequence. `readline`'s result is modelled by `FileIO.Terminated`. Opening errors, read errors (`ferror`), the buffer growth of `readline` and `perror` are left out, as are the command line (autogen/cmdline.h, src/main.cpp) and the Python binding.
- `std::sort` and `std::unique` are modelled as functions (insertion sort, adjacent deduplication), not as in-place algorithms.
- `nmi`, `gmean`, `omega`, `omegaExt`, `transfer` and the `NodeBase` loader are outside the modelled core.
- `NodeIndex.Unique`: the values `std::unique` leaves past its result are unspecified by the C++ standard. The model states which tails keep the index right (`PopsDropped`) rather than fixing one.
- `Ops.BsVal`: the narrowing of the `ptrdiff_t` difference is not modelled. For `Id` (32 bits) the difference always fits.
- `Ops.BinaryIFind`: the narrowing of the comparison result `cres` to `int` (shared/operations.hpp:407) is not modelled. The comparison is a three-way sign over mathematical integers.
- The node weights of a raw cluster are never read by `loadCollection`, so a raw cluster is modelled as its ids only.
- `CInterface.F1Of`: the scratch buffer `tmp` that `f1` substitutes for a null `rec` or `prc` (src/interface_c.cpp:174) is not modelled. The recall and the precision are always returned.
- Matching.Bump: the body of the counter update `counter(orig, 1)` is in a header that is not part of this model; the restart on a new originator followed by adding one is the behaviour `gmatches` relies on (include/interface.hpp:394-397), not code that can be cited.
- Matching.Scan: it uses `Bump` for the counter update, so the restart rule above is assumed there as well.
- FileIO.EstimateNodes: file sizes of 10^19 bytes or more are excluded; there the 64-bit `magn` wraps and the loop can divide by 0. The conversion of `ndsnum` to a float, the float division by `membership` and its narrowing to `Id` are modelled as an exact real division and a floor.
- `Text.StrToUL`: overflow saturates at `ULONG_MAX`, as `strtoul` does. `errno` is not modelled.
- include/interface_c.h:91 declares `f1x` with `sync` and `makeunique` parameters that its definition in src/interface_c.cpp lacks. The model follows the definition.
- The comment of `loadCollection` says that only unique ids are hashed, but the code hashes every kept member (src/interface_c.cpp:117-120). The model follows the code.

## Findings

| source | as written | input that shows it | evidently intended | confidence | as-written member | corrected member |
|---|---|---|---|---|---|---|
| src/interface_c.cpp:100-109 | with `makeunique`, one owner entry is popped for each element of the tail `std::unique` leaves, using the tail's values | members `1 1 2`: libstdc++ leaves the tail `[2]`, so node 2 loses its only owner and node 1 keeps two | pop one entry of each dropped duplicate, so every kept member is listed once for the cluster | medium, not executed | CInterface.DedupAsWrittenMisindexes | CInterface.MakeUnique |
| include/interface.hpp:330 | `2 * f1ga1 / (f1ga1 + f1ga2) * f1ga2` with no zero guard | two collections without a shared node: both averages are 0, so the result is 0/0, NaN | the harmonic mean with the zero guard of `hmean` (src/interface.cpp:113-118), giving 0 | high, not executed | Matching.F1gmAsWrittenZero | Matching.F1gmMeanAgrees |
