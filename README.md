# HotWordSystem in Dafny

A verified model of `HotWordSystem`, a trending-terms aggregator over a
sliding time window. Messages arrive as token sequences with a millisecond
timestamp. Each token of at least three bytes goes through three steps:

- it is interned to a dense word id;
- its id's count in the tail bucket of a deque of time buckets goes up by one;
- its id's count in a global aggregate goes up by one.

Buckets that fall out of the window are retired, and their counts are
subtracted from the aggregate. A top-K query scans the aggregate with a
bounded min-heap, drains the heap, resolves ids back to words and reverses
the list.

Files:

- `interning.dfy` (module `Interning`): the two interning tables, the
  invariant that makes them mutual inverses with dense ids, and how they grow
  (new words numbered consecutively from the counter).
- `window_spec.dfy` (module `WindowSpec`): the value types `TimeBucket` and
  `WordFreq`; C++ truncating division; timestamp alignment; and the pure
  functions `Place`, `Deposit`, `Expire` and `Ingest`, which say what one
  message does to the deque. It also holds the lemmas about those functions
  (count exactness, window bound, expiry of a prefix) and the invariant
  steps the class's loops use.
- `top_k.dfy` (module `TopK`): the min-heap as a strictly ascending sequence
  of `(count, id)` pairs, ordered as `std::pair` orders them, and the scan
  over the aggregate.
- `hot_word_system.dfy` (module `HotWords`): the class `HotWordSystem`, whose
  fields are the C++ object's state, with its methods proved against the
  functions above.

The class invariant `Valid()` says three things:

- The interning tables are mutual inverses, and the ids in use are exactly
  `1 .. nextWordId - 1`.
- Bucket timestamps increase strictly, every stored count is positive, and
  every id in a bucket is interned.
- For every id, the aggregate's value (0 when absent) is the sum of its counts
  over the held buckets, and every stored aggregate value is positive.

Every method that changes the deque or the aggregate keeps `Valid()`. `GetOrCreateWordId` touches only the interning tables and keeps their part of it, `InternTables`.

Choices in the model:

- Timestamps may be negative. C++ `/` and `%` truncate toward zero, and
  `TruncDiv`/`TruncMod` reproduce that exactly. `AddMessage` requires
  `bucketStepSec > 0`, because the source divides by it.
- A message whose aligned time is earlier than the tail bucket's gets no
  bucket of its own; its tokens are counted into the current tail bucket.
  In `src/HotWordSystem.cpp` the out-of-order branch (lines 52-53) is empty,
  so the loop at lines 59-70 counts the tokens into the back bucket.
- `unordered_map` iteration is modelled by picking any remaining key (`:|`),
  so every proof holds for every iteration order.

## Model

| member | source | states |
|---|---|---|
| HotWords.HotWordSystem.constructor | src/HotWordSystem.cpp:3-4 | the window and step are the arguments, the step defaults to 1, and the deque, the aggregate and both tables start empty with the next id at 1 |
| HotWords.HotWordSystem.GetOrCreateWordId | src/HotWordSystem.cpp:16-27 | a known word returns its id and changes nothing; a new word gets the current next id, which is then incremented, and is entered in both tables; the tables stay mutual inverses; looking the id up gives the word back; no earlier id is reassigned |
| HotWords.HotWordSystem.GetWordById | src/HotWordSystem.cpp:30-37 | an interned id maps to a word whose id is that id; an unknown id yields the empty string |
| Interning.InternNewWord | src/HotWordSystem.cpp:23-26 | entering a new word under the next id and advancing the counter keeps the tables mutual inverses, and that id was not in use |
| Interning.TablesInjective | src/HotWordSystem.cpp:23-26 | while the tables are mutual inverses, no two words share an id |
| Interning.NumberedFromStep | src/HotWordSystem.cpp:19-26 | interning one word keeps the growth invariant: a known word changes nothing, and a new word takes the counter in both tables and advances it by one, so the new words stay numbered consecutively from the counter's starting value |
| Interning.NumberedCount | src/HotWordSystem.cpp:23 | a set of words numbered one to one by the ids lo .. hi - 1 has exactly hi - lo members |
| Interning.NewWordsCount | src/HotWordSystem.cpp:23 | in inverse tables, when the new words are numbered consecutively from the old counter, the counter has advanced by exactly the number of new words |
| Interning.GrownStart | src/HotWordSystem.cpp:16-27 | before any word is interned, nothing is new and the counter has not moved |
| WindowSpec.TruncDiv | src/HotWordSystem.cpp:45 | the quotient is truncated toward zero: the remainder left by it lies in [0, divisor) for a non-negative dividend and in (-divisor, 0] for a negative one |
| WindowSpec.TruncMod | src/HotWordSystem.cpp:46 | the remainder takes the dividend's sign and is smaller in magnitude than the divisor |
| WindowSpec.AlignTime | src/HotWordSystem.cpp:45-46 | the aligned time is a multiple of the step; for a non-negative timestamp it is at most the timestamp in seconds, and that value is below aligned time plus step; for a negative timestamp the mirror image holds |
| HotWords.HotWordSystem.AddMessage | src/HotWordSystem.cpp:39-73 | an empty message changes nothing; otherwise the deque becomes `Ingest` of the old deque at the aligned time, and exactly the kept words of the message are added to the interning tables with no existing entry changed; the new words get the ids old counter .. new counter - 1, one each, in the order of their first occurrence in the message, so the counter advances by the number of new words; the invariant (aggregate = bucket sums) holds |
| HotWords.HotWordSystem.IngestAligned | src/HotWordSystem.cpp:51-72 | at a given aligned time, the deque becomes `Ingest` of the old deque; exactly the kept words are added to the tables, the new ones numbered consecutively from the old counter in first-occurrence order, and the counter advances by their number; the invariant holds |
| HotWords.HotWordSystem.DepositAligned | src/HotWordSystem.cpp:51-70 | at a given aligned time, before the window slides, the deque becomes `Deposit` of `Place` of the old deque; the tables gain exactly the kept words, the new ones numbered from the old counter in first-occurrence order; every kept token is interned; the invariant holds |
| HotWords.HotWordSystem.PlaceBucket | src/HotWordSystem.cpp:51-57 | the deque becomes `Place` of the old deque at the aligned time, and the invariant holds |
| WindowSpec.Place | src/HotWordSystem.cpp:51-57 | the placed deque is never empty; `PlaceProperties` states the rest |
| WindowSpec.Ingest | src/HotWordSystem.cpp:51-72 | no contract of its own: `IngestWindow`, `IngestKeepsTail` and `IngestCount` state its properties |
| WindowSpec.PlaceProperties | src/HotWordSystem.cpp:51-57 | placing the bucket keeps timestamps strictly increasing and every old bucket in place; the tail is stamped with the later of the aligned time and the old tail time, so a late message lands in the old tail; no id's sum changes |
| WindowSpec.PlaceKeepsInvariants | src/HotWordSystem.cpp:51-57 | placing the bucket keeps the deque and aggregate invariants |
| WindowSpec.WindowSumAppend | src/HotWordSystem.cpp:55 | appending a bucket adds its count of each id to that id's sum |
| HotWords.HotWordSystem.CountTokens | src/HotWordSystem.cpp:59-70 | after the token loop the deque is `Deposit` of the deque before it; the interning tables gain exactly the kept words, the new ones numbered consecutively from the old counter in the order they first occur, and the counter advances by their number; the invariant holds |
| HotWords.HotWordSystem.CountStep | src/HotWordSystem.cpp:61-69 | counting token i extends the counted-so-far state by one token: tables, numbering, first-occurrence order of the new ids, internment and the deque all advance to the first i + 1 tokens, and the invariant holds |
| HotWords.HotWordSystem.CountToken | src/HotWordSystem.cpp:62-69 | one kept token is interned: a known word keeps its id and the tables and counter are unchanged, a new word gets the old counter as its id and the counter rises by one; its id's count rises by one in the tail bucket and in the aggregate, keeping the invariant |
| WindowSpec.Deposit | src/HotWordSystem.cpp:59-70 | depositing touches only the tail bucket and keeps its timestamp |
| WindowSpec.DepositCount | src/HotWordSystem.cpp:61-70 | depositing raises each word's id sum by that word's kept occurrences in the message, and leaves ids of no word unchanged |
| WindowSpec.TallyCount | src/HotWordSystem.cpp:61-68 | the tail count of a word's id rises by exactly the number of kept occurrences of the word |
| WindowSpec.TallyOtherIds | src/HotWordSystem.cpp:61-68 | the tally leaves the count of an id that no word has untouched |
| WindowSpec.TallyFrame | src/HotWordSystem.cpp:61-68 | the tally depends only on the ids of the kept tokens |
| WindowSpec.TallyPositive | src/HotWordSystem.cpp:68 | tallying keeps every stored count positive |
| WindowSpec.Tally | src/HotWordSystem.cpp:61-69 | no contract of its own: `TallyCount`, `TallyOtherIds`, `TallyFrame` and `TallyPositive` state its properties |
| WindowSpec.BumpTail | src/HotWordSystem.cpp:68 | no contract of its own: `CountOne` and `DepositNext` state its effect |
| WindowSpec.Occurrences | src/HotWordSystem.cpp:61 | a word's occurrence count is at most the message length, and it is zero exactly when the word is absent |
| WindowSpec.FirstSeenNext | src/HotWordSystem.cpp:61-65 | interning token i (a new kept word takes the current counter, older entries stay) keeps the new words' ids ordered by first occurrence over the first i + 1 tokens |
| WindowSpec.KeptWordsNext | src/HotWordSystem.cpp:61-62 | one more token adds its word to the kept words exactly when it has at least three bytes |
| WindowSpec.DepositNext | src/HotWordSystem.cpp:61-69 | one more kept token bumps its id in the tail; a short token changes nothing |
| WindowSpec.CountOne | src/HotWordSystem.cpp:68-69 | bumping an interned id in the tail and in the aggregate together keeps both invariants |
| WindowSpec.WindowSumReplaceLast | src/HotWordSystem.cpp:68 | replacing the tail bucket changes each id's sum by the difference of its two tail counts |
| WindowSpec.WiderTables | src/HotWordSystem.cpp:65 | interning more words keeps the deque and aggregate invariants |
| WindowSpec.IngestCount | src/HotWordSystem.cpp:51-70 | before expiry, each word's id sum grows by exactly its kept occurrences, wherever the message lands |
| WindowSpec.IngestWindow | src/HotWordSystem.cpp:51-72 | after an ingestion the deque is strictly increasing and every bucket is newer than the aligned time minus the window |
| WindowSpec.IngestKeepsTail | src/HotWordSystem.cpp:51-72 | with a positive window the bucket the message was counted into survives unchanged as the tail (it equals the tail of the deposited deque), stamped with the later of the aligned time and the old tail time |
| WindowSpec.DepositKeepsStamps | src/HotWordSystem.cpp:59-70 | depositing changes no timestamp, so the deque stays strictly increasing |
| HotWords.HotWordSystem.SlideWindow | src/HotWordSystem.cpp:75-100 | the deque becomes `Expire` of the old deque at the aligned time minus the window; the invariant holds; the interning tables are outside its frame |
| HotWords.HotWordSystem.RetireFront | src/HotWordSystem.cpp:79-95 | subtracting the front bucket from the aggregate and popping it leaves the deque without its front and keeps the invariant |
| WindowSpec.RetireStart | src/HotWordSystem.cpp:82 | before the subtraction loop every id of the front bucket is pending |
| WindowSpec.RetireOne | src/HotWordSystem.cpp:84-92 | a pending id always has an aggregate entry; what remains after subtraction is its sum over the rest of the deque and is never negative; erasing at or below zero, or storing the remainder, keeps the retirement invariant |
| WindowSpec.RetireDone | src/HotWordSystem.cpp:94-95 | once no id is pending, the aggregate matches the deque without its front |
| WindowSpec.WindowSumZeroIff | src/HotWordSystem.cpp:87-88 | with positive bucket counts, an id's sum is never negative, and it is zero exactly when no bucket holds the id, so erasing at zero loses nothing |
| WindowSpec.ExpireShape | src/HotWordSystem.cpp:78-99 | expiry removes a prefix of the deque; every removed bucket is at or before the threshold, and the first kept one is after it |
| WindowSpec.Expire | src/HotWordSystem.cpp:78-99 | no contract of its own: `ExpireShape`, `ExpireWindowBound`, `ExpireKeepsTail`, `ExpireSum` and `ExpiredIdVanishes` state its properties |
| WindowSpec.ExpireWindowBound | src/HotWordSystem.cpp:76-99 | on a strictly increasing deque, every surviving bucket is newer than the threshold, and the order is kept |
| WindowSpec.ExpireKeepsTail | src/HotWordSystem.cpp:78-99 | a tail newer than the threshold survives expiry as the tail |
| WindowSpec.ExpireSum | src/HotWordSystem.cpp:82-95 | expiry removes from each id's sum exactly the counts held by the retired prefix |
| WindowSpec.ExpiredIdVanishes | src/HotWordSystem.cpp:76-99 | an id held only by buckets at or before the threshold has sum zero after expiry |
| WindowSpec.WindowSumAbsent | src/HotWordSystem.cpp:87-88 | a sum over buckets none of which holds the id is zero |
| HotWords.HotWordSystem.QueryTopK | src/HotWordSystem.cpp:102-148 | k at most 0 gives nothing; otherwise min(k, aggregate size) entries with distinct words, each reporting its word's aggregate count, ranked by (count, id) strictly descending, and no left-out id has a count above the last entry's |
| HotWords.FreshSystemReportsNothing | src/HotWordSystem.cpp:105-107 | a freshly constructed system answers every query with nothing |
| TopK.ScanCounts | src/HotWordSystem.cpp:115-130 | after the scan the heap holds min(k, number of positive entries) nodes, each an id with its count; every positive id is present while the heap is below capacity, and no positive id left out counts more than the heap's minimum |
| TopK.OfferedNext | src/HotWordSystem.cpp:119 | an id leaves the pending set and joins the offered ids exactly when its count is positive |
| TopK.ScanOffer | src/HotWordSystem.cpp:121-129 | offering a not-yet-seen positive id keeps the scan invariant |
| TopK.Offer | src/HotWordSystem.cpp:121-129 | no contract of its own: `ScanOffer`, `ScanPush`, `ScanReplace` and `ScanSkip` state what one offer does to the scan invariant |
| TopK.ScanPush | src/HotWordSystem.cpp:121-122 | pushing below capacity keeps the scan invariant |
| TopK.ScanReplace | src/HotWordSystem.cpp:124-127 | replacing the minimum with a higher count keeps the scan invariant |
| TopK.ScanSkip | src/HotWordSystem.cpp:124 | skipping a count not above the minimum of a full heap keeps the scan invariant |
| TopK.Insert | src/HotWordSystem.cpp:122 | a push yields an ascending heap holding exactly the old nodes and the new one |
| TopK.InsertMembers | src/HotWordSystem.cpp:127 | a push adds exactly one node |
| TopK.PopTop | src/HotWordSystem.cpp:126 | popping the top leaves the other nodes, all above it, still ascending |
| TopK.ConsBelowHead | src/HotWordSystem.cpp:122 | a node below the heap's minimum may head it |
| TopK.PrependKeepsAscending | src/HotWordSystem.cpp:122 | a node below everything pushed may head the result of a push |
| HotWords.HotWordSystem.DrainHeap | src/HotWordSystem.cpp:134-145 | the answer has one entry per heap node, and entry m is the word and count of the m-th largest node |
| HotWords.Reversed | src/HotWordSystem.cpp:145 | the reversal has the same length, and position i holds the element at the mirror position |
| HotWords.Reverse | src/HotWordSystem.cpp:145 | reversing the array in place leaves it equal to the reversal of its old contents |
| HotWords.DrainedRanking | src/HotWordSystem.cpp:134-147 | the drained, reversed answer has min(k, aggregate size) entries, each reporting its word's count, in strictly descending (count, id) order, with no left-out id counted above the last entry |
| HotWords.RankedDistinct | src/HotWordSystem.cpp:134-147 | entries in strictly descending rank that report their words' counts name distinct words |

## Left out

- Tokenization by cppjieba and the construction of dictionary paths (src/HotWordSystem.cpp:6-12, 42). This is a foreign library with file I/O. `AddMessage` takes the token sequence as input, and a string's length stands for its byte length.
- The `std::shared_mutex` read and write locks. Each public method is treated as atomic.
- The binary-heap layout of `std::priority_queue`. The heap is modelled as its ascending sequence of nodes, with push and pop-min.
- The iteration order of `std::unordered_map`. The model fixes none, so which of several ids tied at the heap's minimum survive the scan is not determined, and none of the properties depends on it.
- Overflow of the `int` counts and exhaustion of the `uint64_t` id counter. Integers are unbounded.
- The deleted copy operations and the `iostream` include. They have no behaviour.
- HotWords.HotWordSystem.AddMessage: requires `bucketStepSec > 0`. The constructor does not check this. With a zero step the C++ `%` is undefined. A negative step is also excluded, although C++ handles it: `%` keeps the dividend's sign, so the aligned time still rounds toward zero, in slots of the step's magnitude.
- The C++ object keeps `current_bucket` as a reference to the tail while it counts. In the model the tail is re-read from the deque at each token, so nothing about the reference itself is captured.
