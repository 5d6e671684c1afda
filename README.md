# Misra-Gries frequency counter: a verified model of the consumer

`frequency_counter.cpp` runs several producer threads, which append random
64-bit values to a shared file as comma-terminated decimal tokens. One
consumer thread (`reader_func`) reads the file in chunks. It cuts the bytes
into tokens, decodes each token and feeds it to the Misra-Gries heavy-hitters
estimator (`process_number`). At the end it reports the candidates whose
estimated count exceeds n / k.

This project models that consumer without its threads and its file. A read
is a value: whether some writer was active, the bytes returned, and the
error flag. It proves what the consumer promises about those reads. It is
organised as follows.

- `decimal.dfy`, module `Decimal`:
  - the producer's `uint64_to_string`;
  - the consumer's length check and `std::stoull` decoding, specified as
    base-10 positional notation;
  - the round trip between the two.
- `misra_gries.dfy`, module `MisraGries`:
  - `process_number`'s map update, as a function `Update` and its fold `Run`
    over a stream;
  - the capacity `k_misra`;
  - the classical guarantee: a stored count never exceeds the true frequency
    and falls short of it by at most n / k, so every value occurring more
    than n / k times stays a candidate.
- `tokenizer.dfy`, module `Tokenizer`:
  - the token accumulator as a pure scanner `Scan`;
  - a reference reading of the text, cut at every comma, which `Scan` is
    proved to match;
  - independence from how the bytes are split into reads;
  - the channel round trip: whatever values the producers append, as
    `uint64_to_string` tokens each followed by a comma, the scanner hands
    exactly those values on, in order.
- `reader.dfy`, module `ReaderThread`:
  - class `Reader` holds what `reader_func` keeps across iterations: the
    candidate map, n, the pending token and the abort flag;
  - its methods are `process_number` (`ProcessNumber`, split into the
    overflow guard `Refuse` and the counting path `Admit`, with `Tally` and
    `DecrementAll` for the in-place map update), the byte loop over one read
    (`ConsumeChunk`, `StepByte`, `CloseToken`) and the read loop (`Drain`);
  - `Decide` is the loop's continue / wait / stop decision;
  - `SelectResult` is the final check and the result filter;
  - `ReaderFunc` puts these together.

Ghost fields `fed`, `counted` and `dropped` of `Reader` record the values
handed to `process_number`, the values it counted and the values its
overflow guard refused; `fed` is `counted` followed by `dropped`. The class
invariant ties the map to `Run` over `counted` and ties n to its length. This is how the method-level
model inherits the function-level guarantee.

Neither a read error (frequency_counter.cpp:201-203) nor a tripped overflow
guard (frequency_counter.cpp:118-122, checked again at line 160) is a failure
of the consumer. Each only ends the read loop; the final check and the filter
then run on the map and n reached so far, and the thread returns success
(line 241) unless k >= n > 0. `ReaderFunc` follows this: the only failure
outcome it has is `ThresholdError`.

The source comment at frequency_counter.cpp:115 names the algorithm. Its
guarantee concerns the candidate map: no value occurring more than n / k
times is missing from it. The final filter at frequency_counter.cpp:230-238
compares the *estimated* counts against n / k. So every value it reports
occurs more than n / k times (`ReaderThread.ResultOfStream`). It can also drop a
value that does occur more than n / k times. For example, the stream
5,5,5,3,3 with k = 2 ends with the map {5: 1}, and the result is empty. By
contrast, in the stream 7,7,7,7,2 with k = 3 the heavy hitter 7 keeps its
full count and is reported (`Scenarios.HeavyHitterReported`). The model
follows the code here. The result set is a set of true heavy hitters,
not a superset of them.

## Model

| member | source | states |
|---|---|---|
| Decimal.Render | frequency_counter.cpp:64-67 | the "%llu" rendering: at least one digit, all digits, and no leading zero unless the value is 0; `ValueOfRender` and `RenderOfValue` prove it inverse to decoding |
| Decimal.Uint64ToString | frequency_counter.cpp:64-74 | the producer's token is always a canonical digit string of at most 20 characters; `RenderFitsToken` proves it is the plain rendering |
| Decimal.ParseToken | frequency_counter.cpp:174-193 | an accepted closed token is all digits, 1 to 20 long, and decodes to at most 2^64 - 1; `ParseTokenAccepts` proves the converse |
| Decimal.RenderFitsToken | frequency_counter.cpp:64-74 | every 64-bit value renders in at most 20 digits, so `uint64_to_string` never takes its "1" fallback and is plain "%llu" rendering |
| Decimal.ParseUint64ToString | frequency_counter.cpp:64-74 | round trip: the consumer's decoder accepts every token a producer writes and gives back the written value |
| Decimal.Uint64ToStringOfParse | frequency_counter.cpp:64-74 | round trip the other way: an accepted token without leading zeros is a 64-bit value whose rendering is that token |
| Decimal.ParseTokenAccepts | frequency_counter.cpp:182-193 | a closed token is accepted exactly when it is 1 to 20 digits long and its value is at most 2^64 - 1; every token of up to 19 digits fits, so only 20-digit tokens can be refused for their value |
| MisraGries.KMisra | frequency_counter.cpp:143 | the capacity is k - 1 for k > 1 and 1 otherwise, and is never below 1 |
| MisraGries.Decrement | frequency_counter.cpp:129-136 | the eviction round adds no entry; `UpdateEffect` states the exact per-entry effect and `TotalDecrement` that it removes |m| from the sum of the counts |
| MisraGries.Update | frequency_counter.cpp:123-137 | one call of `process_number` below the guard: unless it evicts, the incoming value ends up counted once more; when it evicts, the value is absent. `UpdateEffect`, `UpdateWellFormed` and `CountAfterUpdate` carry the rest of its contract |
| MisraGries.UpdateEffect | frequency_counter.cpp:123-137 | a hit adds one to that value's count; a miss with room admits the value with count 1; in both cases no other entry changes. A miss on a full map lowers every count by exactly one, removes exactly the entries reaching zero, and leaves the incoming value out |
| MisraGries.CountAfterUpdate | frequency_counter.cpp:123-137 | per value, a counting step adds one to the incoming value's count only; an eviction round takes one from every stored count |
| MisraGries.UpdateWellFormed | frequency_counter.cpp:127-136 | every update keeps the map within k_misra entries with all counts at least 1 |
| MisraGries.UpdateTotalCounted | frequency_counter.cpp:123-128 | a hit or an admission adds exactly one to the sum of the stored counts |
| MisraGries.UpdateTotalEvicted | frequency_counter.cpp:129-137 | an eviction round on a full map removes exactly k_misra from the sum of the stored counts |
| MisraGries.StreamInvariantStep | frequency_counter.cpp:116-138 | one more value keeps the stream invariant: a well-formed map, stored counts plus k_misra + 1 per eviction round summing to n, and each count between the true frequency minus the eviction rounds and the true frequency |
| MisraGries.RunInvariant | frequency_counter.cpp:116-138 | the stream invariant holds after any stream |
| MisraGries.RunWellFormed | frequency_counter.cpp:116-138 | after any stream the map holds at most k_misra entries, all with positive counts |
| MisraGries.CountBounds | frequency_counter.cpp:115-138 | for k > 1, each stored count is at most the value's true frequency and undercounts it by at most n / k |
| MisraGries.HeavyHitterKept | frequency_counter.cpp:115-138 | for k > 1, every value occurring more than n / k times is a candidate at the end of the stream |
| Tokenizer.Step | frequency_counter.cpp:167-198 | one byte of the token accumulator keeps the values already emitted as a prefix and adds at most one; `ReadingDigit` and `ReadingSeparator` tie it to the comma-field reading |
| Tokenizer.Scan | frequency_counter.cpp:156-198 | scanning bytes from a pending token emits no more values than there are bytes; `ScanMatchesFields`, `ScanAppend` and `ChunkingIrrelevant` carry the rest of its contract |
| Tokenizer.ScanTokenDigits | frequency_counter.cpp:170-181 | the pending token only ever holds digits, so the all-digit check on a closed token always passes |
| Tokenizer.ScanValuesInRange | frequency_counter.cpp:182-193 | every value handed to `process_number` is at most 2^64 - 1 |
| Tokenizer.ScanAppend | frequency_counter.cpp:156-198 | scanning a + b is scanning a, then scanning b from the token a left pending, with the values concatenated |
| Tokenizer.ChunkingIrrelevant | frequency_counter.cpp:156-198 | scanning a sequence of chunks, each from the token the previous one left, equals scanning their concatenation |
| Tokenizer.ScanMatchesFields | frequency_counter.cpp:167-198 | from a digit token, the values handed on are the decoded closed comma groups of the token followed by the input's digits and commas. Other bytes are dropped. Empty and refused groups give nothing, and the unterminated last group stays pending |
| Tokenizer.NoSeparatorOneField | frequency_counter.cpp:170-172 | a digit string without a comma is a single unterminated group |
| Tokenizer.ScanFromEmpty | frequency_counter.cpp:156-198 | from an empty token, the values handed on are exactly the decoded comma-terminated groups of the filtered input, in order, and the final unterminated group is never decoded |
| Tokenizer.ScanDigits | frequency_counter.cpp:170-172 | from an empty token, a run of digits hands nothing on and is held whole as the pending token |
| Tokenizer.OneToken | frequency_counter.cpp:64-198 | one producer token, `uint64_to_string(v)` followed by a comma, is scanned into exactly the value v with nothing left pending |
| Tokenizer.EncodeRoundTrip | frequency_counter.cpp:64-198 | no data loss on the channel: the bytes the producers append for any sequence of 64-bit values (lines 91-92 and 104) are scanned back into exactly that sequence, in order, with no token left pending |
| ReaderThread.Decide | frequency_counter.cpp:161-213 | the loop stops exactly on a read error or on an empty read after all writers finished; it waits exactly on an empty read with writers active and no error; otherwise it reads again |
| ReaderThread.DecisionOf | frequency_counter.cpp:161-213 | the loop's decision for one read stops exactly on a read error or on an empty read after every writer finished |
| ReaderThread.FinalOutcome | frequency_counter.cpp:224-239 | failure exactly when n > 0 and k >= n; for n = 0, success with an empty result; otherwise, for k > 1, exactly the candidates with count * k > n, and for k <= 1 an empty result |
| ReaderThread.Reader.constructor | frequency_counter.cpp:143-157 | a fresh reader has an empty map, n = 0, an empty token and a clear abort flag, and satisfies the invariant |
| ReaderThread.Reader.ProcessNumber | frequency_counter.cpp:116-138 | at n >= LLONG_MAX - 1, the map and n are unchanged and the abort flag is raised. Otherwise n rises by one and the map becomes `Update` of the old map. The map stays Misra-Gries over the counted values |
| ReaderThread.Reader.Refuse | frequency_counter.cpp:118-122 | at n >= LLONG_MAX - 1 the value joins the refused ones, the abort flag is raised, and the map and n keep the invariant unchanged |
| ReaderThread.Reader.Admit | frequency_counter.cpp:123-137 | below the guard, n rises by one, the value is counted and the map becomes `Update` of the old map |
| ReaderThread.Reader.Tally | frequency_counter.cpp:123-137 | the in-place map update yields `Update` of the old map and keeps it well formed |
| ReaderThread.Reader.DecrementAll | frequency_counter.cpp:129-136 | the erase-while-iterating pass leaves each count one lower, with exactly the entries that reach zero erased |
| ReaderThread.Reader.ConsumeChunk | frequency_counter.cpp:166-198 | the byte loop over one read feeds `process_number` exactly the values `Scan` emits, leaves the pending token `Scan` leaves, and never clears the abort flag |
| ReaderThread.Reader.StepByte | frequency_counter.cpp:168-197 | one byte moves the pending token and the values handed to `process_number` exactly as `Step` does, and never clears the abort flag |
| ReaderThread.Reader.CloseToken | frequency_counter.cpp:173-196 | a comma after a non-empty token feeds its decoding to `process_number` or drops it when refused, and clears the token |
| ReaderThread.Reader.Drain | frequency_counter.cpp:160-213 | the read loop uses reads until one whose decision is stop, or until the abort flag is up at the top of an iteration. It feeds `process_number` what the scanner takes from all bytes the used reads delivered, as one stream, no read before the last used one decided stop, and the guard had not tripped before the last used read, so the values scanned before it number at most LLONG_MAX - 1 |
| ReaderThread.SelectResult | frequency_counter.cpp:224-239 | the final check and the filter loop compute `FinalOutcome` of the map, k and n |
| ReaderThread.ResultOfStream | frequency_counter.cpp:224-239 | for k > 1, every value occurring more than n / k times is a candidate, and every reported value occurs more than n / k times |
| ReaderThread.ReaderFunc | frequency_counter.cpp:141-242 | the whole consumer. The loop ends exactly on a stop decision or once more than LLONG_MAX - 1 tokens were decoded, and otherwise it has used every read. Without overflow, n is the number of decoded tokens, the outcome is the final check and filter over Misra-Gries on them, and every reported value is a true heavy hitter. The values are those of the source's read-by-read scan, each read scanned from the token the previous one left (`ChunkingIrrelevant`). With overflow, n is LLONG_MAX - 1 and the outcome is the same over the first LLONG_MAX - 1 tokens, and the loop stopped at the read during which the guard tripped: the reads before it delivered at most LLONG_MAX - 1 tokens |
| Scenarios.HeavyHitterReported | frequency_counter.cpp:224-239 | the stream 7,7,7,7,2 with k = 3 ends with the map {7: 4, 2: 1} and the result {7} |

## Left out

- Threads, the mutex, the condition variable, `writer_func`, `main` and the
  atomic writers-finished counter are not modelled. A read's sampled
  "writers active" flag is an input of the model.
- A `Wait` decision does not block. The loop simply goes on with the next
  read it is given.
- File I/O (`fopen`, `fread`, `ferror`, `clearerr`, `fclose`) is not
  modelled. Each read is a `ReadResult` with a chunk of any length, so
  READ_BUFFER_SIZE plays no part. The failure to open the file is not
  modelled either.
- Random generation (`get_random_uint64`, `get_random_nj`) is not modelled.
  It is nondeterministic.
- Diagnostics written with `fprintf` to stderr are not modelled.
- Command-line parsing, sorting and printing of the result in `main` are not
  modelled. The result is a set, since `unordered_map` order is unspecified.
- `snprintf` and `std::stoull` are specified as decimal rendering and
  decoding, not modelled from their library code.
- ReaderThread.SelectResult: compares `count * k > n` exactly, over integers, where
  the source compares a count against the `double` n / k. The two can differ
  only once n passes 2^53.
- ReaderThread.Reader.ProcessNumber: counts are unbounded integers, where
  the source's are `int` (frequency_counter.cpp:116, 126). A count would
  overflow after 2^31 - 1 hits of one value, long before the guard on n
  trips. `main` keeps this out of reach: at most 50 writers
  (frequency_counter.cpp:254) of at most 999,999 values each
  (frequency_counter.cpp:17, 86-90) write fewer than 2^31 - 1 values. For a
  stream in which one value occurs 2^31 times or more, nothing the model
  proves is claimed to hold of the source.
- ReaderThread.ReaderFunc: when the reads run out before the loop ends
  (`ended` false), the outcome is the one the program would reach if the
  next read stopped the loop without delivering bytes; the source itself
  would keep reading.
- The abort flag is raised in the model only by the overflow guard in
  `process_number`. Its other setter, `main` when creating a writer thread
  fails (frequency_counter.cpp:320), is outside the model, as is the
  effect of a flag raised there while the reader runs.
- Bytes are modelled as `char`. A digit is '0' to '9', which is `isdigit` in
  the C locale.
