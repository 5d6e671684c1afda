/**
  The consumer thread (`reader_func`) without its threads and its file. A
  `Reader` holds what `reader_func` keeps in local variables across
  iterations: the candidate map, the processed count n and the pending
  token. It also holds the process-wide abort flag. Each read of the
  channel is given to the model as a `ReadResult`: the sampled "some writer
  is still active", the bytes read and the error indicator.
*/
module ReaderThread {
  import opened Wrappers
  import opened Decimal
  import opened MisraGries
  import opened Tokenizer

  /** LLONG_MAX, the largest value of the processed count's type. */
  const LLongMax: nat := 0x7FFF_FFFF_FFFF_FFFF

  /** The most values `process_number` ever counts: it refuses to go past
      LLONG_MAX - 1. */
  const MaxProcessed: nat := LLongMax - 1

  /** What the loop does after one read. */
  datatype Decision = Continue | Wait | Stop

  /** One read of the channel as the loop sees it. */
  datatype ReadResult = ReadResult(writersActive: bool, chunk: seq<char>, readError: bool)

  /** Outcome of the reader thread: a threshold error, or success with the result set. */
  datatype Outcome = ThresholdError | Done(result: set<nat>)

  /**
    The end of one loop iteration, written as the source writes it:
    `active` drops on a read error or when no writer was active before a
    read that returned nothing; then the loop waits, breaks, or goes round,
    and a cleared `active` ends the loop at its condition. So the loop stops
    exactly on a read error or an empty read after every writer finished,
    waits exactly on an empty read while writers are active, and otherwise
    reads again.
  */
  function Decide(writersActive: bool, bytesRead: nat, readError: bool): (d: Decision)
    ensures d == Stop <==> readError || (!writersActive && bytesRead == 0)
    ensures d == Wait <==> writersActive && bytesRead == 0 && !readError
    ensures d == Continue <==> bytesRead > 0 && !readError
  {
    var active := !readError && !(!writersActive && bytesRead == 0);
    if writersActive && bytesRead == 0 && active then Wait
    else if !writersActive && !active then Stop
    else if active then Continue
    else Stop
  }

  /** The loop's decision for one read: stop exactly on an error or on an
      empty read after every writer finished. */
  function DecisionOf(r: ReadResult): (d: Decision)
    ensures d == Stop <==> r.readError || (!r.writersActive && r.chunk == [])
  {
    Decide(r.writersActive, |r.chunk|, r.readError)
  }

  /** The chunks returned by a sequence of reads, one per read. */
  function Chunks(results: seq<ReadResult>): (cs: seq<seq<char>>)
    ensures |cs| == |results|
    ensures forall j :: 0 <= j < |results| ==> cs[j] == results[j].chunk
  {
    seq(|results|, j requires 0 <= j < |results| => results[j].chunk)
  }

  /** All bytes delivered by a sequence of reads, in order. */
  function Delivered(results: seq<ReadResult>): seq<char> {
    Concat(Chunks(results))
  }

  /** No read in `rs` made the loop stop. */
  ghost predicate NoneStops(rs: seq<ReadResult>) {
    forall j :: 0 <= j < |rs| ==> DecisionOf(rs[j]) != Stop
  }

  lemma NoneStopsSnoc(results: seq<ReadResult>, used: nat)
    requires 0 < used < |results|
    requires NoneStops(results[..used - 1]) && DecisionOf(results[used - 1]) != Stop
    ensures NoneStops(results[..used])
  {
    assert results[..used] == results[..used - 1] + [results[used - 1]];
  }

  lemma AppendAssociative(a: seq<nat>, b: seq<nat>, c: seq<nat>)
    ensures a + b + c == a + (b + c)
  {
  }

  lemma DeliveredSnoc(results: seq<ReadResult>, i: nat)
    requires i < |results|
    ensures Delivered(results[..i + 1]) == Delivered(results[..i]) + results[i].chunk
  {
    assert Chunks(results[..i + 1]) == Chunks(results[..i]) + [results[i].chunk];
    ConcatSnoc(Chunks(results[..i]), results[i].chunk);
  }

  /** Scanning one more byte of a chunk. */
  lemma ScanSnoc(token: seq<char>, chunk: seq<char>, i: nat)
    requires i < |chunk|
    ensures Scan(token, chunk[..i + 1]) == Step(Scan(token, chunk[..i]), chunk[i])
  {
    assert chunk[..i + 1][..i] == chunk[..i];
  }

  /** Scanning the bytes of one more read, from the token the earlier reads left. */
  lemma DeliveredStep(token: seq<char>, results: seq<ReadResult>, i: nat, before: Scanned)
    requires i < |results|
    requires Scan(token, Delivered(results[..i])) == before
    ensures Scan(token, Delivered(results[..i + 1])) ==
      Scanned(Scan(before.token, results[i].chunk).token,
              before.values + Scan(before.token, results[i].chunk).values)
  {
    DeliveredSnoc(results, i);
    ScanAppend(token, Delivered(results[..i]), results[i].chunk);
  }

  /**
    The final check and the result filter, as a function of the reader's
    state: failure exactly when n > 0 and k >= n; for n = 0 an empty result
    and success; otherwise, for k > 1, exactly the candidates whose count
    times k exceeds n, and for k <= 1 an empty result.
  */
  function FinalOutcome(candidates: Candidates, k: int, n: nat): (o: Outcome)
    ensures o == ThresholdError <==> n > 0 && k >= n
    ensures n == 0 ==> o == Done({})
    ensures o.Done? && n > 0 && k > 1 ==>
      forall v :: v in o.result <==> v in candidates && candidates[v] * k > n
    ensures o.Done? && k <= 1 ==> o.result == {}
  {
    if k >= n && n > 0 then ThresholdError
    else if n > 0 && k > 1 then Done(set v | v in candidates && candidates[v] * k > n)
    else Done({})
  }

  class Reader {
    /** The divisor k. */
    const k: int
    /** `k_misra = max(k - 1, 1)`. */
    const kMisra: nat
    var candidates: Candidates
    /** The processed count. */
    var n: nat
    /** The partial token that persists across reads. */
    var token: seq<char>
    /** `global_should_exit`. */
    var shouldExit: bool

    /** Every value handed to `process_number`, in order. */
    ghost var fed: seq<nat>
    /** The values `process_number` counted: all of `fed` until n reaches
        LLONG_MAX - 1, none after. */
    ghost var counted: seq<nat>
    /** The values the overflow guard refused: the rest of `fed`. */
    ghost var dropped: seq<nat>

    /** The estimator's invariant: the map is Misra-Gries run over the values
        counted so far, and n is how many there are. */
    ghost predicate Counting()
      reads this
    {
      && kMisra == KMisra(k)
      && candidates == Run(kMisra, counted)
      && n == |counted| <= MaxProcessed
      && fed == counted + dropped
      && (dropped != [] ==> |counted| == MaxProcessed)
      && (shouldExit <==> dropped != [])
    }

    /** The reader's invariant: in addition, the pending token holds only digits. */
    ghost predicate Valid()
      reads this
    {
      && Counting()
      && AllDigits(token)
    }

    constructor (k: int)
      ensures Valid()
      ensures this.k == k && candidates == map[] && n == 0 && token == [] && !shouldExit
      ensures fed == [] && counted == [] && dropped == []
    {
      this.k := k;
      kMisra := KMisra(k);
      candidates := map[];
      n := 0;
      token := [];
      shouldExit := false;
      fed := [];
      counted := [];
      dropped := [];
    }

    /**
      `process_number`: one Misra-Gries update of the candidate map, with the
      guard that refuses to count past LLONG_MAX - 1 and raises the abort
      flag instead.
    */
    method ProcessNumber(num: nat)
      requires Counting()
      modifies this
      ensures Counting() && WellFormed(candidates, kMisra)
      ensures fed == old(fed) + [num]
      ensures token == old(token)
      ensures old(n) >= MaxProcessed ==>
        && shouldExit && n == old(n) && candidates == old(candidates)
        && counted == old(counted) && dropped == old(dropped) + [num]
      ensures old(n) < MaxProcessed ==>
        && n == old(n) + 1 && shouldExit == old(shouldExit)
        && candidates == Update(old(candidates), kMisra, num)
        && counted == old(counted) + [num] && dropped == old(dropped)
    {
      if n >= MaxProcessed {
        Refuse(num);
      } else {
        Admit(num);
      }
    }

    /** The overflow guard of `process_number`: the value is not counted and
        the abort flag is raised. */
    method Refuse(num: nat)
      requires Counting() && n >= MaxProcessed
      modifies this`fed, this`dropped, this`shouldExit
      ensures Counting() && WellFormed(candidates, kMisra)
      ensures fed == old(fed) + [num] && dropped == old(dropped) + [num] && shouldExit
    {
      RunWellFormed(k, counted);
      assert fed + [num] == counted + (dropped + [num]);
      fed := fed + [num];
      dropped := dropped + [num];
      shouldExit := true;
    }

    /** `process_number` below the guard: n is incremented and the map updated. */
    method Admit(num: nat)
      requires Counting() && n < MaxProcessed
      modifies this`fed, this`counted, this`n, this`candidates
      ensures Counting() && WellFormed(candidates, kMisra)
      ensures fed == old(fed) + [num] && counted == old(counted) + [num]
      ensures n == old(n) + 1 && candidates == Update(old(candidates), kMisra, num)
    {
      RunWellFormed(k, counted);
      assert dropped == [];
      Tally(num);
      RunStep(kMisra, counted, num);
      n := n + 1;
      fed := fed + [num];
      counted := counted + [num];
    }

    /**
      The map update of `process_number` once n has been counted: a hit
      increments, a miss is admitted with count 1 while the map holds fewer
      than kMisra entries, and otherwise an eviction round runs.
    */
    method Tally(num: nat)
      requires WellFormed(candidates, kMisra)
      modifies this`candidates
      ensures candidates == Update(old(candidates), kMisra, num)
      ensures WellFormed(candidates, kMisra)
    {
      UpdateWellFormed(candidates, kMisra, num);
      if num in candidates {
        candidates := candidates[num := candidates[num] + 1];
      } else if |candidates| < kMisra {
        candidates := candidates[num := 1];
      } else {
        DecrementAll();
      }
    }

    /**
      The eviction round of `process_number`: one pass over the map that
      decrements every count and erases each entry whose count reaches zero.
    */
    method DecrementAll()
      requires forall x :: x in candidates ==> candidates[x] >= 1
      modifies this`candidates
      ensures candidates == Decrement(old(candidates))
    {
      var unvisited := candidates.Keys;
      while unvisited != {}
        invariant unvisited <= old(candidates).Keys
        invariant candidates == map x | x in old(candidates) && (x in unvisited || old(candidates)[x] > 1) ::
          if x in unvisited then old(candidates)[x] else old(candidates)[x] - 1
        decreases unvisited
      {
        var x :| x in unvisited;
        if candidates[x] - 1 == 0 {
          candidates := candidates - {x};
        } else {
          candidates := candidates[x := candidates[x] - 1];
        }
        unvisited := unvisited - {x};
      }
    }

    /**
      The tokenizer pass over one chunk: digits extend the pending token, a
      separator closes a non-empty token, which is decoded and counted or
      dropped, and every other byte is skipped.
    */
    method ConsumeChunk(chunk: seq<char>)
      requires Valid()
      modifies this
      ensures Valid()
      ensures fed == old(fed) + Scan(old(token), chunk).values
      ensures token == Scan(old(token), chunk).token
      ensures old(shouldExit) ==> shouldExit
    {
      ghost var token0, fed0 := token, fed;
      ghost var emitted: seq<nat> := [];
      assert chunk[..0] == [];
      for i := 0 to |chunk|
        invariant Valid()
        invariant fed == fed0 + emitted
        invariant Scan(token0, chunk[..i]) == Scanned(token, emitted)
        invariant old(shouldExit) ==> shouldExit
      {
        var c := chunk[i];
        ScanSnoc(token0, chunk, i);
        ghost var next := Step(Scanned(token, emitted), c);
        StepAppend(Scanned(token, emitted), fed0, c);
        StepByte(c);
        emitted := next.values;
      }
      assert chunk[..|chunk|] == chunk;
    }

    /**
      One byte of the tokenizer pass: a digit extends the pending token, a
      separator closes a non-empty one, and any other byte is skipped. The
      pending token and the values handed to `process_number` move as `Step`
      says.
    */
    method StepByte(c: char)
      requires Valid()
      modifies this
      ensures Valid()
      ensures Scanned(token, fed) == Step(Scanned(old(token), old(fed)), c)
      ensures old(shouldExit) ==> shouldExit
    {
      if IsDigit(c) {
        token := token + [c];
      } else if c == Separator && token != [] {
        CloseToken();
      }
    }

    /**
      A separator after a non-empty pending token: the token is decoded and
      counted, or dropped when it is refused, and the pending token is cleared.
    */
    method CloseToken()
      requires Valid()
      modifies this
      ensures Valid()
      ensures fed == old(fed) + Accept(old(token))
      ensures token == []
      ensures old(shouldExit) ==> shouldExit
    {
      var parsed := ParseToken(token);
      match parsed {
        case Some(v) =>
          ProcessNumber(v);
        case None =>
      }
      token := [];
    }

    /**
      The reader's loop, one `ReadResult` per iteration, until the decision
      is to stop or the abort flag is seen at the top of an iteration. A
      `Wait` decision goes on with the next read, which is the one made after
      the wake-up. Returns how many reads were used and whether the loop
      ended (rather than running out of reads). What the used reads
      delivered is scanned as one stream, whatever its split into chunks.
      Every read but the last one used starts with the guard not yet
      tripped, so what came before it fits within LLONG_MAX - 1 values.
    */
    method Drain(results: seq<ReadResult>) returns (used: nat, ended: bool)
      requires Valid()
      modifies this
      ensures Valid()
      ensures used <= |results|
      ensures fed == old(fed) + Scan(old(token), Delivered(results[..used])).values
      ensures token == Scan(old(token), Delivered(results[..used])).token
      ensures old(shouldExit) ==> used == 0 && ended
      ensures used == 0 || NoneStops(results[..used - 1])
      ensures ended <==> shouldExit || (0 < used && DecisionOf(results[used - 1]) == Stop)
      ensures !ended ==> used == |results|
      ensures 0 < used ==> |old(fed)| + |Scan(old(token), Delivered(results[..used - 1])).values| <= MaxProcessed
    {
      ghost var token0, fed0 := token, fed;
      ghost var emitted: seq<nat> := [];
      used := 0;
      var active := true;
      while active && !shouldExit && used < |results|
        invariant Valid()
        invariant used <= |results|
        invariant fed == fed0 + emitted
        invariant Scan(token0, Delivered(results[..used])) == Scanned(token, emitted)
        invariant old(shouldExit) ==> used == 0 && shouldExit
        invariant used == 0 || NoneStops(results[..used - 1])
        invariant active <==> (used == 0 || DecisionOf(results[used - 1]) != Stop)
        invariant 0 < used ==> |fed0| + |Scan(token0, Delivered(results[..used - 1])).values| <= MaxProcessed
        decreases |results| - used
      {
        assert |fed| <= MaxProcessed;
        var r := results[used];
        if used > 0 {
          NoneStopsSnoc(results, used);
        }
        DeliveredStep(token0, results, used, Scanned(token, emitted));
        ghost var values := Scan(token, r.chunk).values;
        AppendAssociative(fed0, emitted, values);
        emitted := emitted + values;
        ConsumeChunk(r.chunk);
        if DecisionOf(r) == Stop {
          active := false;
        }
        used := used + 1;
      }
      ended := !active || shouldExit;
    }
  }

  /**
    The final check and the result filter: failure when k >= n and n > 0;
    otherwise every candidate whose count exceeds n / k, compared exactly as
    count * k > n, is pushed into the result.
  */
  method SelectResult(candidates: Candidates, k: int, n: nat) returns (outcome: Outcome)
    ensures outcome == FinalOutcome(candidates, k, n)
  {
    if k >= n && n > 0 {
      return ThresholdError;
    }
    var result: set<nat> := {};
    if n > 0 && k > 1 {
      var unvisited := candidates.Keys;
      while unvisited != {}
        invariant unvisited <= candidates.Keys
        invariant result == set v | v in candidates && v !in unvisited && candidates[v] * k > n
        decreases unvisited
      {
        var v :| v in unvisited;
        if candidates[v] * k > n {
          result := result + {v};
        }
        unvisited := unvisited - {v};
      }
    }
    return Done(result);
  }

  /**
    `reader_func` after the file is open: a fresh reader drains the reads,
    then the final check and the result filter run on its map and its n.
    Returns the outcome, n (`total_elements_processed`), how many reads were
    used, and whether the loop ended; when it did not, the reads ran out
    first and the outcome is the one the program would reach if no further
    read delivered anything and the next one stopped the loop. The loop ends
    on a stop decision or once the overflow guard has tripped. The outcome
    is the final check and filter applied to Misra-Gries over the values the
    tokenizer takes from the delivered bytes, cut at the first LLONG_MAX - 1
    of them when there are more, and without that cut no reported value
    occurs n / k times or fewer. Those values are the ones the source's
    read-by-read scan gives, each read's bytes scanned from the token the
    previous read left pending.
  */
  method ReaderFunc(k: int, results: seq<ReadResult>) returns (outcome: Outcome, n: nat, used: nat, ended: bool)
    ensures used <= |results|
    ensures used == 0 || NoneStops(results[..used - 1])
    ensures !ended ==> used == |results|
    ensures 0 < used ==> |Scan([], Delivered(results[..used - 1])).values| <= MaxProcessed
    ensures ScanChunks([], Chunks(results[..used])) == Scan([], Delivered(results[..used]))
    ensures var xs := Scan([], Delivered(results[..used])).values;
      ended <==> (0 < used && DecisionOf(results[used - 1]) == Stop) || |xs| > MaxProcessed
    ensures var xs := Scan([], Delivered(results[..used])).values;
      |xs| <= MaxProcessed ==>
        && n == |xs|
        && outcome == FinalOutcome(Run(KMisra(k), xs), k, |xs|)
        && (k > 1 && outcome.Done? ==> forall v :: v in outcome.result ==> Frequency(xs, v) * k > |xs|)
    ensures var xs := Scan([], Delivered(results[..used])).values;
      |xs| > MaxProcessed ==>
        && n == MaxProcessed
        && outcome == FinalOutcome(Run(KMisra(k), xs[..MaxProcessed]), k, MaxProcessed)
  {
    var reader := new Reader(k);
    used, ended := reader.Drain(results);
    ChunkingIrrelevant([], Chunks(results[..used]));
    ghost var xs := Scan([], Delivered(results[..used])).values;
    assert reader.fed == xs by {
      assert [] + xs == xs;
    }
    outcome := SelectResult(reader.candidates, k, reader.n);
    n := reader.n;
    if |xs| <= MaxProcessed {
      assert reader.counted == xs;
      assert reader.candidates == Run(KMisra(k), xs);
      if k > 1 {
        ResultOfStream(k, xs);
      }
    } else {
      assert reader.counted == xs[..MaxProcessed] by {
        assert |reader.counted| == MaxProcessed;
      }
    }
  }

  /**
    The Misra-Gries guarantee at the end of the run: for k > 1, every value
    occurring more than n / k times in the counted stream is a candidate,
    and no reported value occurs n / k times or fewer.
  */
  lemma ResultOfStream(k: int, xs: seq<nat>)
    requires k > 1
    ensures forall v :: Frequency(xs, v) * k > |xs| ==> v in Run(KMisra(k), xs)
    ensures FinalOutcome(Run(KMisra(k), xs), k, |xs|).Done? ==>
      forall v :: v in FinalOutcome(Run(KMisra(k), xs), k, |xs|).result ==> Frequency(xs, v) * k > |xs|
  {
    forall v | Frequency(xs, v) * k > |xs|
      ensures v in Run(KMisra(k), xs)
    {
      HeavyHitterKept(k, xs, v);
    }
    var o := FinalOutcome(Run(KMisra(k), xs), k, |xs|);
    forall v | o.Done? && v in o.result
      ensures Frequency(xs, v) * k > |xs|
    {
      CountBounds(k, xs, v);
      MulMonotone(Count(Run(KMisra(k), xs), v), Frequency(xs, v), k);
    }
  }
}
