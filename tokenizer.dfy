/**
  The consumer's token accumulator as a pure scanner. Bytes arrive in chunks.
  A digit extends the pending token, which survives from one chunk to the
  next. A ',' closes a non-empty pending token, hands it to `ParseToken` and
  clears it. Every other byte is skipped without disturbing the pending
  token. `Scan` gives the pending token and the values handed on, in order.
*/
module Tokenizer {
  import opened Wrappers
  import opened Decimal

  const Separator: char := ','

  /** The scanner's state between bytes: the pending token and the values emitted so far. */
  datatype Scanned = Scanned(token: seq<char>, values: seq<nat>)

  /** The values a closed token contributes: its decoding, or nothing when it is refused. */
  function Accept(token: seq<char>): (vs: seq<nat>)
    ensures |vs| <= 1
  {
    match ParseToken(token)
    case Some(v) => [v]
    case None => []
  }

  /** The effect of one byte: at most one value is added to those already
      emitted, and none is retracted. */
  function Step(s: Scanned, c: char): (r: Scanned)
    ensures s.values <= r.values
    ensures |r.values| <= |s.values| + 1
  {
    if IsDigit(c) then Scanned(s.token + [c], s.values)
    else if c == Separator then
      if s.token == [] then s else Scanned([], s.values + Accept(s.token))
    else s
  }

  /** Scanning `bytes` starting from the pending token `token`; no more values
      come out than bytes go in. */
  function Scan(token: seq<char>, bytes: seq<char>): (r: Scanned)
    ensures |r.values| <= |bytes|
  {
    if bytes == [] then Scanned(token, [])
    else Step(Scan(token, bytes[..|bytes| - 1]), bytes[|bytes| - 1])
  }

  // ---------------------------------------------------------------------
  // The reference reading of the wire format

  /** The bytes the scanner looks at: digits and separators, in order. */
  function Filter(bytes: seq<char>): (r: seq<char>)
    ensures forall i :: 0 <= i < |r| ==> IsDigit(r[i]) || r[i] == Separator
  {
    if bytes == [] then []
    else
      var c := bytes[|bytes| - 1];
      Filter(bytes[..|bytes| - 1]) + if IsDigit(c) || c == Separator then [c] else []
  }

  /** `text` cut at every separator: the groups between separators, the last
      one being the unterminated tail. */
  function Fields(text: seq<char>): (fs: seq<seq<char>>)
    ensures |fs| >= 1
  {
    if text == [] then [[]]
    else
      var fs := Fields(text[..|text| - 1]);
      var c := text[|text| - 1];
      if c == Separator then fs + [[]] else fs[..|fs| - 1] + [fs[|fs| - 1] + [c]]
  }

  /** The values of a sequence of closed groups, each decoded or dropped. */
  function AcceptAll(groups: seq<seq<char>>): seq<nat> {
    if groups == [] then []
    else AcceptAll(groups[..|groups| - 1]) + Accept(groups[|groups| - 1])
  }

  /** Fold of `Scan` over successive chunks, each starting from the token the previous one left. */
  function ScanChunks(token: seq<char>, chunks: seq<seq<char>>): Scanned
    decreases |chunks|
  {
    if chunks == [] then Scanned(token, [])
    else
      var first := Scan(token, chunks[0]);
      var rest := ScanChunks(first.token, chunks[1..]);
      Scanned(rest.token, first.values + rest.values)
  }

  function Concat(chunks: seq<seq<char>>): seq<char> {
    if chunks == [] then [] else chunks[0] + Concat(chunks[1..])
  }

  /**
    What the producers append to the channel for the values `vs`, in the
    order their appends took the file lock: each value rendered by
    `uint64_to_string` and followed by a separator.
  */
  function Encode(vs: seq<nat>): seq<char>
    requires forall i :: 0 <= i < |vs| ==> vs[i] <= Uint64Max
  {
    if vs == [] then []
    else Encode(vs[..|vs| - 1]) + Uint64ToString(vs[|vs| - 1]) + [Separator]
  }

  // ---------------------------------------------------------------------
  // Lemmas

  /** The pending token only ever holds digits, so the consumer's all-digit
      check on a closed token always passes. */
  lemma {:induction false} ScanTokenDigits(token: seq<char>, bytes: seq<char>)
    requires AllDigits(token)
    ensures AllDigits(Scan(token, bytes).token)
  {
    if bytes != [] {
      ScanTokenDigits(token, bytes[..|bytes| - 1]);
    }
  }

  /** Every value handed on is a 64-bit value. */
  lemma {:induction false} ScanValuesInRange(token: seq<char>, bytes: seq<char>)
    ensures forall i :: 0 <= i < |Scan(token, bytes).values| ==> Scan(token, bytes).values[i] <= Uint64Max
  {
    if bytes != [] {
      var before := Scan(token, bytes[..|bytes| - 1]);
      ScanValuesInRange(token, bytes[..|bytes| - 1]);
      ParseTokenAccepts(before.token);
    }
  }

  lemma StepAppend(s: Scanned, prefix: seq<nat>, c: char)
    ensures Step(Scanned(s.token, prefix + s.values), c) ==
            Scanned(Step(s, c).token, prefix + Step(s, c).values)
  {
    if !IsDigit(c) && c == Separator && s.token != [] {
      assert prefix + s.values + Accept(s.token) == prefix + (s.values + Accept(s.token));
    }
  }

  /**
    Splitting the input anywhere makes no difference: scanning `a + b` is
    scanning `a`, then scanning `b` from the token `a` left pending.
  */
  lemma {:induction false} ScanAppend(token: seq<char>, a: seq<char>, b: seq<char>)
    ensures Scan(token, a + b) ==
      Scanned(Scan(Scan(token, a).token, b).token,
              Scan(token, a).values + Scan(Scan(token, a).token, b).values)
    decreases |b|
  {
    var first := Scan(token, a);
    if b == [] {
      assert a + b == a;
    } else {
      var b' := b[..|b| - 1];
      var c := b[|b| - 1];
      assert (a + b)[..|a + b| - 1] == a + b';
      ScanAppend(token, a, b');
      StepAppend(Scan(first.token, b'), first.values, c);
    }
  }

  /** The same for any number of chunks: the reader's result does not depend
      on how the channel's bytes were split across reads. */
  lemma {:induction false} ChunkingIrrelevant(token: seq<char>, chunks: seq<seq<char>>)
    ensures ScanChunks(token, chunks) == Scan(token, Concat(chunks))
    decreases |chunks|
  {
    if chunks != [] {
      ChunkingIrrelevant(Scan(token, chunks[0]).token, chunks[1..]);
      ScanAppend(token, chunks[0], Concat(chunks[1..]));
    }
  }

  /** Adding one more chunk at the end adds its bytes at the end. */
  lemma {:induction false} ConcatSnoc(chunks: seq<seq<char>>, c: seq<char>)
    ensures Concat(chunks + [c]) == Concat(chunks) + c
    decreases |chunks|
  {
    if chunks == [] {
      assert [c][1..] == [];
      assert c + [] == c;
    } else {
      assert (chunks + [c])[1..] == chunks[1..] + [c];
      ConcatSnoc(chunks[1..], c);
    }
  }

  /** The reference reading of a digits-and-separators text: its closed
      groups decoded, and its unterminated last group pending. */
  function Reading(text: seq<char>): Scanned {
    var fs := Fields(text);
    Scanned(fs[|fs| - 1], AcceptAll(fs[..|fs| - 1]))
  }

  lemma ReadingDigit(text: seq<char>, c: char)
    requires IsDigit(c)
    ensures Step(Reading(text), c) == Reading(text + [c])
  {
    assert (text + [c])[..|text|] == text;
    var fs := Fields(text);
    var fs' := Fields(text + [c]);
    assert fs' == fs[..|fs| - 1] + [fs[|fs| - 1] + [c]];
    assert fs'[..|fs'| - 1] == fs[..|fs| - 1];
  }

  lemma ReadingSeparator(text: seq<char>)
    ensures Step(Reading(text), Separator) == Reading(text + [Separator])
  {
    assert (text + [Separator])[..|text|] == text;
    var fs := Fields(text);
    var fs' := Fields(text + [Separator]);
    assert fs' == fs + [[]];
    assert fs'[..|fs'| - 1] == fs;
    assert fs == fs[..|fs| - 1] + [fs[|fs| - 1]];
    assert AcceptAll(fs) == AcceptAll(fs[..|fs| - 1]) + Accept(fs[|fs| - 1]);
    assert Accept([]) == [];
  }

  /**
    The scanner agrees with the reference reading: from a pending digit
    token `token`, the values handed on are the decodings of the closed
    groups of `token` followed by the digits and separators of `bytes`, and
    the unterminated last group is what stays pending. Bytes other than
    digits and separators are dropped, empty groups and refused groups
    produce nothing, and an unterminated last group is never decoded.
  */
  lemma {:induction false} ScanMatchesFields(token: seq<char>, bytes: seq<char>)
    requires AllDigits(token)
    ensures Scan(token, bytes) == Reading(token + Filter(bytes))
  {
    if bytes == [] {
      NoSeparatorOneField(token);
      assert token + Filter(bytes) == token;
    } else {
      var b' := bytes[..|bytes| - 1];
      var c := bytes[|bytes| - 1];
      ScanMatchesFields(token, b');
      var text := token + Filter(b');
      if IsDigit(c) {
        assert token + Filter(bytes) == text + [c];
        ReadingDigit(text, c);
      } else if c == Separator {
        assert token + Filter(bytes) == text + [c];
        ReadingSeparator(text);
      } else {
        assert token + Filter(bytes) == text;
      }
    }
  }

  /** A digit string with no separator is a single unterminated group. */
  lemma {:induction false} NoSeparatorOneField(token: seq<char>)
    requires AllDigits(token)
    ensures Fields(token) == [token]
  {
    if token != [] {
      var t' := token[..|token| - 1];
      NoSeparatorOneField(t');
      assert token == t' + [token[|token| - 1]];
    }
  }

  /**
    From an empty pending token: the values handed on are the decoded closed
    groups of the filtered input, and a final group with no separator after
    it is left pending.
  */
  lemma ScanFromEmpty(bytes: seq<char>)
    ensures var fs := Fields(Filter(bytes));
      && Scan([], bytes).values == AcceptAll(fs[..|fs| - 1])
      && Scan([], bytes).token == fs[|fs| - 1]
  {
    ScanMatchesFields([], bytes);
    assert [] + Filter(bytes) == Filter(bytes);
  }

  /** A run of digits from an empty token only grows the pending token. */
  lemma {:induction false} ScanDigits(ds: seq<char>)
    requires AllDigits(ds)
    ensures Scan([], ds) == Scanned(ds, [])
  {
    if ds != [] {
      var ds' := ds[..|ds| - 1];
      ScanDigits(ds');
      assert ds' + [ds[|ds| - 1]] == ds;
    }
  }

  /** One producer token, scanned from an empty token, hands on exactly its value. */
  lemma OneToken(v: nat)
    requires v <= Uint64Max
    ensures Scan([], Uint64ToString(v) + [Separator]) == Scanned([], [v])
  {
    var t := Uint64ToString(v);
    ScanDigits(t);
    ScanAppend([], t, [Separator]);
    assert [Separator][..0] == [];
    ParseUint64ToString(v);
  }

  /**
    No data is lost or invented on the channel: the bytes the producers
    append, whatever values they write, are scanned back into exactly those
    values, in order, with no token left pending.
  */
  lemma {:induction false} EncodeRoundTrip(vs: seq<nat>)
    requires forall i :: 0 <= i < |vs| ==> vs[i] <= Uint64Max
    ensures Scan([], Encode(vs)) == Scanned([], vs)
  {
    if vs != [] {
      var front := vs[..|vs| - 1];
      var v := vs[|vs| - 1];
      assert front + [v] == vs;
      assert forall i :: 0 <= i < |front| ==> front[i] <= Uint64Max;
      var head := Encode(front);
      var tail := Uint64ToString(v) + [Separator];
      assert Encode(vs) == head + tail;
      EncodeRoundTrip(front);
      OneToken(v);
      ScanTokens(head, tail, front, v);
    }
  }

  /** The scan of two encoded parts, each read from an empty token. */
  lemma ScanTokens(head: seq<char>, tail: seq<char>, front: seq<nat>, v: nat)
    requires Scan([], head) == Scanned([], front)
    requires Scan([], tail) == Scanned([], [v])
    ensures Scan([], head + tail) == Scanned([], front + [v])
  {
    ScanAppend([], head, tail);
  }
}
