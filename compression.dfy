/**
 * The run-length codec of `src/compression.c`.
 *
 * The encoder writes every maximal run of equal bytes as the byte alone (run of
 * one) or as the byte followed by ONE RAW BYTE holding the run length modulo 256.
 * The decoder only reads a following byte as a count when it is an ASCII digit
 * '1'..'9'. The two are modelled as written, so they are not inverse to each
 * other; the lemmas at the end say exactly when the round trip holds and when it
 * fails.
 */
module Compression {
  import opened Common

  // ---------------------------------------------------------------------------
  // Runs
  // ---------------------------------------------------------------------------

  /** A maximal run: `length` copies of `value`. */
  datatype Run = Run(value: Byte, length: nat)

  /** The length of the run of bytes equal to `s[0]` at the front of `s`. */
  function RunLength(s: seq<Byte>): (n: nat)
    requires |s| > 0
    ensures 1 <= n <= |s|
    ensures forall k :: 0 <= k < n ==> s[k] == s[0]
    ensures n < |s| ==> s[n] != s[0]
    decreases |s|
  {
    if |s| == 1 || s[1] != s[0] then 1
    else
      var m := RunLength(s[1..]);
      assert forall k :: 1 <= k < 1 + m ==> s[k] == s[1..][k - 1];
      1 + m
  }

  /** The two conditions that make a run at the front of `s` maximal pin its length down. */
  lemma RunLengthUnique(s: seq<Byte>, c: nat)
    requires 1 <= c <= |s|
    requires forall k :: 0 <= k < c ==> s[k] == s[0]
    requires c < |s| ==> s[c] != s[0]
    ensures c == RunLength(s)
  {
  }

  /** The partition of `s` into maximal runs, left to right. */
  function Runs(s: seq<Byte>): seq<Run>
    decreases |s|
  {
    if |s| == 0 then []
    else
      var n := RunLength(s);
      [Run(s[0], n)] + Runs(s[n..])
  }

  /** The bytes a sequence of runs stands for. */
  function Expand(rs: seq<Run>): seq<Byte>
  {
    if |rs| == 0 then [] else Repeat(rs[0].value, rs[0].length) + Expand(rs[1..])
  }

  /** Runs are non-empty and neighbouring runs hold different bytes. */
  ghost predicate Maximal(rs: seq<Run>)
  {
    && (forall k :: 0 <= k < |rs| ==> rs[k].length >= 1)
    && (forall k :: 0 <= k < |rs| - 1 ==> rs[k].value != rs[k + 1].value)
  }

  // ---------------------------------------------------------------------------
  // Encoder (comprimir_rle)
  // ---------------------------------------------------------------------------

  /** What the encoder writes for one run: the byte alone for a run of one,
      otherwise the byte and the run length truncated to one byte (`(char)contador`). */
  function Token(r: Run): seq<Byte>
  {
    if r.length == 1 then [r.value] else [r.value, r.length % 256]
  }

  /** The tokens of a sequence of runs, concatenated. */
  function Emit(rs: seq<Run>): seq<Byte>
  {
    if |rs| == 0 then [] else Token(rs[0]) + Emit(rs[1..])
  }

  /** The encoder's output on a non-empty input. */
  function Encode(s: seq<Byte>): (r: seq<Byte>)
    ensures |r| == 0 <==> |s| == 0
    ensures |r| > 0 ==> r[0] == s[0]
  {
    Emit(Runs(s))
  }

  /** Encoding the rest of the input from a run boundary: one token, then the rest. */
  lemma EncodeUnfold(s: seq<Byte>)
    requires |s| > 0
    ensures Encode(s) == Token(Run(s[0], RunLength(s))) + Encode(s[RunLength(s)..])
  {
    var rs := Runs(s);
    assert rs[0] == Run(s[0], RunLength(s));
    assert rs[1..] == Runs(s[RunLength(s)..]);
  }

  /** `EncodeUnfold` at position `i` of a buffer. */
  lemma EncodeStep(data: seq<Byte>, i: nat, count: nat)
    requires i < |data| && count == RunLength(data[i..])
    ensures i + count <= |data|
    ensures Encode(data[i..]) == Token(Run(data[i], count)) + Encode(data[i + count..])
  {
    EncodeUnfold(data[i..]);
    assert data[i..][count..] == data[i + count..];
  }

  /** The inner counting loop of `comprimir_rle`: the length of the run at `i`. */
  method CountRun(data: seq<Byte>, i: nat) returns (count: nat)
    requires i < |data|
    ensures count == RunLength(data[i..])
  {
    count := 1;
    while i + count < |data| && data[i + count] == data[i]
      invariant 1 <= count <= |data| - i
      invariant forall k :: i <= k < i + count ==> data[k] == data[i]
    {
      count := count + 1;
    }
    ghost var rest := data[i..];
    assert forall k :: 0 <= k < count ==> rest[k] == rest[0];
    RunLengthUnique(rest, count);
  }

  /** The write step of `comprimir_rle`: one token for a run of `count` bytes
      equal to `b`, written at `pos` of the scratch buffer. */
  method WriteToken(buffer: array<Byte>, pos: nat, b: Byte, count: nat) returns (next: nat)
    requires count >= 1 && pos + 2 <= buffer.Length
    modifies buffer
    ensures next <= pos + count && next <= buffer.Length
    ensures buffer[..next] == old(buffer[..pos]) + Token(Run(b, count))
  {
    if count == 1 {
      buffer[pos] := b;
      next := pos + 1;
    } else {
      buffer[pos] := b;
      buffer[pos + 1] := count % 256;
      next := pos + 2;
    }
    assert buffer[..next] == buffer[..pos] + Token(Run(b, count));
  }

  /** The scanning loop of `comprimir_rle`: fills the scratch buffer with the
      encoding of `data` and returns the write index `pos`. */
  method ScanRuns(data: seq<Byte>, buffer: array<Byte>) returns (pos: nat)
    requires buffer.Length == 2 * |data| + 1
    modifies buffer
    ensures pos <= |data|
    ensures buffer[..pos] == Encode(data)
  {
    var n := |data|;
    pos := 0;
    var i := 0;
    while i < n
      invariant 0 <= i <= n
      invariant 0 <= pos <= i
      invariant buffer[..pos] + Encode(data[i..]) == Encode(data)
    {
      var current := data[i];
      var count := CountRun(data, i);
      ghost var before := buffer[..pos];
      ghost var token := Token(Run(current, count));
      var next := i + count;
      EncodeStep(data, i, count);
      ghost var later := Encode(data[next..]);
      pos := WriteToken(buffer, pos, current, count);
      ExtendPrefix(before, token, later, Encode(data[i..]), Encode(data));
      i := next;
    }
    EmptyTail(data);
    AppendNothing(buffer[..pos]);
  }

  /**
   * `comprimir_rle`: rejects an empty input (the C returns -1); otherwise scans
   * maximal runs with a cursor `i` and a write index `pos` into a scratch buffer
   * of 2n+1 bytes, and returns the filled prefix.
   */
  method CompressRle(data: seq<Byte>) returns (r: Option<seq<Byte>>)
    ensures |data| == 0 ==> r == None
    ensures |data| > 0 ==> r == Some(Encode(data))
    ensures r.Some? ==> 1 <= |r.value| <= |data|
  {
    if |data| == 0 {
      return None;
    }
    var buffer := new Byte[2 * |data| + 1];
    var pos := ScanRuns(data, buffer);
    EncodeLength(data);
    r := Some(buffer[..pos]);
  }

  // ---------------------------------------------------------------------------
  // Decoder (descomprimir_rle)
  // ---------------------------------------------------------------------------

  /** A byte the decoder reads as a repeat count: ASCII '1'..'9' (0x31..0x39). */
  predicate IsCountDigit(b: Byte)
  {
    '1' as int <= b <= '9' as int
  }

  /** The decoder's output on a non-empty input: a byte followed by a count digit
      is repeated that many times and the digit consumed; any other byte is
      written once and its follower is left for the next step. */
  function Decode(s: seq<Byte>): (r: seq<Byte>)
    ensures |r| == 0 <==> |s| == 0
    ensures |r| > 0 ==> r[0] == s[0]
    decreases |s|
  {
    if |s| == 0 then []
    else if |s| >= 2 && IsCountDigit(s[1]) then Repeat(s[0], s[1] - '0' as int) + Decode(s[2..])
    else [s[0]] + Decode(s[1..])
  }

  /** The decoder never writes more than 4.5 bytes per input byte. */
  lemma {:induction false} DecodeLength(s: seq<Byte>)
    ensures 2 * |Decode(s)| <= 9 * |s|
    decreases |s|
  {
    if |s| == 0 {
    } else if |s| >= 2 && IsCountDigit(s[1]) {
      DecodeLength(s[2..]);
    } else {
      DecodeLength(s[1..]);
    }
  }

  /** One decoder step at position `i`: a byte with a count digit after it. */
  lemma DecodeStepCount(data: seq<Byte>, i: nat, j: nat)
    requires j == i + 2 <= |data| && IsCountDigit(data[i + 1])
    ensures Decode(data[i..]) == Repeat(data[i], data[i + 1] - '0' as int) + Decode(data[j..])
  {
    assert data[i..][2..] == data[j..];
  }

  /** One decoder step at position `i`: a byte written once. */
  lemma DecodeStepSingle(data: seq<Byte>, i: nat, j: nat)
    requires j == i + 1 <= |data| && (j == |data| || !IsCountDigit(data[j]))
    ensures Decode(data[i..]) == [data[i]] + Decode(data[j..])
  {
    assert data[i..][1..] == data[j..];
  }

  /** The inner `for` loop of `descomprimir_rle`: `count` copies of `b` at `pos`. */
  method WriteRepeated(buffer: array<Byte>, pos: nat, b: Byte, count: nat) returns (next: nat)
    requires pos + count <= buffer.Length
    modifies buffer
    ensures next == pos + count
    ensures buffer[..next] == old(buffer[..pos]) + Repeat(b, count)
  {
    next := pos;
    var j := 0;
    while j < count
      invariant 0 <= j <= count
      invariant next == pos + j
      invariant buffer[..next] == old(buffer[..pos]) + Repeat(b, j)
    {
      buffer[next] := b;
      next := next + 1;
      j := j + 1;
    }
  }

  /** A single write `buffer[pos++] = caracter` of `descomprimir_rle`. */
  method WriteByte(buffer: array<Byte>, pos: nat, b: Byte) returns (next: nat)
    requires pos < buffer.Length
    modifies buffer
    ensures next == pos + 1
    ensures buffer[..next] == old(buffer[..pos]) + [b]
  {
    buffer[pos] := b;
    next := pos + 1;
  }

  /** One pass of the scanning loop: the byte at `i`, and the digit after it
      when there is one, written out at `pos`. What is written and what is
      left to decode still make up the same output. */
  method DecodeToken(data: seq<Byte>, buffer: array<Byte>, i: nat, pos: nat) returns (next: nat, end: nat)
    requires i < |data| && buffer.Length == 10 * |data| && 2 * pos <= 9 * i
    modifies buffer
    ensures i < next <= |data| && 2 * end <= 9 * next
    ensures buffer[..end] + Decode(data[next..]) == old(buffer[..pos]) + Decode(data[i..])
  {
    ghost var before := buffer[..pos];
    var c := data[i];
    var j := i + 1;
    if j < |data| && '1' as int <= data[j] <= '9' as int {
      var count := data[j] - '0' as int;
      next := j + 1;
      DecodeStepCount(data, i, next);
      end := WriteRepeated(buffer, pos, c, count);
      ConcatAssoc(before, Repeat(c, count), Decode(data[next..]));
    } else {
      next := j;
      DecodeStepSingle(data, i, next);
      end := WriteByte(buffer, pos, c);
      ConcatAssoc(before, [c], Decode(data[next..]));
    }
  }

  /** The scanning loop of `descomprimir_rle`: fills the scratch buffer with the
      decoding of `data` and returns the write index `pos`. */
  method ScanTokens(data: seq<Byte>, buffer: array<Byte>) returns (pos: nat)
    requires buffer.Length == 10 * |data|
    modifies buffer
    ensures 2 * pos <= 9 * |data|
    ensures buffer[..pos] == Decode(data)
  {
    var n := |data|;
    pos := 0;
    var i := 0;
    while i < n
      invariant 0 <= i <= n
      invariant 2 * pos <= 9 * i
      invariant buffer[..pos] + Decode(data[i..]) == Decode(data)
    {
      i, pos := DecodeToken(data, buffer, i, pos);
    }
    EmptyTail(data);
    AppendNothing(buffer[..pos]);
  }

  /**
   * `descomprimir_rle`: rejects an empty input (the C returns -1); otherwise
   * decodes with a cursor `i` and a write index `pos` into a scratch buffer of
   * 10n bytes, every write of which is in bounds, and returns the filled prefix.
   */
  method DecompressRle(data: seq<Byte>) returns (r: Option<seq<Byte>>)
    ensures |data| == 0 ==> r == None
    ensures |data| > 0 ==> r == Some(Decode(data))
    ensures r.Some? ==> |r.value| <= 10 * |data|
  {
    if |data| == 0 {
      return None;
    }
    var buffer := new Byte[10 * |data|];
    var pos := ScanTokens(data, buffer);
    r := Some(buffer[..pos]);
  }

  // ---------------------------------------------------------------------------
  // Properties
  // ---------------------------------------------------------------------------

  /** The runs of `s` concatenate back to `s`. */
  lemma {:induction false} ExpandRuns(s: seq<Byte>)
    ensures Expand(Runs(s)) == s
    decreases |s|
  {
    if |s| > 0 {
      var n := RunLength(s);
      ExpandRunsUnfold(s);
      ExpandRuns(s[n..]);
      SplitAt(s, n);
    }
  }

  /** The first run expands to the bytes it covers. */
  lemma ExpandRunsUnfold(s: seq<Byte>)
    requires |s| > 0
    ensures Expand(Runs(s)) == s[..RunLength(s)] + Expand(Runs(s[RunLength(s)..]))
  {
    var n := RunLength(s);
    var rs := Runs(s);
    assert rs[0] == Run(s[0], n) && rs[1..] == Runs(s[n..]);
    RunIsPrefix(s);
  }

  /** The run at the front of `s` is made of copies of `s[0]`. */
  lemma RunIsPrefix(s: seq<Byte>)
    requires |s| > 0
    ensures Repeat(s[0], RunLength(s)) == s[..RunLength(s)]
  {
  }

  /** The first run of a non-empty input holds its first byte. */
  lemma RunsHead(s: seq<Byte>)
    requires |s| > 0
    ensures |Runs(s)| > 0 && Runs(s)[0].value == s[0]
  {
  }

  /** The runs are non-empty, and no two neighbouring runs hold the same byte,
      so every run is maximal. */
  lemma {:induction false} RunsMaximal(s: seq<Byte>)
    ensures Maximal(Runs(s))
    decreases |s|
  {
    if |s| > 0 {
      var n := RunLength(s);
      var rs := Runs(s);
      var tail := Runs(s[n..]);
      assert rs == [Run(s[0], n)] + tail;
      RunsMaximal(s[n..]);
      if n < |s| {
        RunsHead(s[n..]);
        assert tail[0].value == s[n] != s[0];
      }
      forall k | 0 <= k < |rs| - 1
        ensures rs[k].value != rs[k + 1].value
      {
        if k > 0 {
          assert rs[k] == tail[k - 1] && rs[k + 1] == tail[k];
        }
      }
      forall k | 0 <= k < |rs|
        ensures rs[k].length >= 1
      {
        if k > 0 {
          assert rs[k] == tail[k - 1];
        }
      }
    }
  }

  /** No other maximal partition expands to `s`: `Runs` is the only one. */
  lemma {:induction false} RunsUnique(s: seq<Byte>, rs: seq<Run>)
    requires Maximal(rs) && Expand(rs) == s
    ensures rs == Runs(s)
    decreases |rs|
  {
    if |rs| > 0 {
      var r := rs[0];
      var tail := rs[1..];
      assert Maximal(tail);
      var e := Expand(tail);
      assert s == Repeat(r.value, r.length) + e;
      assert s[0] == r.value;
      if |tail| > 0 {
        assert e == Repeat(tail[0].value, tail[0].length) + Expand(tail[1..]);
        assert s[r.length] == e[0] == tail[0].value != r.value;
      }
      RunLengthUnique(s, r.length);
      assert s[r.length..] == e;
      RunsUnique(e, tail);
    }
  }

  /** The encoder never makes its input longer, and a non-empty input gives a
      non-empty output, so the 2n+1 scratch buffer is never overrun. */
  lemma {:induction false} EncodeLength(s: seq<Byte>)
    ensures |s| > 0 ==> 1 <= |Encode(s)|
    ensures |Encode(s)| <= |s|
    decreases |s|
  {
    if |s| > 0 {
      var n := RunLength(s);
      EncodeUnfold(s);
      EncodeLength(s[n..]);
    }
  }

  /** A run of n >= 2 equal bytes encodes to the byte and n mod 256: a run of
      256 bytes gets the count byte 0, a run of 300 the count byte 44. */
  lemma EncodeLongRun(b: Byte, n: nat)
    requires n >= 2
    ensures Encode(Repeat(b, n)) == [b, n % 256]
  {
    var s := Repeat(b, n);
    RunLengthUnique(s, n);
    EncodeUnfold(s);
    assert s[n..] == [];
  }

  /** A run of `n` copies of `b` followed by a different byte is encoded as
      one token in front of the encoding of the rest. */
  lemma EncodeRunPrefix(b: Byte, n: nat, t: seq<Byte>)
    requires n >= 1
    requires |t| > 0 ==> t[0] != b
    ensures Encode(Repeat(b, n) + t) == Token(Run(b, n)) + Encode(t)
  {
    var s := Repeat(b, n) + t;
    assert forall k :: 0 <= k < n ==> s[k] == s[0];
    assert n < |s| ==> s[n] == t[0];
    RunLengthUnique(s, n);
    EncodeUnfold(s);
    assert s[n..] == t;
  }

  /** The worked example of the source's comment: "AAAABBBCC" encodes to
      'A', 0x04, 'B', 0x03, 'C', 0x02 (raw counts, not digits). */
  lemma EncodeExample(s: seq<Byte>)
    requires s == [65, 65, 65, 65, 66, 66, 66, 67, 67]
    ensures Encode(s) == [65, 4, 66, 3, 67, 2]
  {
    var bs := s[4..];
    assert Repeat(65, 4) + bs == s;
    EncodeExampleTail(bs);
    EncodeRunPrefix(65, 4, bs);
    assert Token(Run(65, 4)) == [65, 4];
  }

  lemma EncodeExampleTail(bs: seq<Byte>)
    requires bs == [66, 66, 66, 67, 67]
    ensures Encode(bs) == [66, 3, 67, 2]
  {
    var cs := bs[3..];
    assert Repeat(66, 3) + cs == bs;
    assert cs == Repeat(67, 2) + [];
    assert Encode([]) == [];
    EncodeRunPrefix(67, 2, []);
    EncodeRunPrefix(66, 3, cs);
    assert Token(Run(66, 3)) == [66, 3];
  }

  /** The decoder's own example: "A4B3C2" (ASCII digits) decodes to "AAAABBBCC". */
  lemma DecodeExample(s: seq<Byte>)
    requires s == [65, 52, 66, 51, 67, 50]
    ensures Decode(s) == [65, 65, 65, 65, 66, 66, 66, 67, 67]
  {
    DecodeStepCount(s, 0, 2);
    DecodeStepCount(s, 2, 4);
    DecodeStepCount(s, 4, 6);
    assert s[6..] == [];
    assert Repeat(65, 4) == [65, 65, 65, 65];
    assert Repeat(66, 3) == [66, 66, 66];
    assert Repeat(67, 2) == [67, 67];
  }

  /** Without any byte in '1'..'9' the decoder copies its input unchanged. */
  lemma {:induction false} DecodeIdentity(s: seq<Byte>)
    requires forall k :: 0 <= k < |s| ==> !IsCountDigit(s[k])
    ensures Decode(s) == s
    decreases |s|
  {
    if |s| > 0 {
      DecodeIdentity(s[1..]);
    }
  }

  /** An input with no two equal neighbours is its own encoding. */
  lemma {:induction false} EncodeNoRepeats(s: seq<Byte>)
    requires forall k :: 0 <= k < |s| - 1 ==> s[k] != s[k + 1]
    ensures Encode(s) == s
    decreases |s|
  {
    if |s| > 0 {
      RunLengthUnique(s, 1);
      EncodeUnfold(s);
      EncodeNoRepeats(s[1..]);
      assert s == [s[0]] + s[1..];
    }
  }

  /** The round trip holds when the input has no two equal neighbours and no
      byte in '1'..'9'. */
  lemma RoundTripWithoutRuns(s: seq<Byte>)
    requires forall k :: 0 <= k < |s| - 1 ==> s[k] != s[k + 1]
    requires forall k :: 0 <= k < |s| ==> !IsCountDigit(s[k])
    ensures Decode(Encode(s)) == s
  {
    EncodeNoRepeats(s);
    DecodeIdentity(s);
  }

  /** The round trip fails on every input that starts with a run of 2..9 bytes
      whose value differs from the run length: the raw count byte 0x02..0x09 is
      not a digit, so the decoder copies it as data. */
  lemma RoundTripFailsOnShortRun(s: seq<Byte>)
    requires |s| >= 2
    requires 2 <= RunLength(s) <= 9
    requires s[0] != RunLength(s)
    ensures Decode(Encode(s)) != s
  {
    var n := RunLength(s);
    EncodeUnfold(s);
    ShortRunDecodes(s[0], n, Encode(s[n..]));
    assert s[1] == s[0];
  }

  /** A short run's token decodes to the byte and then the count byte itself. */
  lemma ShortRunDecodes(b: Byte, n: nat, rest: seq<Byte>)
    requires 2 <= n <= 9
    ensures var d := Decode(Token(Run(b, n)) + rest); |d| >= 2 && d[0] == b && d[1] == n
  {
    var e := Token(Run(b, n)) + rest;
    assert e[0] == b && e[1] == n;
    DecodeStepSingle(e, 0, 1);
    assert e[0..] == e;
  }

  /** The smallest instance: "AA" encodes to 'A', 0x02, which decodes to itself. */
  lemma RoundTripCounterexample(s: seq<Byte>)
    requires s == [65, 65]
    ensures Encode(s) == [65, 2]
    ensures Decode(Encode(s)) == [65, 2] != s
  {
    assert Repeat(65, 2) == s;
    EncodeLongRun(65, 2);
    DecodeStepSingle([65, 2], 0, 1);
    DecodeStepSingle([65, 2], 1, 2);
    assert [65, 2][1..] == [2] && [65, 2][2..] == [];
  }
}
