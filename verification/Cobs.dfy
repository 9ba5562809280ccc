/** Consistent-overhead byte stuffing: the encoding, its decoder, and the loops
    of the gateway (over growing byte arrays) and of the bridge (over fixed
    buffers). */
module Cobs {
  import opened Bytes
  import opened Options

  /** The encoding of `run + data`, where `run` is the block being collected:
      at most 253 nonzero bytes, to be preceded by its code byte. */
  function EncodeFrom(run: seq<byte>, data: seq<byte>): seq<byte>
    requires |run| <= 253
    decreases |data|
  {
    if data == [] then [|run| + 1] + run
    else if data[0] == 0 then [|run| + 1] + run + EncodeFrom([], data[1..])
    else if |run| == 253 then [0xFF] + (run + [data[0]]) + EncodeFrom([], data[1..])
    else EncodeFrom(run + [data[0]], data[1..])
  }

  function Encode(data: seq<byte>): seq<byte> { EncodeFrom([], data) }

  /** None stands for a malformed body. */
  function Decode(body: seq<byte>): Option<seq<byte>>
    decreases |body|
  {
    if body == [] then Some([])
    else if body[0] == 0 || body[0] > |body| then None
    else
      var code := body[0];
      var rest := body[code..];
      match Decode(rest)
      case None => None
      case Some(tail) => Some(body[1..code] + (if code < 0xFF && rest != [] then [0] else []) + tail)
  }

  lemma DecodeBlock(code: byte, block: seq<byte>, rest: seq<byte>)
    requires code == |block| + 1
    ensures Decode([code] + block + rest) ==
            match Decode(rest)
            case None => None
            case Some(tail) => Some(block + (if code < 0xFF && rest != [] then [0] else []) + tail)
  {
    var body := [code] + block + rest;
    assert body[1..code] == block && body[code..] == rest;
  }

  lemma EncodeNonempty(run: seq<byte>, data: seq<byte>)
    requires |run| <= 253
    ensures |EncodeFrom(run, data)| > |run|
    decreases |data|
  {
    if data != [] && data[0] != 0 && |run| < 253 { EncodeNonempty(run + [data[0]], data[1..]); }
  }

  lemma {:induction false} DecodeEncodeFrom(run: seq<byte>, data: seq<byte>)
    requires |run| <= 253
    ensures Decode(EncodeFrom(run, data)) == Some(run + data)
    decreases |data|
  {
    hide Decode;
    if data == [] {
      DecodeBlock(|run| + 1, run, []);
      DecodeNothing();
      assert [|run| + 1] + run + [] == [|run| + 1] + run && run + [] + [] == run + data;
    } else if data[0] == 0 {
      DecodeEncodeFrom([], data[1..]);
      EncodeNonempty([], data[1..]);
      DecodeBlock(|run| + 1, run, EncodeFrom([], data[1..]));
      assert run + [0] + ([] + data[1..]) == run + data;
    } else if |run| == 253 {
      DecodeEncodeFrom([], data[1..]);
      DecodeBlock(0xFF, run + [data[0]], EncodeFrom([], data[1..]));
      assert run + [data[0]] + [] + ([] + data[1..]) == run + data;
    } else {
      DecodeEncodeFrom(run + [data[0]], data[1..]);
      assert run + [data[0]] + data[1..] == run + data;
    }
  }

  lemma DecodeNothing()
    ensures Decode([]) == Some([])
  {
  }

  /** Decoding an encoding gives the data, for every byte string. */
  lemma DecodeInvertsEncode(data: seq<byte>)
    ensures Decode(Encode(data)) == Some(data)
  {
    DecodeEncodeFrom([], data);
    assert [] + data == data;
  }

  lemma {:induction false} EncodeFromShape(run: seq<byte>, data: seq<byte>)
    requires |run| <= 253 && 0 !in run
    ensures 0 !in EncodeFrom(run, data)
    ensures |EncodeFrom(run, data)| <= |run| + |data| + 1 + (|run| + |data|) / 254
    decreases |data|
  {
    if data == [] {
    } else if data[0] == 0 {
      EncodeFromShape([], data[1..]);
    } else if |run| == 253 {
      EncodeFromShape([], data[1..]);
      assert 0 !in run + [data[0]];
    } else {
      EncodeFromShape(run + [data[0]], data[1..]);
    }
  }

  /** The encoding has no zero byte, and costs one byte and one more per 254. */
  lemma EncodeShape(data: seq<byte>)
    ensures 0 !in Encode(data) && 0 < |Encode(data)| <= |data| + 1 + |data| / 254
  {
    EncodeFromShape([], data);
    EncodeNonempty([], data);
  }

  /** Without a zero byte in the data the cost is exactly that. */
  lemma {:induction false} EncodeFromExact(run: seq<byte>, data: seq<byte>)
    requires |run| <= 253 && 0 !in data
    ensures |EncodeFrom(run, data)| == |run| + |data| + 1 + (|run| + |data|) / 254
    decreases |data|
  {
    if data == [] {
    } else if |run| == 253 {
      EncodeFromExact([], data[1..]);
    } else {
      EncodeFromExact(run + [data[0]], data[1..]);
    }
  }

  /** Decoding removes at most one byte and one more per 255: a long body cannot
      decode to a short frame. */
  lemma {:induction false} DecodeLength(body: seq<byte>)
    requires Decode(body).Some?
    ensures |body| <= |Decode(body).value| + 1 + |body| / 255
    decreases |body|
  {
    if body != [] {
      DecodeLength(body[body[0]..]);
    }
  }

  /** One turn of either encoder: the byte extends the block, or closes it. */
  lemma EncodeTurn(done: seq<byte>, run: seq<byte>, data: seq<byte>)
    requires |run| <= 253 && data != []
    ensures var b := data[0];
            var run' := if b != 0 then run + [b] else run;
            done + EncodeFrom(run, data) ==
              if b == 0 || |run'| == 254 then (done + ([|run'| + 1] + run')) + EncodeFrom([], data[1..])
              else done + EncodeFrom(run', data[1..])
  {
  }

  // ---------- the gateway ----------

  method EncodePy(data: seq<byte>) returns (out: seq<byte>)
    ensures out == Encode(data)
  {
    hide EncodeFrom;
    out := [0];
    var codeIdx, code := 0, 1;
    ghost var done: seq<byte>, run: seq<byte> := [], [];
    assert data[0..] == data && [] + EncodeFrom([], data) == Encode(data);
    for i := 0 to |data|
      invariant |run| <= 253 && code == |run| + 1 && codeIdx == |done|
      invariant out == done + [0] + run
      invariant done + EncodeFrom(run, data[i..]) == Encode(data)
    {
      var b := data[i];
      EncodeTurn(done, run, data[i..]);
      assert data[i..][0] == b && data[i..][1..] == data[i + 1..];
      if b != 0 {
        out := out + [b];
        code := code + 1;
        run := run + [b];
        assert out == done + [0] + run;
        if code != 0xFF { continue; }
      }
      out := out[codeIdx := code];
      done := done + ([|run| + 1] + run);
      run := [];
      assert out == done;
      code := 1;
      codeIdx := |out|;
      out := out + [0];
      assert out == done + [0] + run;
    }
    EncodeEnd(done, run);
    assert data[|data|..] == [];
    out := out[codeIdx := code];
  }

  lemma EncodeEnd(done: seq<byte>, run: seq<byte>)
    requires |run| <= 253
    ensures done + EncodeFrom(run, []) == done + [|run| + 1] + run
  {
  }

  /** None stands for the ValueError that the source raises. */
  method DecodePy(data: seq<byte>) returns (r: Option<seq<byte>>)
    ensures r == Decode(data)
  {
    hide Decode;
    var out: seq<byte>, i, n := [], 0, |data|;
    assert data[0..] == data;
    StartDecode(data);
    while i < n
      invariant i <= n && Decode(data) == After(out, Decode(data[i..]))
    {
      var code := data[i];
      DecodeTurn(out, data[i..]);
      if code == 0 { return None; }
      i := i + 1;
      var end := i + code - 1;
      if end > n { return None; }
      assert data[i - 1..][1..code] == data[i..end] && data[i - 1..][code..] == data[end..];
      out := out + data[i..end];
      i := end;
      if code < 0xFF && i < n { out := out + [0]; }
    }
    DecodeNothing();
    assert data[n..] == [] && out + [] == out;
    r := Some(out);
  }

  /** What a decoder returns that has produced `out` and goes on with the rest. */
  function After(out: seq<byte>, rest: Option<seq<byte>>): Option<seq<byte>> {
    match rest case None => None case Some(tail) => Some(out + tail)
  }

  lemma StartDecode(data: seq<byte>)
    ensures Decode(data) == After([], Decode(data))
  {
    hide Decode;
    if Decode(data).Some? { assert [] + Decode(data).value == Decode(data).value; }
  }

  lemma DecodeTurn(out: seq<byte>, body: seq<byte>)
    requires body != []
    ensures var code := body[0];
            if code == 0 || code > |body| then Decode(body) == None
            else After(out, Decode(body)) ==
                   After(if code < 0xFF && code < |body| then out + body[1..code] + [0] else out + body[1..code],
                         Decode(body[code..]))
  {
    var code := body[0];
    if 0 < code <= |body| && Decode(body[code..]).Some? {
      Associate(out, body[1..code], if code < 0xFF && code < |body| then [0] else [], Decode(body[code..]).value);
    }
  }

  lemma Associate(out: seq<byte>, block: seq<byte>, zero: seq<byte>, tail: seq<byte>)
    ensures out + (block + zero + tail) == out + block + zero + tail && out + block + [] == out + block
  {
  }

  // ---------- the bridge ----------

  /** The buffer holds the finished blocks, a place for the code byte, and the
      block being collected. */
  predicate Holding(buf: seq<byte>, done: seq<byte>, run: seq<byte>) {
    && |done| + 1 + |run| <= |buf|
    && buf[..|done|] == done && buf[|done| + 1..|done| + 1 + |run|] == run
  }

  lemma StoreByte(buf: seq<byte>, done: seq<byte>, run: seq<byte>, c: byte)
    requires Holding(buf, done, run) && |done| + 1 + |run| < |buf|
    ensures Holding(buf[|done| + 1 + |run| := c], done, run + [c])
  {
  }

  lemma StoreCode(buf: seq<byte>, done: seq<byte>, run: seq<byte>)
    requires Holding(buf, done, run) && |run| <= 254
    ensures buf[|done| := |run| + 1][..|done| + 1 + |run|] == done + ([|run| + 1] + run)
  {
  }

  lemma CloseBlock(buf: seq<byte>, done: seq<byte>, run: seq<byte>)
    requires Holding(buf, done, run) && |run| <= 254 && |done| + 1 + |run| < |buf|
    ensures Holding(buf[|done| := |run| + 1], done + ([|run| + 1] + run), [])
  {
    StoreCode(buf, done, run);
  }

  lemma EmptyBuffer(buf: seq<byte>)
    requires 0 < |buf|
    ensures Holding(buf, [], [])
  {
  }

  /** One turn of the loop over the data, and the room the buffer needs after it. */
  lemma EncodeAt(done: seq<byte>, run: seq<byte>, data: seq<byte>, i: nat) returns (done': seq<byte>, run': seq<byte>)
    requires |run| <= 253 && i < |data| && done + EncodeFrom(run, data[i..]) == Encode(data)
    ensures |run'| <= 253 && done' + EncodeFrom(run', data[i + 1..]) == Encode(data)
    ensures |done'| + 1 + |run'| <= |Encode(data)|
    ensures var block := if data[i] != 0 then run + [data[i]] else run;
            if data[i] == 0 || |block| == 254 then done' == done + ([|block| + 1] + block) && run' == []
            else done' == done && run' == block
  {
    hide EncodeFrom, Encode;
    EncodeTurn(done, run, data[i..]);
    assert data[i..][0] == data[i] && data[i..][1..] == data[i + 1..];
    var block := if data[i] != 0 then run + [data[i]] else run;
    if data[i] == 0 || |block| == 254 {
      done', run' := done + ([|block| + 1] + block), [];
    } else {
      done', run' := done, block;
    }
    EncodeNonempty(run', data[i + 1..]);
  }

  /** Encodes into a buffer; returns how many bytes were written. */
  method EncodeC(data: seq<byte>, out: array<byte>) returns (len: nat)
    requires out.Length > |data| + 1 + |data| / 254
    modifies out
    ensures len == |Encode(data)| < out.Length && out[..len] == Encode(data)
  {
    hide EncodeFrom, Encode, Holding;
    EncodeShape(data);
    ghost var whole := Encode(data);
    var enc, codeP: nat, code := 1, 0, 1;
    ghost var done: seq<byte>, run: seq<byte> := [], [];
    EncodeStart(data);
    EmptyBuffer(out[..]);
    for i := 0 to |data|
      invariant |run| <= 253 && code == |run| + 1 && codeP == |done| && enc == codeP + code
      invariant enc <= |whole| < out.Length
      invariant Holding(out[..], done, run)
      invariant done + EncodeFrom(run, data[i..]) == whole
    {
      var c := data[i];
      ghost var done', run' := EncodeAt(done, run, data, i);
      if c != 0 {
        StoreByte(out[..], done, run, c);
        out[enc] := c;
        enc, code := enc + 1, code + 1;
        run := run + [c];
      }
      if c == 0 || code == 0xFF {
        CloseBlock(out[..], done, run);
        out[codeP] := code;
        code, codeP, enc := 1, enc, enc + 1;
      }
      done, run := done', run';
    }
    EncodeEnd(done, run);
    StoreCode(out[..], done, run);
    assert data[|data|..] == [];
    out[codeP] := code;
    assert done + [|run| + 1] + run == done + ([|run| + 1] + run);
    len := enc;
  }

  lemma EncodeStart(data: seq<byte>)
    ensures data[0..] == data && [] + EncodeFrom([], data) == Encode(data)
  {
    hide EncodeFrom;
  }

  /** Decodes into a buffer of `cap` bytes; -1 when malformed or too long. */
  method DecodeC(data: seq<byte>, out: array<byte>, cap: nat) returns (len: int)
    requires cap <= out.Length
    modifies out
    ensures var d := Decode(data);
            if d.Some? && |d.value| <= cap then len == |d.value| && out[..len] == d.value else len == -1
  {
    hide Decode;
    var r, w := 0, 0;
    assert data[0..] == data;
    StartDecode(data);
    while r < |data|
      invariant r <= |data| && w <= cap && Decode(data) == After(out[..w], Decode(data[r..]))
      decreases |data| - r
    {
      var code := data[r];
      ghost var before, start := out[..w], r;
      DecodeTurn(before, data[r..]);
      r := r + 1;
      if code == 0 { return -1; }
      for i := 1 to code
        invariant r == start + i <= |data| && w == |before| + i - 1 <= cap
        invariant out[..w] == before + data[start + 1..r]
      {
        if r >= |data| { return -1; }
        if w >= cap { return -1; }
        out[w] := data[r];
        w, r := w + 1, r + 1;
        assert out[..w] == before + data[start + 1..r];
      }
      assert data[start..][1..code] == data[start + 1..r] && data[start..][code..] == data[r..];
      if code < 0xFF && r < |data| {
        if w >= cap { return -1; }
        out[w] := 0;
        w := w + 1;
        assert out[..w] == before + data[start + 1..r] + [0];
      }
    }
    DecodeNothing();
    assert data[|data|..] == [] && out[..w] + [] == out[..w];
    len := w;
  }
}
