/** What clamping clears, bit by bit, and the tag of section 2.5.2 of RFC 8439. */
module PolyVector {
  import opened Bits
  import opened Bytes
  import opened PolySpec

  /** A 128-bit number in 32-bit words. */
  function Join(w0: nat, w1: nat, w2: nat, w3: nat): nat {
    w0 + 0x1_0000_0000 * (w1 + 0x1_0000_0000 * (w2 + 0x1_0000_0000 * w3))
  }

  /** Clamping clears the top four bits of bytes 3, 7, 11 and 15 and the low two
      bits of bytes 4, 8 and 12, and nothing else. */
  lemma ClampClears(w0: u32, w1: u32, w2: u32, w3: u32)
    ensures And(Join(w0, w1, w2, w3), CLAMP)
         == Join(w0 % 0x1000_0000, w1 % 0x1000_0000 / 4 * 4, w2 % 0x1000_0000 / 4 * 4, w3 % 0x1000_0000 / 4 * 4)
  {
    hide And, Pow2;
    var m: nat := 0x0fff_fffc;
    var m2 := m + 0x1_0000_0000 * m;
    var m1 := m + 0x1_0000_0000 * m2;
    var x2: nat, x1: nat := w2 + 0x1_0000_0000 * w3, w1 + 0x1_0000_0000 * (w2 + 0x1_0000_0000 * w3);
    assert CLAMP == 0x0fff_ffff + 0x1_0000_0000 * m1;
    SplitWord(w0, x1, 0x0fff_ffff, m1);
    SplitWord(w1, x2, m, m2);
    SplitWord(w2, w3, m, m);
    LowWord(w0);
    MiddleWord(w1); MiddleWord(w2); MiddleWord(w3);
  }

  lemma SplitWord(low: nat, high: nat, lowMask: nat, highMask: nat)
    requires low < 0x1_0000_0000 && lowMask < 0x1_0000_0000
    ensures And(low + 0x1_0000_0000 * high, lowMask + 0x1_0000_0000 * highMask)
         == And(low, lowMask) + 0x1_0000_0000 * And(high, highMask)
  {
    hide And, Pow2;
    Powers();
    AndSplit(high, low, highMask, lowMask, 32);
  }

  lemma LowWord(w: u32)
    ensures And(w, 0x0fff_ffff) == w % 0x1000_0000
  {
    hide And, Pow2;
    Powers();
    assert Pow2(28) == 0x1000_0000 by { Pow2Add(14, 14); }
    AndLowMask(w, 28);
  }

  lemma MiddleWord(w: u32)
    ensures And(w, 0x0fff_fffc) == w % 0x1000_0000 / 4 * 4
  {
    hide And, Pow2;
    Powers();
    Pow2Two();
    AndSplit(w / 4, w % 4, 0x3ff_ffff, 0, 2);
    AndZero(w % 4);
    AndLowMask(w / 4, 26);
    QuarterWord(w);
  }

  lemma QuarterWord(w: nat)
    ensures w == 4 * (w / 4) + w % 4 && 4 * (w / 4 % 0x400_0000) == w % 0x1000_0000 / 4 * 4
  {
    var high, low := w / 4 / 0x400_0000, w / 4 % 0x400_0000;
    DivModUnique(w, 0x1000_0000, high, 4 * low + w % 4);
    DivModUnique(4 * low + w % 4, 4, low, w % 4);
  }

  lemma Pow2Two()
    ensures Pow2(2) == 4
  {
  }

  // ---------- the test vector ----------

  lemma Word(a: byte, b: byte, c: byte, d: byte)
    ensures LeNat([a, b, c, d]) == a + 0x100 * (b + 0x100 * (c + 0x100 * d))
  {
    hide LeNat;
    assert [a, b, c, d] == [a] + [b, c, d];
    FirstByte(a, [b, c, d]);
    ThreeBytes(b, c, d);
  }

  lemma JoinWords(s0: seq<byte>, s1: seq<byte>, s2: seq<byte>, s3: seq<byte>)
    requires |s0| == |s1| == |s2| == |s3| == 4
    ensures LeNat(s0 + (s1 + (s2 + s3))) == Join(LeNat(s0), LeNat(s1), LeNat(s2), LeNat(s3))
  {
    hide LeNat, Pow256;
    SixteenBytes();
    LeNatConcat(s2, s3);
    LeNatConcat(s1, s2 + s3);
    LeNatConcat(s0, s1 + (s2 + s3));
  }

  lemma MarkedChunk(chunk: seq<byte>)
    requires |chunk| == 16
    ensures LeNat(chunk + [1]) == LeNat(chunk) + TWO_128
  {
    hide LeNat, Pow256;
    SixteenBytes();
    OneByte();
    LeNatConcat(chunk, [1]);
  }

  lemma SixteenBytes()
    ensures Pow256(4) == 0x1_0000_0000 && Pow256(16) == TWO_128
  {
    assert Pow256(4) == 0x1_0000_0000;
    assert Pow256(8) == 0x1_0000_0000 * Pow256(4);
    assert Pow256(12) == 0x1_0000_0000 * Pow256(8);
  }

  lemma OneByte()
    ensures LeNat([1]) == 1
  {
    assert [1 as byte][1..] == [];
  }

  const VECTOR_R: seq<byte> :=
    [0x85, 0xd6, 0xbe, 0x78] + ([0x57, 0x55, 0x6d, 0x33] + ([0x7f, 0x44, 0x52, 0xfe] + [0x42, 0xd5, 0x06, 0xa8]))
  const VECTOR_S: seq<byte> :=
    [0x01, 0x03, 0x80, 0x8a] + ([0xfb, 0x0d, 0xb2, 0xfd] + ([0x4a, 0xbf, 0xf6, 0xaf] + [0x41, 0x49, 0xf5, 0x1b]))

  // "Cryptographic Forum Research Group", in three chunks
  const CHUNK_1: seq<byte> :=
    [0x43, 0x72, 0x79, 0x70] + ([0x74, 0x6f, 0x67, 0x72] + ([0x61, 0x70, 0x68, 0x69] + [0x63, 0x20, 0x46, 0x6f]))
  const CHUNK_2: seq<byte> :=
    [0x72, 0x75, 0x6d, 0x20] + ([0x52, 0x65, 0x73, 0x65] + ([0x61, 0x72, 0x63, 0x68] + [0x20, 0x47, 0x72, 0x6f]))
  const CHUNK_3: seq<byte> := [0x75, 0x70]

  const VECTOR_TAG: seq<byte> :=
    [0xa8, 0x06, 0x1d, 0xc1] + ([0x30, 0x51, 0x36, 0xc6] + ([0xc2, 0x2b, 0x8b, 0xaf] + [0x0c, 0x01, 0x27, 0xa9]))

  lemma KeyNumbers()
    ensures LeNat(VECTOR_R) == 0xa806d542fe52447f336d555778bed685
    ensures LeNat(VECTOR_S) == 0x1bf54941aff6bf4afdb20dfb8a800301
  {
    hide LeNat;
    Word(0x85, 0xd6, 0xbe, 0x78);
    Word(0x57, 0x55, 0x6d, 0x33);
    Word(0x7f, 0x44, 0x52, 0xfe);
    Word(0x42, 0xd5, 0x06, 0xa8);
    JoinWords([0x85, 0xd6, 0xbe, 0x78], [0x57, 0x55, 0x6d, 0x33], [0x7f, 0x44, 0x52, 0xfe], [0x42, 0xd5, 0x06, 0xa8]);
    Word(0x01, 0x03, 0x80, 0x8a);
    Word(0xfb, 0x0d, 0xb2, 0xfd);
    Word(0x4a, 0xbf, 0xf6, 0xaf);
    Word(0x41, 0x49, 0xf5, 0x1b);
    JoinWords([0x01, 0x03, 0x80, 0x8a], [0xfb, 0x0d, 0xb2, 0xfd], [0x4a, 0xbf, 0xf6, 0xaf], [0x41, 0x49, 0xf5, 0x1b]);
  }

  lemma ClampedKey()
    ensures And(0xa806d542fe52447f336d555778bed685, CLAMP) == 0x806d5400e52447c036d555408bed685
  {
    hide And;
    ClampClears(0x78bed685, 0x336d5557, 0xfe52447f, 0xa806d542);
    assert 0x78bed685 % 0x1000_0000 == 0x8bed685;
    assert 0x336d5557 % 0x1000_0000 / 4 * 4 == 0x36d5554;
    assert 0xfe52447f % 0x1000_0000 / 4 * 4 == 0xe52447c;
    assert 0xa806d542 % 0x1000_0000 / 4 * 4 == 0x806d540;
  }

  lemma ChunkNumbers()
    ensures LeNat(CHUNK_1 + [1]) == 0x16f4620636968706172676f7470797243
    ensures LeNat(CHUNK_2 + [1]) == 0x16f7247206863726165736552206d7572
    ensures LeNat(CHUNK_3 + [1]) == 0x17075
  {
    hide LeNat;
    Word(0x43, 0x72, 0x79, 0x70);
    Word(0x74, 0x6f, 0x67, 0x72);
    Word(0x61, 0x70, 0x68, 0x69);
    Word(0x63, 0x20, 0x46, 0x6f);
    JoinWords([0x43, 0x72, 0x79, 0x70], [0x74, 0x6f, 0x67, 0x72], [0x61, 0x70, 0x68, 0x69], [0x63, 0x20, 0x46, 0x6f]);
    Word(0x72, 0x75, 0x6d, 0x20);
    Word(0x52, 0x65, 0x73, 0x65);
    Word(0x61, 0x72, 0x63, 0x68);
    Word(0x20, 0x47, 0x72, 0x6f);
    JoinWords([0x72, 0x75, 0x6d, 0x20], [0x52, 0x65, 0x73, 0x65], [0x61, 0x72, 0x63, 0x68], [0x20, 0x47, 0x72, 0x6f]);
    MarkedChunk(CHUNK_1);
    MarkedChunk(CHUNK_2);
    ThreeBytes(0x75, 0x70, 1);
    assert CHUNK_3 + [1] == [0x75, 0x70, 1];
  }

  lemma FirstByte(a: byte, rest: seq<byte>)
    ensures LeNat([a] + rest) == a + 0x100 * LeNat(rest)
  {
    assert ([a] + rest)[1..] == rest;
  }

  lemma NoBytes()
    ensures LeNat([]) == 0
  {
  }

  lemma ThreeBytes(a: byte, b: byte, c: byte)
    ensures LeNat([a, b, c]) == a + 0x100 * (b + 0x100 * c)
  {
    hide LeNat;
    assert [a, b, c] == [a] + ([b] + ([c] + []));
    FirstByte(a, [b] + ([c] + []));
    FirstByte(b, [c] + []);
    FirstByte(c, []);
    NoBytes();
  }

  lemma AbsorbChunks()
    ensures Absorb(0x806d5400e52447c036d555408bed685, 0, CHUNK_1) == 0x2c88c77849d64ae9147ddeb88e69c83fc
    ensures Absorb(0x806d5400e52447c036d555408bed685, 0x2c88c77849d64ae9147ddeb88e69c83fc, CHUNK_2)
         == 0x2d8adaf23b0337fa7cccfb4ea344b30de
    ensures Absorb(0x806d5400e52447c036d555408bed685, 0x2d8adaf23b0337fa7cccfb4ea344b30de, CHUNK_3)
         == 0x28d31b7caff946c77c8844335369d03a7
  {
    hide LeNat;
    ChunkNumbers();
  }

  lemma TagNumber()
    ensures LeBytes(0xa927010caf8b2bc2c6365130c11d06a8, 16) == VECTOR_TAG
  {
    hide LeNat, LeBytes;
    Word(0xa8, 0x06, 0x1d, 0xc1);
    Word(0x30, 0x51, 0x36, 0xc6);
    Word(0xc2, 0x2b, 0x8b, 0xaf);
    Word(0x0c, 0x01, 0x27, 0xa9);
    JoinWords([0xa8, 0x06, 0x1d, 0xc1], [0x30, 0x51, 0x36, 0xc6], [0xc2, 0x2b, 0x8b, 0xaf], [0x0c, 0x01, 0x27, 0xa9]);
    LeBytesOfNat(VECTOR_TAG);
  }

  lemma ThreeChunks(r: nat)
    ensures Accumulate(r, 0, CHUNK_1 + CHUNK_2 + CHUNK_3) == Absorb(r, Absorb(r, Absorb(r, 0, CHUNK_1), CHUNK_2), CHUNK_3)
  {
    hide Absorb;
    AccumulateConcat(r, 0, CHUNK_1 + CHUNK_2, CHUNK_3);
    AccumulateConcat(r, 0, CHUNK_1, CHUNK_2);
    OneChunk(r, 0, CHUNK_1);
    OneChunk(r, Absorb(r, 0, CHUNK_1), CHUNK_2);
    OneChunk(r, Absorb(r, Absorb(r, 0, CHUNK_1), CHUNK_2), CHUNK_3);
  }

  lemma OneChunk(r: nat, acc: nat, chunk: seq<byte>)
    requires 0 < |chunk| <= 16
    ensures Accumulate(r, acc, chunk) == Absorb(r, acc, chunk)
  {
    hide Absorb;
    assert chunk[|chunk|..] == [];
  }

  /** The definition yields the published tag. */
  lemma Rfc8439Vector()
    ensures Tag(VECTOR_R + VECTOR_S, CHUNK_1 + CHUNK_2 + CHUNK_3) == VECTOR_TAG
  {
    hide LeNat, And, Absorb, Accumulate, LeBytes;
    var key: OneTimeKey := VECTOR_R + VECTOR_S;
    assert key[..16] == VECTOR_R && key[16..] == VECTOR_S;
    KeyNumbers();
    ClampedKey();
    ThreeChunks(0x806d5400e52447c036d555408bed685);
    AbsorbChunks();
    TagNumber();
  }
}
