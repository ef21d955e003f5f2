/** Decoding undoes encoding, encoded files are short, and no longer link was available. */
module Yay0Proofs {
  import opened MachineInts
  import opened Yay0Format

  // ----- the mask -----

  lemma OrBitMeaning(b: uint8, k: nat, j: nat, bit: bool)
    requires k < 8 && j < 8
    ensures Bit(OrBit(b, k, bit), j) == (Bit(b, j) || (bit && j == k))
  {
    if bit && !Bit(b, k) {
      WeightFits(b, k);
      AddWeight(b, k, j);
    }
  }

  lemma ShiftedAdd(b: uint8, k: nat)
    requires 0 < k < 8 && b + Weight(k) < 256 && Shifted(b) + Weight(k - 1) < 256
    ensures Shifted(b + Weight(k)) == Shifted(b) + Weight(k - 1)
  {
  }

  lemma TopBit(b: uint8)
    ensures Bit(b, 0) == (b >= 128)
  {
  }

  lemma NextBit(b: uint8, j: nat)
    requires j > 0
    ensures Bit(b, j) == Bit(Shifted(b), j - 1)
  {
  }

  lemma ShiftedTop(b: uint8)
    requires b < 128
    ensures Shifted(b + 128) == Shifted(b)
  {
  }

  /** Adding the weight of a clear bit sets that bit and no other. */
  lemma {:induction false} AddWeight(b: uint8, k: nat, j: nat)
    requires k < 8 && j < 8 && !Bit(b, k) && b + Weight(k) < 256
    ensures Bit(b + Weight(k), j) == (Bit(b, j) || j == k)
    decreases k
  {
    hide Shifted, Bit, Weight;
    WeightFits(b, k);
    TopBit(b);
    TopBit(b + Weight(k));
    if j > 0 {
      NextBit(b, j);
      NextBit(b + Weight(k), j);
      if k > 0 {
        NextBit(b, k);
        WeightFits(Shifted(b), k - 1);
        ShiftedAdd(b, k);
        AddWeight(Shifted(b), k - 1, j - 1);
      } else {
        ShiftedTop(b);
      }
    }
  }

  lemma ZeroBits(k: nat)
    ensures !Bit(0, k)
  {
    if k > 0 {
      ZeroBits(k - 1);
    }
  }

  lemma {:induction false} PackHolds(bits: seq<bool>)
    ensures Holds(Pack(bits), bits)
  {
    hide Pushed;
    if bits != [] {
      var n := |bits| - 1;
      PackHolds(bits[..n]);
      HoldsOneMore(Pack(bits[..n]), bits[..n], bits[n]);
      assert bits[..n] + [bits[n]] == bits;
    }
  }

  lemma HoldsOneMore(data: seq<uint8>, bits: seq<bool>, bit: bool)
    requires Holds(data, bits)
    ensures Holds(Pushed(data, |bits|, bit), bits + [bit])
  {
    hide Bit, OrBit, Weight;
    var n := |bits|;
    var grown := if n % 8 == 0 then data + [0] else data;
    var after := Pushed(data, n, bit);
    var last := |grown| - 1;
    assert last == n / 8;
    forall m: nat | m < 8 * |after| ensures MaskBit(after, m) == (if m < n then bits[m] else m == n && bit) {
      if m / 8 == last {
        if n % 8 == 0 {
          ZeroBits(m % 8);
        } else {
          assert MaskBit(data, m) == Bit(grown[last], m % 8);
        }
        OrBitMeaning(grown[last], n % 8, m % 8, bit);
      } else {
        assert MaskBit(data, m) == Bit(after[m / 8], m % 8);
      }
    }
  }

  // ----- a file and what is stored in it -----

  predicate At(s: seq<uint8>, i: nat, part: seq<uint8>) {
    i + |part| <= |s| && s[i..i + |part|] == part
  }

  lemma AtSplit(s: seq<uint8>, i: nat, a: seq<uint8>, b: seq<uint8>)
    requires At(s, i, a + b)
    ensures At(s, i, a) && At(s, i + |a|, b)
  {
    assert s[i..i + |a|] == s[i..i + |a + b|][..|a|];
    assert s[i + |a|..i + |a| + |b|] == s[i..i + |a + b|][|a|..];
  }

  predicate KindAt(s: seq<uint8>, n: nat, t: Token) {
    (128 + n) / 8 < |s| && MaskBit(s, 128 + n) == t.Chunk?
  }

  /** The mask bits from number n on are the kinds of the tokens. */
  ghost predicate KindsAt(s: seq<uint8>, n: nat, ts: seq<Token>) {
    forall i | 0 <= i < |ts| :: KindAt(s, n + i, ts[i])
  }

  lemma KindsRest(s: seq<uint8>, n: nat, ts: seq<Token>)
    requires ts != [] && KindsAt(s, n, ts)
    ensures KindsAt(s, n + 1, ts[1..]) && KindAt(s, n, ts[0])
  {
    hide KindAt;
    assert KindAt(s, n + 0, ts[0]);
    forall i | 0 <= i < |ts[1..]| ensures KindAt(s, n + 1 + i, ts[1..][i]) {
      assert KindAt(s, n + (1 + i), ts[1 + i]);
    }
  }

  /** The tokens are what the decoder will read at cursor c. */
  ghost predicate Stored(s: seq<uint8>, c: Cursor, ts: seq<Token>) {
    && KindsAt(s, c.bit, ts)
    && At(s, c.link, Links(ts)) && c.link + |Links(ts)| <= TWO32
    && At(s, c.chunk, Chunks(ts)) && c.chunk + |Chunks(ts)| <= TWO32
  }

  /** The cursor behind a token. */
  function Behind(c: Cursor, t: Token): Cursor {
    Cursor(c.bit + 1, (c.link + |LinkBytes(t)|) % TWO32, (c.chunk + |ChunkBytes(t)|) % TWO32)
  }

  lemma StoredRest(s: seq<uint8>, c: Cursor, ts: seq<Token>)
    requires ts != [] && Stored(s, c, ts)
    ensures Stored(s, Behind(c, ts[0]), ts[1..])
    ensures At(s, c.link, LinkBytes(ts[0])) && At(s, c.chunk, ChunkBytes(ts[0])) && KindAt(s, c.bit, ts[0])
  {
    hide KindsAt, KindAt, LinkBytes, ChunkBytes, At, Links, Chunks;
    StreamsSplit(ts);
    AtSplit(s, c.link, LinkBytes(ts[0]), Links(ts[1..]));
    AtSplit(s, c.chunk, ChunkBytes(ts[0]), Chunks(ts[1..]));
    KindsRest(s, c.bit, ts);
    Wrapped(s, c.link + |LinkBytes(ts[0])|, Links(ts[1..]));
    Wrapped(s, c.chunk + |ChunkBytes(ts[0])|, Chunks(ts[1..]));
  }

  lemma StreamsSplit(ts: seq<Token>)
    requires ts != []
    ensures Links(ts) == LinkBytes(ts[0]) + Links(ts[1..]) && Chunks(ts) == ChunkBytes(ts[0]) + Chunks(ts[1..])
  {
  }

  /** An offset wraps to zero only when nothing is left to read. */
  lemma Wrapped(s: seq<uint8>, i: nat, part: seq<uint8>)
    requires At(s, i, part) && i + |part| <= TWO32
    ensures At(s, i % TWO32, part) && i % TWO32 + |part| <= TWO32
  {
    if i == TWO32 {
      assert part == [];
    }
  }

  // ----- one token -----

  /** Replaying a match extends the bytes decoded so far. */
  lemma {:induction false} ReplayMatch(x: seq<uint8>, pos: nat, offset: nat, count: nat)
    requires Match(x, pos, offset, count)
    ensures Replay(x[..pos], offset, count) == x[..pos + count]
    decreases count
  {
    if count > 0 {
      assert x[..pos] + [x[..pos][pos - offset]] == x[..pos + 1];
      ReplayMatch(x, pos + 1, offset, count - 1);
    }
  }

  lemma Link16(s: seq<uint8>, at: nat, v: nat)
    requires At(s, at, Be16(v)) && v < 0x1_0000
    ensures Read16(s, at) == v
  {
    assert s[at] == s[at..at + 2][0] && s[at + 1] == s[at..at + 2][1];
  }

  lemma LinkFields(header: nat, low: nat)
    requires header < 16 && low < 0x1000
    ensures (header * 0x1000 + low) / 0x1000 == header && (header * 0x1000 + low) % 0x1000 == low
    ensures header * 0x1000 + low < 0x1_0000
  {
  }

  lemma HeaderMeans(count: nat)
    requires 3 <= count <= MAX_LINK_LEN
    ensures LinkHeader(count) == if count >= 18 then 0 else count - 2
    ensures LinkHeader(count) < 16
  {
  }

  lemma StepLinkToken(s: seq<uint8>, c: Cursor, x: seq<uint8>, pos: nat, t: Token)
    requires t.Link? && Encodable(t) && pos <= |x| && Match(x, pos, t.offset, t.count)
    requires At(s, c.link, LinkBytes(t)) && At(s, c.chunk, ChunkBytes(t))
    requires c.chunk + |ChunkBytes(t)| <= TWO32 && c.chunk < TWO32
    requires KindAt(s, c.bit, t)
    ensures Step(s, c, x[..pos]) == (Ok(x[..pos + t.count]), Behind(c, t))
  {
    hide MaskBit, Match, Replay, Read16, Be16, LinkHeader;
    HeaderMeans(t.count);
    LinkFields(LinkHeader(t.count), t.offset - 1);
    Link16(s, c.link, LinkHeader(t.count) * 0x1000 + (t.offset - 1));
    MatchOffset(x, pos, t.offset, t.count);
    ReplayMatch(x, pos, t.offset, t.count);
    if t.count >= 18 {
      assert s[c.chunk] == s[c.chunk..c.chunk + 1][0];
    }
  }

  lemma MatchOffset(x: seq<uint8>, pos: nat, offset: nat, count: nat)
    requires Match(x, pos, offset, count)
    ensures 1 <= offset <= pos
  {
  }

  lemma StepToken(s: seq<uint8>, c: Cursor, x: seq<uint8>, pos: nat)
    requires pos < |x| && c.chunk < TWO32 && c.chunk + |ChunkBytes(NextToken(x, pos))| <= TWO32
    requires At(s, c.link, LinkBytes(NextToken(x, pos))) && At(s, c.chunk, ChunkBytes(NextToken(x, pos)))
    requires KindAt(s, c.bit, NextToken(x, pos)) && c.link < TWO32
    ensures Step(s, c, x[..pos]) == (Ok(x[..pos + Span(NextToken(x, pos))]), Behind(c, NextToken(x, pos)))
  {
    hide MaskBit, NextToken, Match;
    var t := NextToken(x, pos);
    if t.Link? {
      StepLinkToken(s, c, x, pos, t);
    } else {
      assert s[c.chunk] == s[c.chunk..c.chunk + 1][0];
      assert x[..pos] + [x[pos]] == x[..pos + 1];
    }
  }

  // ----- a whole file -----

  lemma {:induction false} UnpackTokens(s: seq<uint8>, c: Cursor, x: seq<uint8>, pos: nat)
    requires pos <= |x| && Stored(s, c, Tokens(x, pos)) && c.link < TWO32 && c.chunk < TWO32
    ensures Unpack(s, c, x[..pos], |x|) == Ok(x)
    decreases |x| - pos
  {
    hide Stored, NextToken, Step, Links, Chunks;
    if pos == |x| {
      assert x[..pos] == x;
    } else {
      var t := NextToken(x, pos);
      TokensFirst(x, pos);
      StoredRest(s, c, Tokens(x, pos));
      StoredFits(s, c, Tokens(x, pos));
      StepToken(s, c, x, pos);
      UnpackTokens(s, Behind(c, t), x, pos + Span(t));
    }
  }

  lemma TokensFirst(x: seq<uint8>, pos: nat)
    requires pos < |x|
    ensures Tokens(x, pos) != [] && Tokens(x, pos)[0] == NextToken(x, pos)
    ensures Tokens(x, pos)[1..] == Tokens(x, pos + Span(NextToken(x, pos)))
  {
    hide NextToken;
  }

  lemma StoredFits(s: seq<uint8>, c: Cursor, ts: seq<Token>)
    requires ts != [] && Stored(s, c, ts)
    ensures c.chunk + |ChunkBytes(ts[0])| <= TWO32
  {
  }

  /** The parts of a container lie where its header says. */
  lemma ContainerParts(size: nat, masks: seq<uint8>, links: seq<uint8>, chunks: seq<uint8>)
    ensures var s := Container(size, masks, links, chunks);
      && |s| == 16 + |masks| + |links| + |chunks|
      && At(s, 0, [0x59, 0x61, 0x79, 0x30]) && At(s, 4, Be32(size)) && At(s, 8, Be32(16 + |masks|))
      && At(s, 12, Be32(16 + |masks| + |links|))
      && At(s, 16, masks) && At(s, 16 + |masks|, links) && At(s, 16 + |masks| + |links|, chunks)
  {
    hide Be32;
    var s := Container(size, masks, links, chunks);
    assert s[0..4] == [0x59, 0x61, 0x79, 0x30];
    assert s[4..8] == Be32(size);
    assert s[8..12] == Be32(16 + |masks|);
    assert s[12..16] == Be32(16 + |masks| + |links|);
    assert s[16..16 + |masks|] == masks;
    assert s[16 + |masks|..16 + |masks| + |links|] == links;
    assert s[16 + |masks| + |links|..] == chunks;
  }

  lemma ReadBack32(s: seq<uint8>, at: nat, v: nat)
    requires At(s, at, Be32(v))
    ensures Read32(s, at) == v % TWO32
  {
    var p := s[at..at + 4];
    assert s[at] == p[0] && s[at + 1] == p[1] && s[at + 2] == p[2] && s[at + 3] == p[3];
    BytesOf32(v);
  }

  lemma BytesOf16(v: nat)
    ensures 0x100 * (v / 0x100 % 0x100) + v % 0x100 == v % 0x1_0000
  {
    var a, r := v / 0x1_0000, v % 0x1_0000;
    assert v / 0x100 == 0x100 * a + r / 0x100;
    assert v / 0x100 % 0x100 == r / 0x100;
    assert v % 0x100 == r % 0x100;
  }

  lemma BytesOf32(v: nat)
    ensures 0x1_0000 * (0x100 * (v / 0x1_0000 / 0x100 % 0x100) + v / 0x1_0000 % 0x100)
      + (0x100 * (v / 0x100 % 0x100) + v % 0x100) == v % TWO32
  {
    BytesOf16(v / 0x1_0000);
    BytesOf16(v);
    WordsOf32(v);
  }

  lemma WordsOf32(v: nat)
    ensures 0x1_0000 * (v / 0x1_0000 % 0x1_0000) + v % 0x1_0000 == v % TWO32
  {
  }

  lemma MagicOk(s: seq<uint8>)
    requires At(s, 0, [0x59, 0x61, 0x79, 0x30])
    ensures Magic(s, 0) == Ok([])
  {
    var p := s[0..4];
    assert s[0] == p[0] && s[1] == p[1] && s[2] == p[2] && s[3] == p[3];
    assert Magic(s, 4) == Magic(s, 3) == Magic(s, 2) == Magic(s, 1);
  }

  /** The mask of a container gives the kinds of its tokens. */
  lemma StoredMask(s: seq<uint8>, masks: seq<uint8>, ts: seq<Token>, i: nat)
    requires At(s, 16, masks) && Holds(masks, Kinds(ts)) && i < |ts|
    ensures KindAt(s, i, ts[i])
  {
    hide Bit;
    assert MaskBit(masks, i) == Kinds(ts)[i];
    assert (128 + i) / 8 == 16 + i / 8 && (128 + i) % 8 == i % 8;
    assert s[16 + i / 8] == s[16..16 + |masks|][i / 8];
  }

  /** The last byte is never covered by a link. */
  lemma {:induction false} EndsInChunk(x: seq<uint8>, pos: nat)
    requires pos < |x|
    ensures var ts := Tokens(x, pos); ts != [] && ts[|ts| - 1] == Chunk(x[|x| - 1])
    decreases |x| - pos
  {
    hide NextToken, Linkable, Tokens;
    var t := NextToken(x, pos);
    var rest := Tokens(x, pos + Span(t));
    TokensFirst(x, pos);
    LinkLeavesByte(x, pos, t);
    if pos + Span(t) < |x| {
      EndsInChunk(x, pos + Span(t));
      var ts := Tokens(x, pos);
      assert rest[|rest| - 1] == ts[|ts| - 1];
    } else {
      NoTokensLeft(x);
    }
  }

  lemma {:induction false} LastChunk(ts: seq<Token>)
    requires ts != [] && ts[|ts| - 1].Chunk?
    ensures Chunks(ts) != []
  {
    if |ts| > 1 {
      LastChunk(ts[1..]);
    }
  }

  lemma NoTokensLeft(x: seq<uint8>)
    ensures Tokens(x, |x|) == []
  {
  }

  lemma LinkLeavesByte(x: seq<uint8>, pos: nat, t: Token)
    requires t.Link? ==> Linkable(x, pos, t.offset, t.count)
    ensures t.Link? ==> pos + t.count < |x|
  {
  }

  lemma StoredInContainer(x: seq<uint8>)
    requires |Compress(x)| <= TWO32
    ensures var ts := Tokens(x, 0); var m := |Pack(Kinds(ts))|;
      && Stored(Compress(x), Cursor(0, 16 + m, 16 + m + |Links(ts)|), ts)
      && 16 + m + |Links(ts)| < TWO32
  {
    hide Pack, Kinds, Links, Chunks, Holds, KindAt, At, Container, Tokens;
    var ts := Tokens(x, 0);
    var masks := Pack(Kinds(ts));
    PackHolds(Kinds(ts));
    ContainerParts(|x|, masks, Links(ts), Chunks(ts));
    var s := Compress(x);
    forall i | 0 <= i < |ts| ensures KindAt(s, 0 + i, ts[i]) {
      StoredMask(s, masks, ts, i);
    }
    if x != [] {
      EndsInChunk(x, 0);
      LastChunk(ts);
    } else {
      NoTokens();
    }
  }

  lemma NoTokens()
    ensures Tokens([], 0) == [] && Links([]) == [] && Chunks([]) == [] && Pack(Kinds([])) == []
  {
  }

  lemma DecompressContainer(x: seq<uint8>)
    ensures var ts := Tokens(x, 0); var m := |Pack(Kinds(ts))|;
      Decompress(Compress(x))
      == Unpack(Compress(x), Cursor(0, (16 + m) % TWO32, (16 + m + |Links(ts)|) % TWO32), [], |x| % TWO32)
  {
    hide Pack, Kinds, Links, Chunks, Tokens, Container, Unpack, Magic, Be32, Read32, At;
    var ts := Tokens(x, 0);
    var masks := Pack(Kinds(ts));
    ContainerParts(|x|, masks, Links(ts), Chunks(ts));
    var s := Compress(x);
    MagicOk(s);
    ReadBack32(s, 4, |x|);
    ReadBack32(s, 8, 16 + |masks|);
    ReadBack32(s, 12, 16 + |masks| + |Links(ts)|);
  }

  /** Decoding returns the original bytes, provided the length and all offsets have 32 bits to live in. */
  lemma RoundTrip(x: seq<uint8>)
    requires |x| < TWO32 && |Compress(x)| <= TWO32
    ensures Decompress(Compress(x)) == Ok(x)
  {
    hide Decompress, Compress, Unpack, Stored, Pack, Kinds, Links, Chunks, Tokens;
    DecompressContainer(x);
    StoredInContainer(x);
    var ts := Tokens(x, 0);
    var m := |Pack(Kinds(ts))|;
    assert x[..0] == [];
    UnpackTokens(Compress(x), Cursor(0, 16 + m, 16 + m + |Links(ts)|), x, 0);
  }

  /** A longer input never comes back: the header keeps its length modulo 2^32 only. */
  lemma TooLong(x: seq<uint8>)
    requires |x| >= TWO32
    ensures Decompress(Compress(x)) != Ok(x)
  {
    hide Decompress, Compress, Pack, Kinds, Links, Tokens;
    DecompressContainer(x);
  }

  // ----- how long an encoded file is -----

  lemma {:induction false} StreamsShort(x: seq<uint8>, pos: nat)
    requires pos <= |x|
    ensures var ts := Tokens(x, pos); |ts| <= |x| - pos && |Links(ts)| + |Chunks(ts)| <= |x| - pos
    decreases |x| - pos
  {
    hide NextToken, Linkable, Tokens;
    if pos < |x| {
      var t := NextToken(x, pos);
      TokensFirst(x, pos);
      StreamsShort(x, pos + Span(t));
    } else {
      NoTokensLeft(x);
    }
  }

  /** Encoding adds at most the header and one bit for every byte. */
  lemma Short(x: seq<uint8>)
    ensures |Compress(x)| <= 16 + |x| + (|x| + 7) / 8
  {
    hide Pack, Kinds, Links, Chunks, Tokens, Container;
    var ts := Tokens(x, 0);
    StreamsShort(x, 0);
    PackHolds(Kinds(ts));
    ContainerParts(|x|, Pack(Kinds(ts)), Links(ts), Chunks(ts));
  }

  // ----- the links are the longest there are -----

  /** A run is not shorter than any match, unless counting stopped one byte too far. */
  lemma {:induction false} RunLongest(x: seq<uint8>, pos: nat, offset: nat, count: nat, n: nat)
    requires Match(x, pos, offset, count) && pos + count < |x| && count <= MAX_LINK_LEN
    requires Linkable(x, pos, offset, n)
    ensures var r := Run(x, pos, offset, count); n <= r && (Capped(x, pos, r) && r > count ==> n <= r - 1)
    decreases |x| - count
  {
    if n > count {
      assert x[pos + count - offset] == x[pos + count];
    }
    if x[pos - offset + count] == x[pos + count] && count + 1 <= MAX_LINK_LEN && pos + count + 1 < |x| {
      RunLongest(x, pos, offset, count + 1, n);
    }
  }

  /** No offset from here on offers a longer link than the one found, nor did the best so far. */
  lemma {:induction false} SearchLongest(x: seq<uint8>, pos: nat, offset: nat, best: Token, o: nat, n: nat)
    requires pos < |x| && 1 <= offset
    requires best.Link? && (best.count > 0 ==> Linkable(x, pos, best.offset, best.count))
    requires Linkable(x, pos, o, n) && (offset <= o || n <= best.count)
    ensures n <= Search(x, pos, offset, best).count && best.count <= Search(x, pos, offset, best).count
    decreases WINDOW + 1 - offset
  {
    hide Run;
    if offset <= WINDOW && offset <= pos {
      var r := Run(x, pos, offset, 0);
      if o == offset {
        RunLongest(x, pos, offset, 0, n);
      }
      if Capped(x, pos, r) {
        CappedLongest(x, pos, best, o, n, r);
      } else {
        SearchLongest(x, pos, offset + 1, if r > best.count then Link(r, offset) else best, o, n);
      }
    }
  }

  /** A capped link is as long as a link can be. */
  lemma CappedLongest(x: seq<uint8>, pos: nat, best: Token, o: nat, n: nat, r: nat)
    requires Capped(x, pos, r) && pos + r <= |x| && r <= MAX_LINK_LEN + 1
    requires best.Link? && (best.count > 0 ==> Linkable(x, pos, best.offset, best.count))
    requires Linkable(x, pos, o, n)
    ensures n <= r - 1 && best.count <= r - 1
  {
  }

  /** The encoder emits the longest link that the window and the format allow, and a literal
      byte only when every match is shorter than three bytes. */
  lemma Longest(x: seq<uint8>, pos: nat, o: nat, n: nat)
    requires pos < |x| && Linkable(x, pos, o, n)
    ensures var t := NextToken(x, pos); if t.Link? then n <= t.count else n < 3
  {
    hide Search, Run;
    SearchLongest(x, pos, 1, Link(0, 0), o, n);
  }

  /** A bound on the input alone that makes every offset fit. */
  lemma RoundTripBySize(x: seq<uint8>)
    requires 16 + |x| + (|x| + 7) / 8 <= TWO32
    ensures Decompress(Compress(x)) == Ok(x)
  {
    hide Decompress, Compress;
    Short(x);
    RoundTrip(x);
  }
}
