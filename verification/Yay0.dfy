/** The Yay0 compressor and decompressor. */
module Yay0 {
  import opened MachineInts
  import opened Yay0Format
  import opened Yay0Proofs

  /** Collects bits, most significant bit of a byte first. */
  class MaskWriter {
    var data: seq<uint8>
    var nextOffset: int
    ghost var bits: seq<bool>

    ghost predicate Valid()
      reads this
    {
      && data == Pack(bits)
      && nextOffset == (if |bits| % 8 == 0 then -1 else 7 - |bits| % 8)
    }

    constructor ()
      ensures Valid() && bits == []
    {
      data, nextOffset, bits := [], -1, [];
    }

    method PushBack(bit: bool)
      requires Valid()
      modifies this
      ensures Valid() && bits == old(bits) + [bit]
    {
      hide Pack, OrBit;
      PackGrows(bits, bit);
      if nextOffset < 0 {
        data := data + [0];
        nextOffset := 7;
      }
      data := data[|data| - 1 := OrBit(data[|data| - 1], 7 - nextOffset, bit)];
      nextOffset := nextOffset - 1;
      bits := bits + [bit];
    }
  }

  lemma PackGrows(bits: seq<bool>, bit: bool)
    ensures Pack(bits + [bit]) == Pushed(Pack(bits), |bits|, bit)
    ensures |Pack(bits)| == (|bits| + 7) / 8
  {
    hide Pushed;
    assert (bits + [bit])[..|bits|] == bits;
    PackHolds(bits);
  }

  /** Hands out the bits of a byte string from some byte on. */
  class MaskReader {
    const input: seq<uint8>
    const start: nat
    var offset: nat
    var nextBit: nat
    ghost var taken: nat

    ghost predicate Valid()
      reads this
    {
      0 <= nextBit <= 8 && start <= offset && taken == 8 * (offset - start) + nextBit
    }

    constructor (input: seq<uint8>, start: nat)
      ensures Valid() && this.input == input && this.start == start && taken == 0
    {
      this.input, this.start, offset, nextBit, taken := input, start, start, 0, 0;
    }

    /** The next bit; fails when its byte lies outside the input. */
    method PopFront() returns (ok: bool, bit: bool)
      requires Valid()
      modifies this
      ensures Valid()
      ensures ok == (start + old(taken) / 8 < |input|)
      ensures ok ==> taken == old(taken) + 1 && bit == MaskBit(input, 8 * start + old(taken))
    {
      hide Bit;
      if nextBit == 8 {
        nextBit := 0;
        offset := offset + 1;
      }
      ok := offset < |input|;
      bit := false;
      if ok {
        bit := Bit(input[offset], nextBit);
        nextBit := nextBit + 1;
        taken := taken + 1;
      }
    }
  }

  // ----- compression -----

  /** Counts how many bytes at pos repeat those offset back. */
  method CountRun(x: seq<uint8>, pos: nat, offset: nat) returns (count: nat, maxReached: bool)
    requires 1 <= offset <= pos < |x|
    ensures count == Run(x, pos, offset, 0) && maxReached == Capped(x, pos, count)
  {
    count, maxReached := 0, false;
    while x[pos - offset + count] == x[pos + count]
      invariant Match(x, pos, offset, count) && pos + count < |x| && count <= MAX_LINK_LEN
      invariant Run(x, pos, offset, count) == Run(x, pos, offset, 0)
      decreases |x| - count
    {
      count := count + 1;
      if count > MAX_LINK_LEN || pos + count >= |x| {
        maxReached := true;
        break;
      }
    }
  }

  lemma SearchStep(x: seq<uint8>, pos: nat, offset: nat, best: Token)
    requires pos < |x| && 1 <= offset <= WINDOW && offset <= pos
    requires best.Link? && (best.count > 0 ==> Linkable(x, pos, best.offset, best.count))
    ensures var n := Run(x, pos, offset, 0);
      var better := if n > best.count then Link(n, offset) else best;
      if Capped(x, pos, n) then n > 0 && Search(x, pos, offset, best) == Link(n - 1, offset)
      else
        && (better.count > 0 ==> Linkable(x, pos, better.offset, better.count))
        && Search(x, pos, offset, best) == Search(x, pos, offset + 1, better)
  {
    hide Run;
  }

  lemma SearchEnd(x: seq<uint8>, pos: nat, offset: nat, best: Token)
    requires pos < |x| && 1 <= offset && (offset > WINDOW || offset > pos)
    requires best.Link? && (best.count > 0 ==> Linkable(x, pos, best.offset, best.count))
    ensures Search(x, pos, offset, best) == best
  {
  }

  /** Searches the window for the longest link. */
  method FindLink(x: seq<uint8>, pos: nat) returns (linkCount: nat, linkOffset: nat)
    requires pos < |x|
    ensures Link(linkCount, linkOffset) == Search(x, pos, 1, Link(0, 0))
  {
    hide Run, Search, Linkable, Capped;
    linkCount, linkOffset := 0, 0;
    var offset := 1;
    while offset <= WINDOW && offset <= pos
      invariant offset >= 1 && (linkCount > 0 ==> Linkable(x, pos, linkOffset, linkCount))
      invariant Search(x, pos, offset, Link(linkCount, linkOffset)) == Search(x, pos, 1, Link(0, 0))
      decreases WINDOW + 1 - offset
    {
      var count, maxReached := CountRun(x, pos, offset);
      SearchStep(x, pos, offset, Link(linkCount, linkOffset));
      if maxReached {
        linkCount, linkOffset := count - 1, offset;
        break;
      }
      if count > linkCount {
        linkCount, linkOffset := count, offset;
      }
      offset := offset + 1;
    }
    if offset > WINDOW || offset > pos {
      SearchEnd(x, pos, offset, Link(linkCount, linkOffset));
    }
  }

  /** What has been written for the bytes before pos, continued by the tokens from pos on, is
      what the whole input is encoded to. */
  ghost predicate Written(x: seq<uint8>, pos: nat, bits: seq<bool>, links: seq<uint8>, chunks: seq<uint8>) {
    && pos <= |x|
    && bits + Kinds(Tokens(x, pos)) == Kinds(Tokens(x, 0))
    && links + Links(Tokens(x, pos)) == Links(Tokens(x, 0))
    && chunks + Chunks(Tokens(x, pos)) == Chunks(Tokens(x, 0))
  }

  method CompressFile(x: seq<uint8>) returns (file: seq<uint8>)
    ensures file == Compress(x)
  {
    hide Written, Compress, Pack, Kinds, Links, Chunks, Tokens, Be32;
    var pos := 0;
    var masks := new MaskWriter();
    var links: seq<uint8> := [];
    var chunks: seq<uint8> := [];
    NothingWritten(x);
    while pos < |x|
      invariant pos <= |x| && masks.Valid() && fresh(masks)
      invariant Written(x, pos, masks.bits, links, chunks)
      decreases |x| - pos
    {
      pos, links, chunks := WriteToken(x, pos, masks, links, chunks);
    }
    AllWritten(x, masks.bits, links, chunks);
    file := [0x59, 0x61, 0x79, 0x30] + Be32(|x|) + Be32(16 + |masks.data|) + Be32(16 + |masks.data| + |links|);
    file := file + masks.data + links + chunks;
  }

  /** Writes one link or one literal byte. */
  method WriteToken(x: seq<uint8>, pos: nat, masks: MaskWriter, links: seq<uint8>, chunks: seq<uint8>)
    returns (pos': nat, links': seq<uint8>, chunks': seq<uint8>)
    requires pos < |x| && masks.Valid() && Written(x, pos, masks.bits, links, chunks)
    modifies masks
    ensures masks.Valid() && pos < pos' <= |x| && Written(x, pos', masks.bits, links', chunks')
  {
    hide Written, Kinds, Links, Chunks, Tokens, Search, Be16;
    var linkCount, linkOffset := FindLink(x, pos);
    WrittenFirst(x, pos, masks.bits, links, chunks);
    assert links + [] == links && chunks + [] == chunks;
    links', chunks' := links, chunks;
    if linkCount >= 3 {
      var header := 0;
      if linkCount >= 18 {
        chunks' := chunks + [linkCount - 18];
      } else {
        header := linkCount - 2;
      }
      links' := links + Be16(header * 0x1000 + (linkOffset - 1));
      masks.PushBack(false);
      pos' := pos + linkCount;
    } else {
      chunks' := chunks + [x[pos]];
      masks.PushBack(true);
      pos' := pos + 1;
    }
  }

  lemma NothingWritten(x: seq<uint8>)
    ensures Written(x, 0, [], [], [])
  {
  }

  lemma AllWritten(x: seq<uint8>, bits: seq<bool>, links: seq<uint8>, chunks: seq<uint8>)
    requires Written(x, |x|, bits, links, chunks)
    ensures Compress(x) == Container(|x|, Pack(bits), links, chunks)
  {
    hide Container, Pack;
    NoTokensLeft(x);
    assert bits + [] == bits && links + [] == links && chunks + [] == chunks;
  }

  lemma WrittenFirst(x: seq<uint8>, pos: nat, bits: seq<bool>, links: seq<uint8>, chunks: seq<uint8>)
    requires pos < |x| && Written(x, pos, bits, links, chunks)
    ensures var t := NextToken(x, pos);
      Written(x, pos + Span(t), bits + [t.Chunk?], links + LinkBytes(t), chunks + ChunkBytes(t))
  {
    hide NextToken, Tokens, LinkBytes, ChunkBytes;
    TokensFirst(x, pos);
    var t := NextToken(x, pos);
    var rest := Tokens(x, pos + Span(t));
    assert Kinds(Tokens(x, pos)) == [t.Chunk?] + Kinds(rest);
  }

  // ----- decompression -----

  /** Reads one link or one literal byte, and returns the bytes decoded with it. */
  method ReadToken(s: seq<uint8>, masks: MaskReader, out: seq<uint8>, linksOffset: nat, chunksOffset: nat)
    returns (r: Result, linksOffset': nat, chunksOffset': nat)
    requires masks.Valid() && masks.input == s && masks.start == 16
    modifies masks
    ensures masks.Valid()
    ensures var want := Step(s, Cursor(old(masks.taken), linksOffset, chunksOffset), out);
      r == want.0 && (r.Ok? ==> want.1 == Cursor(masks.taken, linksOffset', chunksOffset'))
  {
    hide MaskBit, Replay;
    linksOffset', chunksOffset' := linksOffset, chunksOffset;
    var ok, isChunk := masks.PopFront();
    if !ok {
      return Err(Invalid), linksOffset', chunksOffset';
    }
    if isChunk {
      if chunksOffset >= |s| {
        return Err(Invalid), linksOffset', chunksOffset';
      }
      r := Ok(out + [s[chunksOffset]]);
      chunksOffset' := (chunksOffset + 1) % TWO32;
    } else {
      if linksOffset + 1 >= |s| {
        return Err(Invalid), linksOffset', chunksOffset';
      }
      var link := Read16(s, linksOffset);
      linksOffset' := (linksOffset + 2) % TWO32;
      var count := link / 0x1000 + 2;
      if count == 2 {
        if chunksOffset >= |s| {
          return Err(Invalid), linksOffset', chunksOffset';
        }
        count := s[chunksOffset] as int + 18;
        chunksOffset' := (chunksOffset + 1) % TWO32;
      }
      var offset := link % 0x1000 + 1;
      if offset > |out| {
        return Err(Invalid), linksOffset', chunksOffset';
      }
      var bytes := ReplayLink(out, offset, count);
      r := Ok(bytes);
    }
  }

  /** Copies bytes from earlier in the output, one at a time. */
  method ReplayLink(out: seq<uint8>, offset: nat, count: nat) returns (r: seq<uint8>)
    requires 1 <= offset <= |out|
    ensures r == Replay(out, offset, count)
  {
    r := out;
    for i := 0 to count
      invariant |r| >= |out| && Replay(r, offset, count - i) == Replay(out, offset, count)
    {
      r := r + [r[|r| - offset]];
    }
  }

  method DecompressFile(s: seq<uint8>) returns (r: Result)
    ensures r == Decompress(s)
  {
    hide Step;
    for i := 0 to 4
      invariant Magic(s, 0) == Magic(s, i)
    {
      if i >= |s| {
        return Err(Invalid);
      }
      if s[i] != [0x59, 0x61, 0x79, 0x30][i] {
        return Err(NotYay0);
      }
    }
    if |s| < 16 {
      return Err(Invalid);
    }
    var finalSize := Read32(s, 4);
    var linksOffset := Read32(s, 8);
    var chunksOffset := Read32(s, 12);
    var masks := new MaskReader(s, 16);
    var result: seq<uint8> := [];
    while |result| < finalSize
      invariant masks.Valid() && fresh(masks) && masks.input == s && masks.start == 16
      invariant Unpack(s, Cursor(masks.taken, linksOffset, chunksOffset), result, finalSize) == Decompress(s)
      decreases finalSize - |result|
    {
      var next;
      next, linksOffset, chunksOffset := ReadToken(s, masks, result, linksOffset, chunksOffset);
      if next.Err? {
        return next;
      }
      result := next.data;
    }
    return Ok(result);
  }
}
