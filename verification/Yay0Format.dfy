/** The Yay0 container: what an encoded file means, and which links the encoder chooses. */
module Yay0Format {
  import opened MachineInts

  /** Longest link, and how far back a link may point. */
  const MAX_LINK_LEN: nat := 273
  const WINDOW: nat := 0x1000

  // ----- the mask: one bit per token, most significant bit first -----

  /** The value of bit k of a byte, where bit 0 is the most significant. */
  function Weight(k: nat): (w: nat)
    requires k < 8
    ensures k == 0 ==> w == 128
    ensures k > 0 ==> 2 * w == Weight(k - 1)
  {
    [128, 64, 32, 16, 8, 4, 2, 1][k]
  }

  /** b shifted left by one bit, in a byte. */
  function Shifted(b: uint8): uint8 {
    if b < 128 then 2 * b else 2 * b - 256
  }

  /** The top bit of b shifted left by k bits. */
  predicate Bit(b: uint8, k: nat)
    decreases k
  {
    if k == 0 then b >= 128 else Bit(Shifted(b), k - 1)
  }

  lemma {:induction false} WeightFits(b: uint8, k: nat)
    requires k < 8 && !Bit(b, k)
    ensures b + Weight(k) < 256
    ensures k > 0 ==> (b < 128) == (b + Weight(k) < 128)
    decreases k
  {
    if k > 0 {
      WeightFits(Shifted(b), k - 1);
    }
  }

  /** b with bit k set when bit is true. */
  function OrBit(b: uint8, k: nat, bit: bool): uint8
    requires k < 8
  {
    if bit && !Bit(b, k) then
      WeightFits(b, k);
      b + Weight(k)
    else b
  }

  /** Bit n of a byte string. */
  predicate MaskBit(data: seq<uint8>, n: nat)
    requires n / 8 < |data|
  {
    Bit(data[n / 8], n % 8)
  }

  /** data holds the bits, and zeros up to the end of its last byte. */
  ghost predicate Holds(data: seq<uint8>, bits: seq<bool>) {
    && |data| == (|bits| + 7) / 8
    && (forall n: nat | n < |bits| :: MaskBit(data, n) == bits[n])
    && forall n: nat | |bits| <= n < 8 * |data| :: !MaskBit(data, n)
  }

  /** One more bit after n: a new byte when the last one is full. */
  function Pushed(data: seq<uint8>, n: nat, bit: bool): seq<uint8> {
    var grown := if n % 8 == 0 then data + [0] else data;
    if grown == [] then [] else grown[|grown| - 1 := OrBit(grown[|grown| - 1], n % 8, bit)]
  }

  /** The byte string that holds the bits. */
  function Pack(bits: seq<bool>): seq<uint8> {
    if bits == [] then [] else Pushed(Pack(bits[..|bits| - 1]), |bits| - 1, bits[|bits| - 1])
  }

  // ----- numbers -----

  function Be16(v: nat): (b: seq<uint8>)
    ensures |b| == 2
  {
    [v / 0x100 % 0x100, v % 0x100]
  }

  function Be32(v: nat): (b: seq<uint8>)
    ensures |b| == 4
  {
    Be16(v / 0x1_0000) + Be16(v)
  }

  // ----- tokens -----

  datatype Token = Chunk(value: uint8) | Link(count: nat, offset: nat)

  /** The token can be written: link lengths and offsets have 8 and 12 bits to live in. */
  predicate Encodable(t: Token) {
    t.Link? ==> 3 <= t.count <= MAX_LINK_LEN && 1 <= t.offset <= WINDOW
  }

  function LinkHeader(count: nat): nat {
    if 18 <= count then 0 else if 2 <= count then count - 2 else 0
  }

  function LinkBytes(t: Token): seq<uint8> {
    if t.Link? && t.offset > 0 then Be16(LinkHeader(t.count) * 0x1000 + (t.offset - 1)) else []
  }

  function ChunkBytes(t: Token): seq<uint8> {
    match t
    case Chunk(value) => [value]
    case Link(count, _) => if 18 <= count <= MAX_LINK_LEN then [count - 18] else []
  }

  function Kinds(ts: seq<Token>): (bits: seq<bool>)
    ensures |bits| == |ts|
  {
    seq(|ts|, i requires 0 <= i < |ts| => ts[i].Chunk?)
  }

  function Links(ts: seq<Token>): seq<uint8> {
    if ts == [] then [] else LinkBytes(ts[0]) + Links(ts[1..])
  }

  function Chunks(ts: seq<Token>): seq<uint8> {
    if ts == [] then [] else ChunkBytes(ts[0]) + Chunks(ts[1..])
  }

  /** The bytes covered by a token. */
  function Span(t: Token): nat {
    if t.Chunk? then 1 else t.count
  }

  /** The file made of three streams. */
  function Container(size: nat, masks: seq<uint8>, links: seq<uint8>, chunks: seq<uint8>): seq<uint8> {
    [0x59, 0x61, 0x79, 0x30] + Be32(size) + Be32(16 + |masks|) + Be32(16 + |masks| + |links|)
    + masks + links + chunks
  }

  // ----- which link the encoder chooses -----

  /** The bytes at pos repeat those offset back, count times. */
  predicate Match(x: seq<uint8>, pos: nat, offset: nat, count: nat) {
    && 1 <= offset <= pos && pos + count <= |x|
    && forall i | pos <= i < pos + count :: x[i - offset] == x[i]
  }

  /** How many bytes match, counting up to one more than a link may cover and not past the end. */
  function Run(x: seq<uint8>, pos: nat, offset: nat, count: nat): (n: nat)
    requires Match(x, pos, offset, count) && pos + count < |x| && count <= MAX_LINK_LEN
    ensures count <= n <= MAX_LINK_LEN + 1 && Match(x, pos, offset, n)
    decreases |x| - count
  {
    if x[pos - offset + count] != x[pos + count] then count
    else if count + 1 > MAX_LINK_LEN || pos + count + 1 >= |x| then count + 1
    else Run(x, pos, offset, count + 1)
  }

  /** A match that a link may cover: it leaves at least one byte of x. */
  predicate Linkable(x: seq<uint8>, pos: nat, offset: nat, count: nat) {
    offset <= WINDOW && count <= MAX_LINK_LEN && pos + count < |x| && Match(x, pos, offset, count)
  }

  /** Counting stopped before a mismatch was seen. */
  predicate Capped(x: seq<uint8>, pos: nat, n: nat) {
    n > 0 && (n > MAX_LINK_LEN || pos + n >= |x|)
  }

  /** The search over offsets, from offset upwards, with the best link found so far. */
  function Search(x: seq<uint8>, pos: nat, offset: nat, best: Token): (r: Token)
    requires pos < |x| && 1 <= offset
    requires best.Link? && (best.count > 0 ==> Linkable(x, pos, best.offset, best.count))
    ensures r.Link? && (r.count > 0 ==> Linkable(x, pos, r.offset, r.count))
    decreases WINDOW + 1 - offset
  {
    if offset > WINDOW || offset > pos then best
    else
      var n := Run(x, pos, offset, 0);
      if Capped(x, pos, n) then Link(n - 1, offset)
      else Search(x, pos, offset + 1, if n > best.count then Link(n, offset) else best)
  }

  function NextToken(x: seq<uint8>, pos: nat): (t: Token)
    requires pos < |x|
    ensures Encodable(t) && 1 <= Span(t) && pos + Span(t) <= |x|
    ensures t.Chunk? ==> t.value == x[pos]
    ensures t.Link? ==> Linkable(x, pos, t.offset, t.count)
  {
    var best := Search(x, pos, 1, Link(0, 0));
    if best.count >= 3 then best else Chunk(x[pos])
  }

  /** The tokens for the bytes from pos on. */
  function Tokens(x: seq<uint8>, pos: nat): seq<Token>
    requires pos <= |x|
    decreases |x| - pos
  {
    if pos == |x| then []
    else
      var t := NextToken(x, pos);
      [t] + Tokens(x, pos + Span(t))
  }

  function Compress(x: seq<uint8>): seq<uint8> {
    var ts := Tokens(x, 0);
    Container(|x|, Pack(Kinds(ts)), Links(ts), Chunks(ts))
  }

  // ----- reading a file -----

  datatype Error = NotYay0 | Invalid
  datatype Result = Ok(data: seq<uint8>) | Err(error: Error)

  function Read16(s: seq<uint8>, at: nat): nat
    requires at + 1 < |s|
  {
    0x100 * (s[at] as int) + s[at + 1]
  }

  function Read32(s: seq<uint8>, at: nat): nat
    requires at + 3 < |s|
  {
    0x1_0000 * Read16(s, at) + Read16(s, at + 2)
  }

  /** Appends count bytes, each the one offset back from the end; they may repeat one another. */
  function Replay(out: seq<uint8>, offset: nat, count: nat): (r: seq<uint8>)
    requires 1 <= offset <= |out|
    ensures |r| == |out| + count
    decreases count
  {
    if count == 0 then out else Replay(out + [out[|out| - offset]], offset, count - 1)
  }

  /** What a cursor of the decoder is worth: bits read, and where the next link and chunk lie. */
  datatype Cursor = Cursor(bit: nat, link: nat, chunk: nat)

  /** The effect of one token: the bytes so far and the cursor, or none when an offset lies
      outside the file. The link and chunk offsets are 32-bit numbers. */
  function Step(s: seq<uint8>, c: Cursor, out: seq<uint8>): (r: (Result, Cursor))
    ensures r.0.Ok? ==> |out| < |r.0.data| <= |out| + MAX_LINK_LEN
  {
    if 16 + c.bit / 8 >= |s| then (Err(Invalid), c)
    else if MaskBit(s, 128 + c.bit) then
      if c.chunk >= |s| then (Err(Invalid), c)
      else (Ok(out + [s[c.chunk]]), Cursor(c.bit + 1, c.link, (c.chunk + 1) % TWO32))
    else if c.link + 1 >= |s| then (Err(Invalid), c)
    else
      var link := Read16(s, c.link);
      var next := Cursor(c.bit + 1, (c.link + 2) % TWO32, c.chunk);
      if link / 0x1000 == 0 then
        if c.chunk >= |s| then (Err(Invalid), c)
        else StepLink(out, link % 0x1000 + 1, s[c.chunk] as int + 18, next.(chunk := (c.chunk + 1) % TWO32))
      else StepLink(out, link % 0x1000 + 1, link / 0x1000 + 2, next)
  }

  function StepLink(out: seq<uint8>, offset: nat, count: nat, next: Cursor): (r: (Result, Cursor))
    requires 1 <= offset
    ensures r.0.Ok? ==> |r.0.data| == |out| + count
  {
    if offset > |out| then (Err(Invalid), next) else (Ok(Replay(out, offset, count)), next)
  }

  /** Tokens are read until size bytes, or more, have been produced. */
  function Unpack(s: seq<uint8>, c: Cursor, out: seq<uint8>, size: nat): (r: Result)
    ensures r.Ok? ==> (|out| >= size ==> r.data == out) && (|out| < size ==> size <= |r.data| < size + MAX_LINK_LEN)
    decreases size - |out|
  {
    if |out| >= size then Ok(out)
    else
      var r := Step(s, c, out);
      if r.0.Err? then r.0 else Unpack(s, r.1, r.0.data, size)
  }

  /** The first of the four header bytes that is missing or wrong decides the error. */
  function Magic(s: seq<uint8>, i: nat): Result
    requires i <= 4
    decreases 4 - i
  {
    if i == 4 then Ok([])
    else if i >= |s| then Err(Invalid)
    else if s[i] != [0x59, 0x61, 0x79, 0x30][i] then Err(NotYay0)
    else Magic(s, i + 1)
  }

  function Decompress(s: seq<uint8>): Result {
    if Magic(s, 0).Err? then Magic(s, 0)
    else if |s| < 16 then Err(Invalid)
    else Unpack(s, Cursor(0, Read32(s, 8), Read32(s, 12)), [], Read32(s, 4))
  }
}
