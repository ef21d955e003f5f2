/** The abstract file: a sequence of bytes with a cursor, the operations on it, and what any
    run of them leaves. */
module ByteStream {
  import opened MachineInts
  import opened FatGeometry
  import opened FileLayout

  datatype Stream = Stream(bytes: seq<uint8>, pos: nat)

  /** A completed call. A write carries the bytes that were accepted; a seek, whether the file is open
      for writing; and both, whether no cluster was left free. */
  datatype Event =
    | ReadCall(count: nat, data: seq<uint8>)
    | WriteCall(data: seq<uint8>, full: bool)
    | SeekCall(target: nat, writable: bool, full: bool)
    | TruncateCall

  /** e leads from s to s'. */
  ghost predicate Step(s: Stream, e: Event, s': Stream) {
    s.pos <= |s.bytes| &&
    match e
    case ReadCall(count, data) =>
      && s'.bytes == s.bytes
      && s'.pos == (if s.pos + count < |s.bytes| then s.pos + count else |s.bytes|)
      && data == s.bytes[s.pos..s'.pos]
    case WriteCall(data, full) =>
      s'.bytes == Overwrite(s.bytes, s.pos, data) && s'.pos == s.pos + |data|
    case SeekCall(target, writable, full) =>
      && s'.pos <= target
      && |s'.bytes| == Max(|s.bytes|, s'.pos) && s.bytes <= s'.bytes
      && (writable && s'.pos < target ==> full && s'.pos == |s'.bytes|)
      && (!writable ==> s' == Stream(s.bytes, if target < |s.bytes| then target else |s.bytes|))
    case TruncateCall =>
      s'.bytes == s.bytes[..s.pos] && s'.pos == s.pos
  }

  /** A run: states ss with the calls es between them. */
  ghost predicate Run(ss: seq<Stream>, es: seq<Event>) {
    |ss| == |es| + 1 && forall i | 0 <= i < |es| :: Step(ss[i], es[i], ss[i + 1])
  }

  /** Call j of the run wrote byte k. */
  ghost predicate WroteByte(ss: seq<Stream>, es: seq<Event>, j: nat, k: nat)
    requires |ss| == |es| + 1 && j < |es|
  {
    es[j].WriteCall? && ss[j].pos <= k < ss[j].pos + |es[j].data|
  }

  /** Byte k of the file was not written by the calls from a to b, and was there all the time. */
  ghost predicate Untouched(ss: seq<Stream>, es: seq<Event>, a: nat, b: nat, k: nat)
    requires |ss| == |es| + 1 && a <= b <= |es|
  {
    (forall j | a <= j < b :: !WroteByte(ss, es, j, k)) && forall j | a <= j <= b :: k < |ss[j].bytes|
  }

  /** A byte that is not written stays as it is. */
  lemma {:induction false} UntouchedKept(ss: seq<Stream>, es: seq<Event>, a: nat, b: nat, k: nat)
    requires Run(ss, es) && a <= b <= |es| && Untouched(ss, es, a, b, k)
    ensures k < |ss[a].bytes| && k < |ss[b].bytes| && ss[b].bytes[k] == ss[a].bytes[k]
    decreases b - a
  {
    if a < b {
      assert Step(ss[a], es[a], ss[a + 1]);
      assert !WroteByte(ss, es, a, k);
      UntouchedKept(ss, es, a + 1, b, k);
    }
  }

  /** A read returns, for every byte, what the last write to it wrote, or what the file held
      at the start if there was none. */
  lemma ReadsLastWritten(ss: seq<Stream>, es: seq<Event>, r: nat, k: nat, j: nat)
    requires Run(ss, es) && r < |es| && es[r].ReadCall? && ss[r].pos <= k < ss[r + 1].pos && j < r
    ensures k - ss[r].pos < |es[r].data|
    ensures WroteByte(ss, es, j, k) && Untouched(ss, es, j + 1, r, k) ==>
      es[r].data[k - ss[r].pos] == es[j].data[k - ss[j].pos]
    ensures Untouched(ss, es, 0, r, k) ==> es[r].data[k - ss[r].pos] == ss[0].bytes[k]
  {
    hide Step, Untouched;
    ReadGives(ss, es, r, k);
    if WroteByte(ss, es, j, k) && Untouched(ss, es, j + 1, r, k) {
      WriteGives(ss, es, j, k);
      UntouchedKept(ss, es, j + 1, r, k);
    }
    if Untouched(ss, es, 0, r, k) {
      UntouchedKept(ss, es, 0, r, k);
    }
  }

  lemma ReadGives(ss: seq<Stream>, es: seq<Event>, r: nat, k: nat)
    requires Run(ss, es) && r < |es| && es[r].ReadCall? && ss[r].pos <= k < ss[r + 1].pos
    ensures k - ss[r].pos < |es[r].data| && k < |ss[r].bytes| && es[r].data[k - ss[r].pos] == ss[r].bytes[k]
  {
    assert Step(ss[r], es[r], ss[r + 1]);
  }

  lemma WriteGives(ss: seq<Stream>, es: seq<Event>, j: nat, k: nat)
    requires Run(ss, es) && j < |es| && WroteByte(ss, es, j, k)
    ensures k < |ss[j + 1].bytes| && ss[j + 1].bytes[k] == es[j].data[k - ss[j].pos]
  {
    assert Step(ss[j], es[j], ss[j + 1]);
  }
}
