/** Byte-range arithmetic on a file's contents, shared by the file systems. */
module FileBytes {
  import opened Wrappers
  import Xdr

  /** A file's length is a signed 64-bit number, on disk as in memory. */
  const MAX_LENGTH := 0x7fff_ffff_ffff_ffff

  type FileData = b: bytes | |b| <= MAX_LENGTH

  function Resized(b: bytes, n: nat): (r: bytes)
    ensures |r| == n
  {
    if n <= |b| then b[..n] else b + Xdr.Zeros(n - |b|)
  }

  /** `b` with `data` written at `offset`, grown when it is too short. */
  function Spliced(b: bytes, offset: nat, data: bytes): bytes {
    var grown := if offset + |data| > |b| then Resized(b, offset + |data|) else b;
    grown[..offset] + data + grown[offset + |data|..]
  }

  /** Byte by byte: the written range, the old bytes around it, zeros in a gap. */
  lemma SplicedAt(b: bytes, offset: nat, data: bytes, i: nat)
    ensures |Spliced(b, offset, data)| == Max(|b|, offset + |data|)
    ensures i < |Spliced(b, offset, data)| ==>
      Spliced(b, offset, data)[i] ==
        if offset <= i < offset + |data| then data[i - offset] else if i < |b| then b[i] else 0
  {
  }

  datatype Chunk = Chunk(data: bytes, eof: bool)

  /** The bytes of a range that exist, and whether the range reaches the end. */
  function ReadRange(b: bytes, offset: nat, count: nat): Chunk {
    var start := Min(offset, |b|);
    var end := Min(offset + count, |b|);
    Chunk(b[start..end], offset + count >= |b|)
  }

  /** Reading stops on a range whose end overflows 64 bits: at the addition in a
      build with overflow checks; otherwise the end wraps around, and it stops when
      it then lies before the start, at the buffer's size or at the slice. */
  predicate Stops(file: FileData, offset: u64, count: u32, overflowChecks: bool) {
    && offset + count >= 0x1_0000_0000_0000_0000
    && (overflowChecks || offset + count - 0x1_0000_0000_0000_0000 < |file|)
  }

  /** Any read that overlaps a write sees the written bytes and, around them, the old ones. */
  lemma ReadAfterWrite(b: bytes, offset: nat, data: bytes, from: nat, count: nat, i: nat)
    requires i < |ReadRange(Spliced(b, offset, data), from, count).data|
    ensures ReadRange(Spliced(b, offset, data), from, count).data[i] ==
      var at := from + i;
      if offset <= at < offset + |data| then data[at - offset] else if at < |b| then b[at] else 0
  {
    SplicedAt(b, offset, data, from + i);
  }

  /** Within the file, eof is exactly "the returned bytes end where the file does". */
  lemma EofIff(b: bytes, offset: nat, count: nat)
    requires offset <= |b|
    ensures var r := ReadRange(b, offset, count); r.eof <==> offset + |r.data| == |b|
  {
  }
}
