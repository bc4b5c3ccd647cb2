/** XDR primitives (RFC 4506): encodings as byte sequences, decoders that return
    the value read and the bytes left, and the stream methods that refine them. */
module Xdr {
  import opened Wrappers

  const ALIGNMENT := 4
  const MAX_BLOCK_SIZE := 4 * 1024 * 1024
  const PAGE_SIZE := 4096
  const MAX_RPC_RECORD_LENGTH := (MAX_BLOCK_SIZE + PAGE_SIZE + PAGE_SIZE - 1) / PAGE_SIZE * PAGE_SIZE
  const MAX_XDR_OPAQUE_LENGTH := MAX_RPC_RECORD_LENGTH
  const MAX_XDR_ARRAY_LENGTH := MAX_XDR_OPAQUE_LENGTH / ALIGNMENT

  /** Bytes whose length fits the 32-bit XDR length word. */
  type Payload = s: bytes | |s| < 0x1_0000_0000

  type Parse<T> = Option<(T, bytes)>

  // ---- integers and booleans (sections 4.1 to 4.5) -----------------------

  function Pow256(n: nat): (p: nat)
    ensures p >= 1
  {
    if n == 0 then 1 else 0x100 * Pow256(n - 1)
  }

  /** The low `n` bytes of `x`, most significant first. */
  function BigEndian(x: nat, n: nat): (r: bytes)
    ensures |r| == n
    decreases x, n
  {
    if n == 0 then [] else BigEndian(x / 0x100, n - 1) + [x % 0x100]
  }

  /** The number a big-endian byte string stands for. */
  function FromBigEndian(b: bytes): (x: nat)
    ensures x < Pow256(|b|)
  {
    if b == [] then 0
    else 0x100 * FromBigEndian(b[..|b| - 1]) + b[|b| - 1] as int
  }

  lemma {:induction false} BigEndianRoundTrip(x: nat, n: nat)
    requires x < Pow256(n)
    ensures FromBigEndian(BigEndian(x, n)) == x
    decreases n
  {
    if n > 0 {
      BigEndianRoundTrip(x / 0x100, n - 1);
      var b := BigEndian(x, n);
      assert b[..n - 1] == BigEndian(x / 0x100, n - 1) && b[n - 1] == x % 0x100;
    }
  }

  function EncU32(x: u32): (r: bytes)
    ensures |r| == 4
  {
    BigEndian(x, 4)
  }

  function DecU32(s: bytes): (r: Parse<u32>)
    ensures r.Some? ==> |r.value.1| + 4 == |s|
  {
    if |s| < 4 then None
    else
      assert Pow256(4) == 0x1_0000_0000;
      Some((FromBigEndian(s[..4]), s[4..]))
  }

  function EncU64(x: u64): (r: bytes)
    ensures |r| == 8
  {
    BigEndian(x, 8)
  }

  function DecU64(s: bytes): (r: Parse<u64>)
    ensures r.Some? ==> |r.value.1| + 8 == |s|
  {
    if |s| < 8 then None
    else
      assert Pow256(8) == 0x1_0000_0000_0000_0000;
      Some((FromBigEndian(s[..8]), s[8..]))
  }

  function EncBool(b: bool): (r: bytes)
    ensures |r| == 4
  {
    EncU32(if b then 1 else 0)
  }

  function DecBool(s: bytes): (r: Parse<bool>)
    ensures r.Some? ==> |r.value.1| + 4 == |s|
  {
    var (x, s1) :- DecU32(s);
    if x == 0 then Some((false, s1)) else if x == 1 then Some((true, s1)) else None
  }

  // ---- opaque data (sections 4.9 and 4.10) --------------------------------

  function PaddingLen(n: nat): (r: nat)
    ensures r < ALIGNMENT && (n + r) % ALIGNMENT == 0
  {
    (ALIGNMENT - n % ALIGNMENT) % ALIGNMENT
  }

  function Zeros(n: nat): (r: bytes)
    ensures |r| == n && forall i | 0 <= i < n :: r[i] == 0
  {
    seq(n, _ => 0)
  }

  function EncFixed(b: bytes): (r: bytes)
    ensures |r| == |b| + PaddingLen(|b|)
  {
    b + Zeros(PaddingLen(|b|))
  }

  /** Reads `n` bytes and skips their padding, whatever it holds. */
  function DecFixed(n: nat, s: bytes): (r: Parse<bytes>)
    ensures r.Some? ==> |r.value.1| <= |s| && |r.value.0| == n
  {
    if |s| < n + PaddingLen(n) then None else Some((s[..n], s[n + PaddingLen(n)..]))
  }

  function EncOpaque(b: Payload): (r: bytes)
    ensures |r| == 4 + |b| + PaddingLen(|b|)
  {
    EncU32(|b|) + EncFixed(b)
  }

  function DecOpaque(s: bytes): (r: Parse<Payload>)
    ensures r.Some? ==> |r.value.1| < |s|
  {
    var (n, s1) :- DecU32(s);
    if n > MAX_XDR_OPAQUE_LENGTH then None else DecFixed(n, s1)
  }

  // ---- variable-length arrays (section 4.13) -----------------------------

  function EncWords(ws: seq<u32>): (r: bytes)
    ensures |r| == 4 * |ws|
  {
    if ws == [] then [] else EncU32(ws[0]) + EncWords(ws[1..])
  }

  function DecWords(n: nat, s: bytes): Parse<seq<u32>> {
    if n == 0 then Some(([], s))
    else
      var (w, s1) :- DecU32(s);
      var (ws, s2) :- DecWords(n - 1, s1);
      Some(([w] + ws, s2))
  }

  function EncArray(ws: seq<u32>): bytes
    requires |ws| < 0x1_0000_0000
  {
    EncU32(|ws|) + EncWords(ws)
  }

  function DecArray(s: bytes): Parse<seq<u32>> {
    var (n, s1) :- DecU32(s);
    if n > MAX_XDR_ARRAY_LENGTH then None else DecWords(n, s1)
  }

  // ---- round trips -------------------------------------------------------

  lemma Regroup2(a: bytes, b: bytes, rest: bytes)
    ensures (a + b) + rest == a + (b + rest)
  {
  }

  lemma Regroup3(a: bytes, b: bytes, c: bytes, rest: bytes)
    ensures (a + (b + c)) + rest == a + (b + (c + rest))
  {
  }

  lemma Regroup4(a: bytes, b: bytes, c: bytes, d: bytes, rest: bytes)
    ensures (a + (b + (c + d))) + rest == a + (b + (c + (d + rest)))
  {
    Regroup3(a, b, c + d, rest);
  }

  lemma Regroup5(a: bytes, b: bytes, c: bytes, d: bytes, e: bytes, rest: bytes)
    ensures (a + (b + (c + (d + e)))) + rest == a + (b + (c + (d + (e + rest))))
  {
    Regroup4(a, b, c, d + e, rest);
  }

  lemma Appended3(start: bytes, a: bytes, b: bytes, c: bytes)
    ensures ((start + a) + b) + c == start + (a + (b + c))
  {
  }

  lemma U32RoundTrip(x: u32, rest: bytes)
    ensures DecU32(EncU32(x) + rest) == Some((x, rest))
  {
    var s := EncU32(x) + rest;
    assert s[..4] == EncU32(x) && s[4..] == rest;
    BigEndianRoundTrip(x, 4);
  }

  lemma U64RoundTrip(x: u64, rest: bytes)
    ensures DecU64(EncU64(x) + rest) == Some((x, rest))
  {
    var s := EncU64(x) + rest;
    assert s[..8] == EncU64(x) && s[8..] == rest;
    BigEndianRoundTrip(x, 8);
  }

  lemma BoolRoundTrip(b: bool, rest: bytes)
    ensures DecBool(EncBool(b) + rest) == Some((b, rest))
  {
    U32RoundTrip(if b then 1 else 0, rest);
  }

  lemma FixedRoundTrip(b: bytes, rest: bytes)
    ensures DecFixed(|b|, EncFixed(b) + rest) == Some((b, rest))
  {
    var s := EncFixed(b) + rest;
    assert s[..|b|] == b && s[|b| + PaddingLen(|b|)..] == rest;
  }

  /** Opaque data comes back exactly when it is within the decoder's bound. */
  lemma OpaqueRoundTrip(b: Payload, rest: bytes)
    ensures DecOpaque(EncOpaque(b) + rest) == if |b| <= MAX_XDR_OPAQUE_LENGTH then Some((b, rest)) else None
  {
    Regroup2(EncU32(|b|), EncFixed(b), rest);
    U32RoundTrip(|b|, EncFixed(b) + rest);
    FixedRoundTrip(b, rest);
  }

  lemma {:induction false} WordsRoundTrip(ws: seq<u32>, rest: bytes)
    ensures DecWords(|ws|, EncWords(ws) + rest) == Some((ws, rest))
  {
    if ws == [] {
      assert EncWords(ws) + rest == rest;
    } else {
      Regroup2(EncU32(ws[0]), EncWords(ws[1..]), rest);
      U32RoundTrip(ws[0], EncWords(ws[1..]) + rest);
      WordsRoundTrip(ws[1..], rest);
      assert [ws[0]] + ws[1..] == ws;
    }
  }

  lemma ArrayRoundTrip(ws: seq<u32>, rest: bytes)
    requires |ws| < 0x1_0000_0000
    ensures DecArray(EncArray(ws) + rest) == if |ws| <= MAX_XDR_ARRAY_LENGTH then Some((ws, rest)) else None
  {
    Regroup2(EncU32(|ws|), EncWords(ws), rest);
    U32RoundTrip(|ws|, EncWords(ws) + rest);
    WordsRoundTrip(ws, rest);
  }

  // ---- streams -----------------------------------------------------------

  /** A byte sink; serializers append to it. */
  class Writer {
    var data: bytes

    constructor ()
      ensures data == []
    {
      data := [];
    }

    method WriteAll(b: bytes)
      modifies this
      ensures data == old(data) + b
    {
      data := data + b;
    }

    method WriteU32(x: u32)
      modifies this
      ensures data == old(data) + EncU32(x)
    {
      data := data + BigEndian(x, 4);
    }

    method WriteU64(x: u64)
      modifies this
      ensures data == old(data) + EncU64(x)
    {
      data := data + BigEndian(x, 8);
    }

    method WriteBool(b: bool)
      modifies this
      ensures data == old(data) + EncBool(b)
    {
      WriteU32(if b then 1 else 0);
    }

    method WritePadding(n: nat)
      modifies this
      ensures data == old(data) + Zeros(PaddingLen(n))
    {
      var pad := PaddingLen(n);
      if pad > 0 {
        var buffer: bytes := [0, 0, 0, 0];
        assert buffer[..pad] == Zeros(pad);
        data := data + buffer[..pad];
      }
    }

    method WriteOpaque(b: Payload)
      modifies this
      ensures data == old(data) + EncOpaque(b)
    {
      Appended3(data, EncU32(|b|), b, Zeros(PaddingLen(|b|)));
      WriteU32(|b|);
      WriteAll(b);
      WritePadding(|b|);
    }

    method WriteArray(ws: seq<u32>)
      requires |ws| < 0x1_0000_0000
      modifies this
      ensures data == old(data) + EncArray(ws)
    {
      ghost var before := data;
      WriteU32(|ws|);
      ghost var start := data;
      var i := 0;
      while i < |ws|
        invariant 0 <= i <= |ws|
        invariant data + EncWords(ws[i..]) == start + EncWords(ws)
      {
        assert ws[i..][1..] == ws[i + 1..];
        Regroup2(data, EncU32(ws[i]), EncWords(ws[i + 1..]));
        WriteU32(ws[i]);
        i := i + 1;
      }
      assert data + EncWords([]) == data;
      Regroup2(before, EncU32(|ws|), EncWords(ws));
    }
  }

  /** The outcome `r` and the bytes `left` are what the decoder `spec` says. */
  ghost predicate Parsed<T>(spec: Parse<T>, r: Option<T>, left: bytes) {
    match spec
    case None => r.None?
    case Some((v, rest)) => r == Some(v) && left == rest
  }

  /** A byte source; deserializers consume it. */
  class Reader {
    var data: bytes

    constructor (input: bytes)
      ensures data == input
    {
      data := input;
    }

    method ReadExact(n: nat) returns (r: Option<bytes>)
      modifies this
      ensures r.Some? <==> n <= |old(data)|
      ensures r.Some? ==> r.value == old(data)[..n] && data == old(data)[n..]
    {
      if n > |data| {
        return None;
      }
      r := Some(data[..n]);
      data := data[n..];
    }

    method ReadU32() returns (r: Option<u32>)
      modifies this
      ensures Parsed(DecU32(old(data)), r, data)
    {
      var b :- ReadExact(4);
      assert Pow256(4) == 0x1_0000_0000;
      return Some(FromBigEndian(b));
    }

    method ReadU64() returns (r: Option<u64>)
      modifies this
      ensures Parsed(DecU64(old(data)), r, data)
    {
      var b :- ReadExact(8);
      assert Pow256(8) == 0x1_0000_0000_0000_0000;
      return Some(FromBigEndian(b));
    }

    method ReadBool() returns (r: Option<bool>)
      modifies this
      ensures Parsed(DecBool(old(data)), r, data)
    {
      var x :- ReadU32();
      match x {
        case 0 => return Some(false);
        case 1 => return Some(true);
        case _ => return None;
      }
    }

    method ReadOpaque() returns (r: Option<Payload>)
      modifies this
      ensures Parsed(DecOpaque(old(data)), r, data)
    {
      var n :- ReadU32();
      if n > MAX_XDR_OPAQUE_LENGTH {
        return None;
      }
      ghost var body := data;
      var b :- ReadExact(n);
      var _ :- ReadExact(PaddingLen(n));
      assert body[n..][PaddingLen(n)..] == body[n + PaddingLen(n)..];
      return Some(b);
    }

    method ReadArray() returns (r: Option<seq<u32>>)
      modifies this
      ensures Parsed(DecArray(old(data)), r, data)
    {
      var n :- ReadU32();
      if n > MAX_XDR_ARRAY_LENGTH {
        return None;
      }
      ghost var body := data;
      var ws: seq<u32> := [];
      assert forall tail: seq<u32> :: ws + tail == tail;
      while |ws| < n
        invariant |ws| <= n
        invariant DecWords(n, body) == var o := DecWords(n - |ws|, data);
          if o.None? then None else Some((ws + o.value.0, o.value.1))
        decreases n - |ws|
      {
        ghost var before := ws;
        var w :- ReadU32();
        ws := ws + [w];
        assert forall tail: seq<u32> :: before + ([w] + tail) == ws + tail;
      }
      assert ws + [] == ws;
      return Some(ws);
    }
  }
}
