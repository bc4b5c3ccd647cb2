/** File handles: the generation of the server and a file id (`id_to_fh`, `fh_to_id`). */
module Handles {
  import opened Wrappers
  import opened Xdr
  import opened XdrNfs
  import opened NfsReply

  function FromLittleEndian(b: bytes): nat {
    if b == [] then 0 else b[0] + 0x100 * FromLittleEndian(b[1..])
  }

  lemma {:induction false} LittleEndianRead(x: u64, n: nat)
    requires n <= 8 && x < Pow256(n)
    ensures FromLittleEndian(LittleEndian(x, n)) == x
    decreases n
  {
    if n > 0 {
      LittleEndianRead(x / 0x100, n - 1);
      assert LittleEndian(x, n)[1..] == LittleEndian(x / 0x100, n - 1);
    }
  }

  lemma {:induction false} LittleEndianBytes(b: bytes)
    requires |b| <= 8
    ensures FromLittleEndian(b) < Pow256(|b|) <= Pow256(8)
    ensures Pow256(8) == 0x1_0000_0000_0000_0000
    ensures LittleEndian(FromLittleEndian(b), |b|) == b
  {
    Pow256Of8();
    if b != [] {
      LittleEndianBytes(b[1..]);
      var rest := FromLittleEndian(b[1..]);
      assert FromLittleEndian(b) % 0x100 == b[0] && FromLittleEndian(b) / 0x100 == rest;
      assert [b[0]] + b[1..] == b;
    }
    Pow256Grows(|b|);
  }

  lemma Pow256Of8()
    ensures Pow256(8) == 0x1_0000_0000_0000_0000
  {
    assert Pow256(4) == 0x1_0000_0000;
  }

  lemma {:induction false} Pow256Grows(n: nat)
    requires n <= 8
    ensures Pow256(n) <= Pow256(8)
    decreases 8 - n
  {
    if n < 8 {
      Pow256Grows(n + 1);
    }
  }

  /** The id a handle names for a server of this generation: a handle of an earlier one is
      stale, and anything else not issued is bad. */
  function FhToId(generation: u64, h: bytes): Result<u64, Stat> {
    if |h| != 16 then Error(BadHandle3)
    else
      var issued := FromLittleEndian(h[..8]);
      var id := FromLittleEndian(h[8..]);
      if issued < generation then Error(Stale3)
      else if issued > generation then Error(BadHandle3)
      else LittleEndianBytes(h[8..]); Ok(id)
  }

  /** A handle resolves to its id for the generation that issued it, is stale for every
      later one, and bad for every earlier one. */
  lemma HandleOfGeneration(issued: u64, id: u64, generation: u64)
    ensures FhToId(generation, IdToFh(issued, id)) ==
      if issued == generation then Ok(id) else if issued < generation then Error(Stale3) else Error(BadHandle3)
  {
    Pow256Of8();
    LittleEndianRead(issued, 8);
    LittleEndianRead(id, 8);
    var h := IdToFh(issued, id);
    assert h[..8] == LittleEndian(issued, 8) && h[8..] == LittleEndian(id, 8);
  }

  /** Only the handle issued for an id resolves to it. */
  lemma ResolvesIff(generation: u64, h: bytes, id: u64)
    ensures FhToId(generation, h) == Ok(id) <==> h == IdToFh(generation, id)
  {
    HandleOfGeneration(generation, id, generation);
    if |h| == 16 {
      LittleEndianBytes(h[..8]);
      LittleEndianBytes(h[8..]);
      assert h[..8] + h[8..] == h;
    }
  }
}
