/** NFS version 3 structures a directory page is made of (RFC 1813, sections 2.5,
    2.6, 3.3.16 and 3.3.17). */
module XdrNfs {
  import opened Wrappers
  import opened Xdr

  datatype FileKind = NF3REG | NF3DIR | NF3BLK | NF3CHR | NF3LNK | NF3SOCK | NF3FIFO

  datatype NfsTime = NfsTime(seconds: u32, nseconds: u32)

  datatype Fattr3 = Fattr3(
    ftype: FileKind, mode: u32, nlink: u32, uid: u32, gid: u32, size: u64, used: u64, rdev1: u32, rdev2: u32,
    fsid: u64, fileid: u64, atime: NfsTime, mtime: NfsTime, ctime: NfsTime)

  /** A file name; every name a file system hands out is far below this bound. */
  type Name = s: bytes | |s| <= MAX_XDR_OPAQUE_LENGTH

  type Handle = s: bytes | |s| <= MAX_XDR_OPAQUE_LENGTH

  /** entry3 and, with attributes and handle, entryplus3. */
  datatype Entry3 = Entry3(fileid: u64, name: Name, cookie: u64)

  datatype EntryPlus3 = EntryPlus3(entry: Entry3, attributes: Option<Fattr3>, handle: Option<Handle>)

  // ---- encoders ----------------------------------------------------------

  function KindCode(k: FileKind): u32 {
    match k
    case NF3REG => 1
    case NF3DIR => 2
    case NF3BLK => 3
    case NF3CHR => 4
    case NF3LNK => 5
    case NF3SOCK => 6
    case NF3FIFO => 7
  }

  function EncTime(t: NfsTime): (r: bytes)
    ensures |r| == 8
  {
    EncU32(t.seconds) + EncU32(t.nseconds)
  }

  function EncOwner(a: Fattr3): (r: bytes)
    ensures |r| == 20
  {
    EncU32(KindCode(a.ftype)) + (EncU32(a.mode) + (EncU32(a.nlink) + (EncU32(a.uid) + EncU32(a.gid))))
  }

  function EncSizes(a: Fattr3): (r: bytes)
    ensures |r| == 24
  {
    EncU64(a.size) + (EncU64(a.used) + (EncU32(a.rdev1) + EncU32(a.rdev2)))
  }

  function EncIds(a: Fattr3): (r: bytes)
    ensures |r| == 40
  {
    EncU64(a.fsid) + (EncU64(a.fileid) + (EncTime(a.atime) + (EncTime(a.mtime) + EncTime(a.ctime))))
  }

  function EncFattr(a: Fattr3): (r: bytes)
    ensures |r| == 84
  {
    EncOwner(a) + (EncSizes(a) + EncIds(a))
  }

  function EncPostOpAttr(a: Option<Fattr3>): (r: bytes)
    ensures |r| == if a.Some? then 88 else 4
  {
    if a.Some? then EncBool(true) + EncFattr(a.value) else EncBool(false)
  }

  function EncPostOpHandle(h: Option<Handle>): bytes {
    if h.Some? then EncBool(true) + EncOpaque(h.value) else EncBool(false)
  }

  function EncEntry(e: Entry3): (r: bytes)
    ensures |r| == 20 + |e.name| + PaddingLen(|e.name|)
  {
    EncU64(e.fileid) + (EncOpaque(e.name) + EncU64(e.cookie))
  }

  function EncEntryPlus(e: EntryPlus3): bytes {
    EncEntry(e.entry) + (EncPostOpAttr(e.attributes) + EncPostOpHandle(e.handle))
  }

  // ---- decoders ----------------------------------------------------------

  function DecKind(s: bytes): (r: Parse<FileKind>)
    ensures r.Some? ==> |r.value.1| <= |s|
  {
    var (x, s1) :- DecU32(s);
    match x
    case 1 => Some((NF3REG, s1))
    case 2 => Some((NF3DIR, s1))
    case 3 => Some((NF3BLK, s1))
    case 4 => Some((NF3CHR, s1))
    case 5 => Some((NF3LNK, s1))
    case 6 => Some((NF3SOCK, s1))
    case 7 => Some((NF3FIFO, s1))
    case _ => None
  }

  function DecTime(s: bytes): (r: Parse<NfsTime>)
    ensures r.Some? ==> |r.value.1| <= |s|
  {
    var (seconds, s1) :- DecU32(s);
    var (nseconds, s2) :- DecU32(s1);
    Some((NfsTime(seconds, nseconds), s2))
  }

  datatype Owner = Owner(ftype: FileKind, mode: u32, nlink: u32, uid: u32, gid: u32)

  datatype Sizes = Sizes(size: u64, used: u64, rdev1: u32, rdev2: u32)

  datatype Ids = Ids(fsid: u64, fileid: u64, atime: NfsTime, mtime: NfsTime, ctime: NfsTime)

  function DecOwner(s: bytes): (r: Parse<Owner>)
    ensures r.Some? ==> |r.value.1| <= |s|
  {
    var (ftype, s1) :- DecKind(s);
    var (mode, s2) :- DecU32(s1);
    var (nlink, s3) :- DecU32(s2);
    var (uid, s4) :- DecU32(s3);
    var (gid, s5) :- DecU32(s4);
    Some((Owner(ftype, mode, nlink, uid, gid), s5))
  }

  function DecSizes(s: bytes): (r: Parse<Sizes>)
    ensures r.Some? ==> |r.value.1| <= |s|
  {
    var (size, s1) :- DecU64(s);
    var (used, s2) :- DecU64(s1);
    var (rdev1, s3) :- DecU32(s2);
    var (rdev2, s4) :- DecU32(s3);
    Some((Sizes(size, used, rdev1, rdev2), s4))
  }

  function DecIds(s: bytes): (r: Parse<Ids>)
    ensures r.Some? ==> |r.value.1| <= |s|
  {
    var (fsid, s1) :- DecU64(s);
    var (fileid, s2) :- DecU64(s1);
    var (atime, s3) :- DecTime(s2);
    var (mtime, s4) :- DecTime(s3);
    var (ctime, s5) :- DecTime(s4);
    Some((Ids(fsid, fileid, atime, mtime, ctime), s5))
  }

  function DecFattr(s: bytes): (r: Parse<Fattr3>)
    ensures r.Some? ==> |r.value.1| <= |s|
  {
    var (o, s1) :- DecOwner(s);
    var (z, s2) :- DecSizes(s1);
    var (i, s3) :- DecIds(s2);
    Some((Fattr3(o.ftype, o.mode, o.nlink, o.uid, o.gid, z.size, z.used, z.rdev1, z.rdev2,
                 i.fsid, i.fileid, i.atime, i.mtime, i.ctime), s3))
  }

  function DecPostOpAttr(s: bytes): (r: Parse<Option<Fattr3>>)
    ensures r.Some? ==> |r.value.1| <= |s|
  {
    var (present, s1) :- DecBool(s);
    if !present then Some((None, s1))
    else
      var (a, s2) :- DecFattr(s1);
      Some((Some(a), s2))
  }

  function DecName(s: bytes): (r: Parse<Name>)
    ensures r.Some? ==> |r.value.1| <= |s|
  {
    var (b, s1) :- DecOpaque(s);
    if |b| <= MAX_XDR_OPAQUE_LENGTH then Some((b, s1)) else None
  }

  function DecPostOpHandle(s: bytes): (r: Parse<Option<Handle>>)
    ensures r.Some? ==> |r.value.1| <= |s|
  {
    var (present, s1) :- DecBool(s);
    if !present then Some((None, s1))
    else
      var (h, s2) :- DecName(s1);
      Some((Some(h), s2))
  }

  function DecEntry(s: bytes): (r: Parse<Entry3>)
    ensures r.Some? ==> |r.value.1| <= |s|
  {
    var (fileid, s1) :- DecU64(s);
    var (name, s2) :- DecName(s1);
    var (cookie, s3) :- DecU64(s2);
    Some((Entry3(fileid, name, cookie), s3))
  }

  function DecEntryPlus(s: bytes): (r: Parse<EntryPlus3>)
    ensures r.Some? ==> |r.value.1| <= |s|
  {
    var (e, s1) :- DecEntry(s);
    var (a, s2) :- DecPostOpAttr(s1);
    var (h, s3) :- DecPostOpHandle(s2);
    Some((EntryPlus3(e, a, h), s3))
  }

  // ---- round trips -------------------------------------------------------

  lemma TimeRoundTrip(t: NfsTime, rest: bytes)
    ensures DecTime(EncTime(t) + rest) == Some((t, rest))
  {
    Regroup2(EncU32(t.seconds), EncU32(t.nseconds), rest);
    U32RoundTrip(t.seconds, EncU32(t.nseconds) + rest);
    U32RoundTrip(t.nseconds, rest);
  }

  lemma OwnerRoundTrip(a: Fattr3, rest: bytes)
    ensures DecOwner(EncOwner(a) + rest) == Some((Owner(a.ftype, a.mode, a.nlink, a.uid, a.gid), rest))
  {
    Regroup5(EncU32(KindCode(a.ftype)), EncU32(a.mode), EncU32(a.nlink), EncU32(a.uid), EncU32(a.gid), rest);
    var t4 := EncU32(a.gid) + rest;
    var t3 := EncU32(a.uid) + t4;
    var t2 := EncU32(a.nlink) + t3;
    var t1 := EncU32(a.mode) + t2;
    U32RoundTrip(KindCode(a.ftype), t1);
    U32RoundTrip(a.mode, t2);
    U32RoundTrip(a.nlink, t3);
    U32RoundTrip(a.uid, t4);
    U32RoundTrip(a.gid, rest);
  }

  lemma SizesRoundTrip(a: Fattr3, rest: bytes)
    ensures DecSizes(EncSizes(a) + rest) == Some((Sizes(a.size, a.used, a.rdev1, a.rdev2), rest))
  {
    Regroup4(EncU64(a.size), EncU64(a.used), EncU32(a.rdev1), EncU32(a.rdev2), rest);
    var t3 := EncU32(a.rdev2) + rest;
    var t2 := EncU32(a.rdev1) + t3;
    var t1 := EncU64(a.used) + t2;
    U64RoundTrip(a.size, t1);
    U64RoundTrip(a.used, t2);
    U32RoundTrip(a.rdev1, t3);
    U32RoundTrip(a.rdev2, rest);
  }

  lemma IdsRoundTrip(a: Fattr3, rest: bytes)
    ensures DecIds(EncIds(a) + rest) == Some((Ids(a.fsid, a.fileid, a.atime, a.mtime, a.ctime), rest))
  {
    Regroup5(EncU64(a.fsid), EncU64(a.fileid), EncTime(a.atime), EncTime(a.mtime), EncTime(a.ctime), rest);
    var t4 := EncTime(a.ctime) + rest;
    var t3 := EncTime(a.mtime) + t4;
    var t2 := EncTime(a.atime) + t3;
    var t1 := EncU64(a.fileid) + t2;
    U64RoundTrip(a.fsid, t1);
    U64RoundTrip(a.fileid, t2);
    TimeRoundTrip(a.atime, t3);
    TimeRoundTrip(a.mtime, t4);
    TimeRoundTrip(a.ctime, rest);
  }

  /** File attributes come back whole, leaving what follows them. */
  lemma FattrRoundTrip(a: Fattr3, rest: bytes)
    ensures DecFattr(EncFattr(a) + rest) == Some((a, rest))
  {
    Regroup3(EncOwner(a), EncSizes(a), EncIds(a), rest);
    OwnerRoundTrip(a, EncSizes(a) + (EncIds(a) + rest));
    SizesRoundTrip(a, EncIds(a) + rest);
    IdsRoundTrip(a, rest);
  }

  lemma PostOpAttrRoundTrip(a: Option<Fattr3>, rest: bytes)
    ensures DecPostOpAttr(EncPostOpAttr(a) + rest) == Some((a, rest))
  {
    if a.Some? {
      Regroup2(EncBool(true), EncFattr(a.value), rest);
      BoolRoundTrip(true, EncFattr(a.value) + rest);
      FattrRoundTrip(a.value, rest);
    } else {
      BoolRoundTrip(false, rest);
    }
  }

  lemma PostOpHandleRoundTrip(h: Option<Handle>, rest: bytes)
    ensures DecPostOpHandle(EncPostOpHandle(h) + rest) == Some((h, rest))
  {
    if h.Some? {
      Regroup2(EncBool(true), EncOpaque(h.value), rest);
      BoolRoundTrip(true, EncOpaque(h.value) + rest);
      OpaqueRoundTrip(h.value, rest);
    } else {
      BoolRoundTrip(false, rest);
    }
  }

  lemma EntryRoundTrip(e: Entry3, rest: bytes)
    ensures DecEntry(EncEntry(e) + rest) == Some((e, rest))
  {
    Regroup3(EncU64(e.fileid), EncOpaque(e.name), EncU64(e.cookie), rest);
    U64RoundTrip(e.fileid, EncOpaque(e.name) + (EncU64(e.cookie) + rest));
    OpaqueRoundTrip(e.name, EncU64(e.cookie) + rest);
    U64RoundTrip(e.cookie, rest);
  }

  /** A READDIRPLUS entry with its attributes and handle comes back whole. */
  lemma EntryPlusRoundTrip(e: EntryPlus3, rest: bytes)
    ensures DecEntryPlus(EncEntryPlus(e) + rest) == Some((e, rest))
  {
    Regroup3(EncEntry(e.entry), EncPostOpAttr(e.attributes), EncPostOpHandle(e.handle), rest);
    EntryRoundTrip(e.entry, EncPostOpAttr(e.attributes) + (EncPostOpHandle(e.handle) + rest));
    PostOpAttrRoundTrip(e.attributes, EncPostOpHandle(e.handle) + rest);
    PostOpHandleRoundTrip(e.handle, rest);
  }

  // ---- file handles ------------------------------------------------------

  function LittleEndian(x: u64, n: nat): (r: bytes)
    requires n <= 8
    ensures |r| == n
    decreases n
  {
    if n == 0 then [] else [x % 0x100] + LittleEndian(x / 0x100, n - 1)
  }

  /** Generation and file id, eight little-endian bytes each. */
  function IdToFh(generation: u64, id: u64): (h: Handle)
    ensures |h| == 16
  {
    LittleEndian(generation, 8) + LittleEndian(id, 8)
  }
}
