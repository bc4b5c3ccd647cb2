/** The codecs of XdrNfs as they work on streams: serializers append to a writer,
    deserializers consume a reader. */
module XdrNfsStreams {
  import opened Wrappers
  import opened Xdr
  import opened XdrNfs

  // ---- serializers -------------------------------------------------------

  method SerializeTime(t: NfsTime, dest: Writer)
    modifies dest
    ensures dest.data == old(dest.data) + EncTime(t)
  {
    Regroup2(dest.data, EncU32(t.seconds), EncU32(t.nseconds));
    dest.WriteU32(t.seconds);
    dest.WriteU32(t.nseconds);
  }

  method SerializeOwner(a: Fattr3, dest: Writer)
    modifies dest
    ensures dest.data == old(dest.data) + EncOwner(a)
  {
    ghost var ids := EncU32(a.uid) + EncU32(a.gid);
    Appended3(dest.data, EncU32(KindCode(a.ftype)), EncU32(a.mode), EncU32(a.nlink) + ids);
    dest.WriteU32(KindCode(a.ftype));
    dest.WriteU32(a.mode);
    Appended3(dest.data, EncU32(a.nlink), EncU32(a.uid), EncU32(a.gid));
    dest.WriteU32(a.nlink);
    dest.WriteU32(a.uid);
    dest.WriteU32(a.gid);
  }

  method SerializeSizes(a: Fattr3, dest: Writer)
    modifies dest
    ensures dest.data == old(dest.data) + EncSizes(a)
  {
    Appended3(dest.data, EncU64(a.size), EncU64(a.used), EncU32(a.rdev1) + EncU32(a.rdev2));
    dest.WriteU64(a.size);
    dest.WriteU64(a.used);
    Regroup2(dest.data, EncU32(a.rdev1), EncU32(a.rdev2));
    dest.WriteU32(a.rdev1);
    dest.WriteU32(a.rdev2);
  }

  method SerializeIds(a: Fattr3, dest: Writer)
    modifies dest
    ensures dest.data == old(dest.data) + EncIds(a)
  {
    ghost var times := EncTime(a.atime) + (EncTime(a.mtime) + EncTime(a.ctime));
    Appended3(dest.data, EncU64(a.fsid), EncU64(a.fileid), times);
    dest.WriteU64(a.fsid);
    dest.WriteU64(a.fileid);
    Appended3(dest.data, EncTime(a.atime), EncTime(a.mtime), EncTime(a.ctime));
    SerializeTime(a.atime, dest);
    SerializeTime(a.mtime, dest);
    SerializeTime(a.ctime, dest);
  }

  method SerializeFattr(a: Fattr3, dest: Writer)
    modifies dest
    ensures dest.data == old(dest.data) + EncFattr(a)
  {
    Appended3(dest.data, EncOwner(a), EncSizes(a), EncIds(a));
    SerializeOwner(a, dest);
    SerializeSizes(a, dest);
    SerializeIds(a, dest);
  }

  method SerializePostOpAttr(a: Option<Fattr3>, dest: Writer)
    modifies dest
    ensures dest.data == old(dest.data) + EncPostOpAttr(a)
  {
    if a.Some? {
      Regroup2(dest.data, EncBool(true), EncFattr(a.value));
      dest.WriteBool(true);
      SerializeFattr(a.value, dest);
    } else {
      dest.WriteBool(false);
    }
  }

  method SerializePostOpHandle(h: Option<Handle>, dest: Writer)
    modifies dest
    ensures dest.data == old(dest.data) + EncPostOpHandle(h)
  {
    if h.Some? {
      Regroup2(dest.data, EncBool(true), EncOpaque(h.value));
      dest.WriteBool(true);
      dest.WriteOpaque(h.value);
    } else {
      dest.WriteBool(false);
    }
  }

  method SerializeEntry(e: Entry3, dest: Writer)
    modifies dest
    ensures dest.data == old(dest.data) + EncEntry(e)
  {
    Appended3(dest.data, EncU64(e.fileid), EncOpaque(e.name), EncU64(e.cookie));
    dest.WriteU64(e.fileid);
    dest.WriteOpaque(e.name);
    dest.WriteU64(e.cookie);
  }

  method SerializeEntryPlus(e: EntryPlus3, dest: Writer)
    modifies dest
    ensures dest.data == old(dest.data) + EncEntryPlus(e)
  {
    Appended3(dest.data, EncEntry(e.entry), EncPostOpAttr(e.attributes), EncPostOpHandle(e.handle));
    SerializeEntry(e.entry, dest);
    SerializePostOpAttr(e.attributes, dest);
    SerializePostOpHandle(e.handle, dest);
  }

  // ---- deserializers -----------------------------------------------------

  method DeserializeKind(src: Reader) returns (r: Option<FileKind>)
    modifies src
    ensures Parsed(DecKind(old(src.data)), r, src.data)
  {
    var x :- src.ReadU32();
    match x {
      case 1 => return Some(NF3REG);
      case 2 => return Some(NF3DIR);
      case 3 => return Some(NF3BLK);
      case 4 => return Some(NF3CHR);
      case 5 => return Some(NF3LNK);
      case 6 => return Some(NF3SOCK);
      case 7 => return Some(NF3FIFO);
      case _ => return None;
    }
  }

  method DeserializeTime(src: Reader) returns (r: Option<NfsTime>)
    modifies src
    ensures Parsed(DecTime(old(src.data)), r, src.data)
  {
    var seconds :- src.ReadU32();
    var nseconds :- src.ReadU32();
    return Some(NfsTime(seconds, nseconds));
  }

  method DeserializeOwner(src: Reader) returns (r: Option<Owner>)
    modifies src
    ensures Parsed(DecOwner(old(src.data)), r, src.data)
  {
    var ftype :- DeserializeKind(src);
    var mode :- src.ReadU32();
    var nlink :- src.ReadU32();
    var uid :- src.ReadU32();
    var gid :- src.ReadU32();
    return Some(Owner(ftype, mode, nlink, uid, gid));
  }

  method DeserializeSizes(src: Reader) returns (r: Option<Sizes>)
    modifies src
    ensures Parsed(DecSizes(old(src.data)), r, src.data)
  {
    var size :- src.ReadU64();
    var used :- src.ReadU64();
    var rdev1 :- src.ReadU32();
    var rdev2 :- src.ReadU32();
    return Some(Sizes(size, used, rdev1, rdev2));
  }

  method DeserializeIds(src: Reader) returns (r: Option<Ids>)
    modifies src
    ensures Parsed(DecIds(old(src.data)), r, src.data)
  {
    var fsid :- src.ReadU64();
    var fileid :- src.ReadU64();
    var atime :- DeserializeTime(src);
    var mtime :- DeserializeTime(src);
    var ctime :- DeserializeTime(src);
    return Some(Ids(fsid, fileid, atime, mtime, ctime));
  }

  method DeserializeFattr(src: Reader) returns (r: Option<Fattr3>)
    modifies src
    ensures Parsed(DecFattr(old(src.data)), r, src.data)
  {
    var o :- DeserializeOwner(src);
    var z :- DeserializeSizes(src);
    var i :- DeserializeIds(src);
    return Some(Fattr3(o.ftype, o.mode, o.nlink, o.uid, o.gid, z.size, z.used, z.rdev1, z.rdev2,
                       i.fsid, i.fileid, i.atime, i.mtime, i.ctime));
  }

  method DeserializePostOpAttr(src: Reader) returns (r: Option<Option<Fattr3>>)
    modifies src
    ensures Parsed(DecPostOpAttr(old(src.data)), r, src.data)
  {
    var present :- src.ReadBool();
    if !present {
      return Some(None);
    }
    var a :- DeserializeFattr(src);
    return Some(Some(a));
  }

  method DeserializeName(src: Reader) returns (r: Option<Name>)
    modifies src
    ensures Parsed(DecName(old(src.data)), r, src.data)
  {
    var b :- src.ReadOpaque();
    return if |b| <= MAX_XDR_OPAQUE_LENGTH then Some(b) else None;
  }

  method DeserializePostOpHandle(src: Reader) returns (r: Option<Option<Handle>>)
    modifies src
    ensures Parsed(DecPostOpHandle(old(src.data)), r, src.data)
  {
    var present :- src.ReadBool();
    if !present {
      return Some(None);
    }
    var h :- DeserializeName(src);
    return Some(Some(h));
  }

  method DeserializeEntry(src: Reader) returns (r: Option<Entry3>)
    modifies src
    ensures Parsed(DecEntry(old(src.data)), r, src.data)
  {
    var fileid :- src.ReadU64();
    var name :- DeserializeName(src);
    var cookie :- src.ReadU64();
    return Some(Entry3(fileid, name, cookie));
  }

  method DeserializeEntryPlus(src: Reader) returns (r: Option<EntryPlus3>)
    modifies src
    ensures Parsed(DecEntryPlus(old(src.data)), r, src.data)
  {
    var e :- DeserializeEntry(src);
    var a :- DeserializePostOpAttr(src);
    var h :- DeserializePostOpHandle(src);
    return Some(EntryPlus3(e, a, h));
  }
}
