/*
 * The macOS back end: conversion between a generic entry and a macOS
 * extended ACL entry, whose principal is a GUID resolved through the
 * membership service and whose permissions and flags are sets translated
 * through the pmap and fmap tables (gacl_impl.c:1037-1071), and the loops
 * that copy a whole ACL in either direction.
 */
module MacOs {
  import opened Base
  import opened Bits
  import opened Gacl
  import opened Tables

  /** The tag of a macOS entry. */
  datatype MacTag = UndefinedTag | ExtendedAllow | ExtendedDeny

  /** The macOS permissions. */
  datatype MacPerm =
    | ReadData | WriteData | Execute | Delete | AppendData | DeleteChild
    | ReadAttributes | WriteAttributes | ReadExtAttributes | WriteExtAttributes
    | ReadSecurity | WriteSecurity | ChangeOwner | Synchronize

  /** The macOS entry flags; the limit and defer flags have no generic counterpart. */
  datatype MacFlag =
    | FlagNoInherit | EntryInherited | FileInherit | DirectoryInherit | OnlyInherit
    | LimitInherit | DeferInherit

  type Guid = seq<Byte>

  /** What mbr_uuid_to_id says a GUID stands for. */
  datatype IdKind = UidKind | GidKind | OtherKind

  /**
   * The membership service: mbr_uuid_to_id, mbr_uid_to_uuid and
   * mbr_gid_to_uuid as partial maps (a missing key is a failing call).
   */
  datatype Membership = Membership(ids: map<Guid, (Id, IdKind)>, userGuids: map<Id, Guid>, groupGuids: map<Id, Guid>)

  /** A macOS ACL entry: tag, qualifier GUID, permission set and flag set. */
  datatype MacEntry = MacEntry(tag: MacTag, qualifier: Guid, perms: set<MacPerm>, flags: set<MacFlag>)

  /** pmap: each macOS permission and the number of its generic permission bit. */
  const PMAP: seq<Row<MacPerm>> := [
    Row(ReadData, 0), Row(WriteData, 1), Row(Execute, 5), Row(Delete, 16),
    Row(AppendData, 2), Row(DeleteChild, 6), Row(ReadAttributes, 7), Row(WriteAttributes, 8),
    Row(ReadExtAttributes, 3), Row(WriteExtAttributes, 4), Row(ReadSecurity, 17),
    Row(WriteSecurity, 18), Row(ChangeOwner, 19), Row(Synchronize, 20)]

  /** fmap: each translated macOS flag and the number of its generic flag bit. */
  const FMAP: seq<Row<MacFlag>> := [
    Row(FlagNoInherit, 2), Row(EntryInherited, 7), Row(FileInherit, 0),
    Row(DirectoryInherit, 1), Row(OnlyInherit, 3)]

  /** The generic flags fmap knows: file, directory, no-propagate, inherit-only, inherited. */
  const MAPPED_FLAGS: Word := 0x8F

  // ----- the tables ---------------------------------------------------------------

  /** The generic column of pmap holds the GACL_PERM_* values. */
  lemma PmapValues()
    ensures Pow2(PMAP[0].bit) == PERM_READ_DATA && Pow2(PMAP[1].bit) == PERM_WRITE_DATA
    ensures Pow2(PMAP[2].bit) == PERM_EXECUTE && Pow2(PMAP[3].bit) == PERM_DELETE
    ensures Pow2(PMAP[4].bit) == PERM_APPEND_DATA && Pow2(PMAP[5].bit) == PERM_DELETE_CHILD
    ensures Pow2(PMAP[6].bit) == PERM_READ_ATTRIBUTES && Pow2(PMAP[7].bit) == PERM_WRITE_ATTRIBUTES
    ensures Pow2(PMAP[8].bit) == PERM_READ_NAMED_ATTRS && Pow2(PMAP[9].bit) == PERM_WRITE_NAMED_ATTRS
    ensures Pow2(PMAP[10].bit) == PERM_READ_ACL && Pow2(PMAP[11].bit) == PERM_WRITE_ACL
    ensures Pow2(PMAP[12].bit) == PERM_WRITE_OWNER && Pow2(PMAP[13].bit) == PERM_SYNCHRONIZE
  {
    Pow2Values();
  }

  /** The generic column of fmap holds the GACL_FLAG_* values. */
  lemma FmapValues()
    ensures Pow2(FMAP[0].bit) == FLAG_NO_PROPAGATE_INHERIT && Pow2(FMAP[1].bit) == FLAG_INHERITED
    ensures Pow2(FMAP[2].bit) == FLAG_FILE_INHERIT && Pow2(FMAP[3].bit) == FLAG_DIRECTORY_INHERIT
    ensures Pow2(FMAP[4].bit) == FLAG_INHERIT_ONLY
  {
    Pow2Values();
  }

  /** The row of pmap for a generic permission bit, or -1. */
  function PmapBitRow(k: nat): int {
    if k == 0 then 0 else if k == 1 then 1 else if k == 5 then 2 else if k == 16 then 3
    else if k == 2 then 4 else if k == 6 then 5 else if k == 7 then 6 else if k == 8 then 7
    else if k == 3 then 8 else if k == 4 then 9 else if k == 17 then 10 else if k == 18 then 11
    else if k == 19 then 12 else if k == 20 then 13 else -1
  }

  lemma PmapInjective()
    ensures Injective(PMAP)
  {
    forall i | 0 <= i < |PMAP|
      ensures PermRow(PMAP[i].native) == i && PmapBitRow(PMAP[i].bit) == i
    {
      if i == 0 {} else if i == 1 {} else if i == 2 {} else if i == 3 {} else if i == 4 {} else if i == 5 {} else if i == 6 {}
      else if i == 7 {} else if i == 8 {} else if i == 9 {} else if i == 10 {} else if i == 11 {} else if i == 12 {} else {}
    }
    InjectiveByIndex(PMAP, (p: MacPerm) => PermRow(p) as int, PmapBitRow);
  }

  lemma FmapInjective()
    ensures Injective(FMAP)
  {
  }

  /** The row of pmap for each macOS permission. */
  function PermRow(p: MacPerm): (i: nat)
    ensures i < |PMAP| && PMAP[i].native == p
  {
    match p
    case ReadData => 0 case WriteData => 1 case Execute => 2 case Delete => 3
    case AppendData => 4 case DeleteChild => 5 case ReadAttributes => 6 case WriteAttributes => 7
    case ReadExtAttributes => 8 case WriteExtAttributes => 9 case ReadSecurity => 10
    case WriteSecurity => 11 case ChangeOwner => 12 case Synchronize => 13
  }

  /** The macOS flags fmap translates. */
  predicate Mapped(f: MacFlag) {
    f != LimitInherit && f != DeferInherit
  }

  /** The row of fmap for each translated macOS flag. */
  function FlagRow(f: MacFlag): (i: nat)
    requires Mapped(f)
    ensures i < |FMAP| && FMAP[i].native == f
  {
    match f
    case FlagNoInherit => 0 case EntryInherited => 1 case FileInherit => 2
    case DirectoryInherit => 3 case OnlyInherit => 4
  }

  lemma FlagRowsMapped(i: nat)
    requires i < |FMAP|
    ensures Mapped(FMAP[i].native)
  {
  }

  /** pmap covers bits 0 to 8 and 16 to 20, the bits of PERMS_ALL. */
  lemma PmapBits(k: nat)
    ensures (exists i :: 0 <= i < |PMAP| && PMAP[i].bit == k) <==> TestBit(PERMS_ALL, k)
  {
    PermsAllBits(k);
    if k <= 8 || 16 <= k <= 20 {
      var i := if k == 0 then 0 else if k == 1 then 1 else if k == 5 then 2 else if k == 16 then 3
        else if k == 2 then 4 else if k == 6 then 5 else if k == 7 then 6 else if k == 8 then 7
        else if k == 3 then 8 else if k == 4 then 9 else if k == 17 then 10 else if k == 18 then 11
        else if k == 19 then 12 else 13;
      assert PMAP[i].bit == k;
    }
  }

  /** fmap covers bits 0 to 3 and 7, the bits of MAPPED_FLAGS. */
  lemma FmapBits(k: nat)
    ensures (exists i :: 0 <= i < |FMAP| && FMAP[i].bit == k) <==> TestBit(MAPPED_FLAGS, k)
  {
    MappedFlagsBits(k);
    if k <= 3 || k == 7 {
      var i := if k == 2 then 0 else if k == 7 then 1 else if k == 0 then 2 else if k == 1 then 3 else 4;
      assert FMAP[i].bit == k;
    }
  }

  lemma MappedFlagsBits(k: nat)
    ensures TestBit(MAPPED_FLAGS, k) <==> k <= 3 || k == 7
  {
    if k >= 8 {
      assert Pow2(8) == 0x100;
      HighBitClear(MAPPED_FLAGS, 8, k);
    } else if k == 0 { assert TestBit(0x8F, 0);
    } else if k == 1 { assert TestBit(0x8F, 1);
    } else if k == 2 { assert TestBit(0x8F, 2);
    } else if k == 3 { assert TestBit(0x8F, 3);
    } else if k == 4 { assert !TestBit(0x8F, 4);
    } else if k == 5 { assert !TestBit(0x8F, 5);
    } else if k == 6 { assert !TestBit(0x8F, 6);
    } else if k == 7 { assert TestBit(0x8F, 7);
    }
  }

  // ----- permission and flag words ---------------------------------------------------

  /** The generic permission word of a macOS permission set, through pmap. */
  function PermsOf(ps: set<MacPerm>): Word
  {
    PermsFit(ps);
    Collected(PMAP, ps, |PMAP|)
  }

  /** The generic flag word of a macOS flag set, through fmap. */
  function FlagsOf(fs: set<MacFlag>): Word
  {
    FlagsFit(fs);
    Collected(FMAP, fs, |FMAP|)
  }

  lemma PermsFit(ps: set<MacPerm>)
    ensures Collected(PMAP, ps, |PMAP|) < 0x1_0000_0000
  {
    Pow2Values();
    CollectedBelow(PMAP, ps, |PMAP|, 32);
  }

  lemma FlagsFit(fs: set<MacFlag>)
    ensures Collected(FMAP, fs, |FMAP|) < 0x1_0000_0000
  {
    Pow2Values();
    CollectedBelow(FMAP, fs, |FMAP|, 32);
  }

  /** Translating generic permissions to macOS and back keeps exactly the PERMS_ALL bits. */
  lemma PermsThroughMac(p: Word)
    ensures PermsOf(Spread(PMAP, p, |PMAP|)) == And(p, PERMS_ALL)
  {
    PmapInjective();
    forall k: nat ensures (exists i :: 0 <= i < |PMAP| && PMAP[i].bit == k) <==> TestBit(PERMS_ALL, k) {
      PmapBits(k);
    }
    ThroughNative(PMAP, p, PERMS_ALL);
  }

  /** Translating generic flags to macOS and back keeps exactly the MAPPED_FLAGS bits. */
  lemma FlagsThroughMac(f: Word)
    ensures FlagsOf(Spread(FMAP, f, |FMAP|)) == And(f, MAPPED_FLAGS)
  {
    FmapInjective();
    forall k: nat ensures (exists i :: 0 <= i < |FMAP| && FMAP[i].bit == k) <==> TestBit(MAPPED_FLAGS, k) {
      FmapBits(k);
    }
    ThroughNative(FMAP, f, MAPPED_FLAGS);
  }

  /** Translating a macOS permission set to generic bits and back gives it back. */
  lemma PermsThroughGeneric(ps: set<MacPerm>)
    ensures Spread(PMAP, PermsOf(ps), |PMAP|) == ps
  {
    PmapInjective();
    forall x ensures x in Spread(PMAP, PermsOf(ps), |PMAP|) <==> x in ps {
      SpreadOfCollected(PMAP, ps, x);
      var i := PermRow(x);
    }
  }

  /** Translating a macOS flag set to generic bits and back keeps the flags fmap knows. */
  lemma FlagsThroughGeneric(fs: set<MacFlag>)
    ensures Spread(FMAP, FlagsOf(fs), |FMAP|) == set f | f in fs && Mapped(f)
  {
    FmapInjective();
    forall x ensures x in Spread(FMAP, FlagsOf(fs), |FMAP|) <==> x in fs && Mapped(x) {
      SpreadOfCollected(FMAP, fs, x);
      if Mapped(x) {
        var i := FlagRow(x);
      }
      if exists i :: 0 <= i < |FMAP| && FMAP[i].native == x {
        var i :| 0 <= i < |FMAP| && FMAP[i].native == x;
        FlagRowsMapped(i);
      }
    }
  }

  // ----- one entry ---------------------------------------------------------------------

  /**
   * _gacl_entry_from_acl_entry: an undefined tag fails (errno untouched);
   * the qualifier GUID must resolve to a uid or a gid (a failing lookup
   * fails, any other kind of id fails with ENOSYS); the entry type follows
   * the tag and the permissions and flags go through pmap and fmap.
   */
  function FromMac(n: MacEntry, mem: Membership, db: Directory): (r: Result<Entry>)
  {
    if n.tag == UndefinedTag then Err(NoErrno)
    else if n.qualifier !in mem.ids then Err(IoError)
    else
      var (id, kind) := mem.ids[n.qualifier];
      if kind == OtherKind then Err(NotSupported)
      else
        var k := if kind == UidKind then User else Group;
        var t := if n.tag == ExtendedAllow then TYPE_ALLOW else TYPE_DENY;
        Ok(Entry(Tag(k, id, TagName(k, id, db)), t, FlagsOf(n.flags), PermsOf(n.perms)))
  }

  /** The GUID mbr_uid_to_uuid or mbr_gid_to_uuid gives for a tag, or None for other tags. */
  function GuidOf(t: Tag, mem: Membership): Option<Guid>
  {
    if t.kind == User && t.ugid in mem.userGuids then Some(mem.userGuids[t.ugid])
    else if t.kind == Group && t.ugid in mem.groupGuids then Some(mem.groupGuids[t.ugid])
    else None
  }

  /**
   * _acl_entry_from_gace: only allow and deny entries (EINVAL otherwise)
   * for a user or a group (EINVAL otherwise) whose id has a GUID (a failing
   * lookup fails); the permissions and flags go through pmap and fmap.
   */
  function ToMac(e: Entry, mem: Membership): (r: Result<MacEntry>)
  {
    if e.etype != TYPE_ALLOW && e.etype != TYPE_DENY then Err(InvalidArgument)
    else if e.tag.kind != User && e.tag.kind != Group then Err(InvalidArgument)
    else match GuidOf(e.tag, mem)
      case None => Err(IoError)
      case Some(g) =>
        var tag := if e.etype == TYPE_ALLOW then ExtendedAllow else ExtendedDeny;
        Ok(MacEntry(tag, g, Spread(PMAP, e.perms, |PMAP|), Spread(FMAP, e.flags, |FMAP|)))
  }

  /** The entry conversion of the get path, with the pmap and fmap loops. */
  method EntryFromMac(n: MacEntry, mem: Membership, db: Directory) returns (r: Result<Entry>)
    ensures r == FromMac(n, mem, db)
  {
    if n.tag == UndefinedTag {
      return Err(NoErrno);
    }
    if n.qualifier !in mem.ids {
      return Err(IoError);
    }
    var (id, kind) := mem.ids[n.qualifier];
    var k: TagKind;
    if kind == UidKind {
      k := User;
    } else if kind == GidKind {
      k := Group;
    } else {
      return Err(NotSupported);
    }
    var t := if n.tag == ExtendedAllow then TYPE_ALLOW else TYPE_DENY;
    var perms := CollectBits(PMAP, n.perms);
    var flags := CollectBits(FMAP, n.flags);
    PermsFit(n.perms);
    FlagsFit(n.flags);
    r := Ok(Entry(Tag(k, id, TagName(k, id, db)), t, flags, perms));
  }

  /** The entry conversion of the set path, with the pmap and fmap loops. */
  method EntryToMac(e: Entry, mem: Membership) returns (r: Result<MacEntry>)
    ensures r == ToMac(e, mem)
  {
    var tag: MacTag;
    if e.etype == TYPE_ALLOW {
      tag := ExtendedAllow;
    } else if e.etype == TYPE_DENY {
      tag := ExtendedDeny;
    } else {
      return Err(InvalidArgument);
    }
    if e.tag.kind != User && e.tag.kind != Group {
      return Err(InvalidArgument);
    }
    var g := GuidOf(e.tag, mem);
    if g.None? {
      return Err(IoError);
    }
    var perms := SpreadBits(PMAP, e.perms);
    var flags := SpreadBits(FMAP, e.flags);
    r := Ok(MacEntry(tag, g.value, perms, flags));
  }

  /** The membership service maps the GUID of a user or group tag back to that id. */
  predicate ResolvesBack(t: Tag, mem: Membership) {
    GuidOf(t, mem).Some? ==>
      GuidOf(t, mem).value in mem.ids &&
      mem.ids[GuidOf(t, mem).value] == (t.ugid, if t.kind == User then UidKind else GidKind)
  }

  /**
   * An entry written and read back keeps its tag, id and type; its
   * permissions keep the PERMS_ALL bits and its flags the bits fmap knows.
   */
  lemma WriteThenRead(e: Entry, mem: Membership, db: Directory)
    requires ToMac(e, mem).Ok? && ResolvesBack(e.tag, mem)
    ensures FromMac(ToMac(e, mem).value, mem, db)
      == Ok(Entry(Tag(e.tag.kind, e.tag.ugid, TagName(e.tag.kind, e.tag.ugid, db)), e.etype,
                  And(e.flags, MAPPED_FLAGS), And(e.perms, PERMS_ALL)))
  {
    PermsThroughMac(e.perms);
    FlagsThroughMac(e.flags);
  }

  /** The membership service maps the id behind a GUID back to that GUID. */
  predicate GuidResolves(g: Guid, mem: Membership) {
    g in mem.ids ==>
      var (id, kind) := mem.ids[g];
      (kind == UidKind ==> id in mem.userGuids && mem.userGuids[id] == g) &&
      (kind == GidKind ==> id in mem.groupGuids && mem.groupGuids[id] == g)
  }

  /** A macOS entry read and written back keeps everything but the flags fmap does not know. */
  lemma ReadThenWrite(n: MacEntry, mem: Membership, db: Directory)
    requires FromMac(n, mem, db).Ok? && GuidResolves(n.qualifier, mem)
    ensures ToMac(FromMac(n, mem, db).value, mem)
      == Ok(MacEntry(n.tag, n.qualifier, n.perms, set f | f in n.flags && Mapped(f)))
  {
    PermsThroughGeneric(n.perms);
    FlagsThroughGeneric(n.flags);
  }

  // ----- whole ACLs ------------------------------------------------------------------------

  /**
   * Every native entry converted in order, or the error of the first that
   * fails (a failure in the prefix wins over one in the last entry).
   */
  function AllFromMac(ns: seq<MacEntry>, mem: Membership, db: Directory): (r: Result<seq<Entry>>)
    ensures r.Ok? ==> |r.value| == |ns| && forall k :: 0 <= k < |ns| ==> FromMac(ns[k], mem, db) == Ok(r.value[k])
    ensures r.Err? ==> exists k :: 0 <= k < |ns| && FromMac(ns[k], mem, db) == Err(r.error)
  {
    if ns == [] then Ok([])
    else
      var init := ns[..|ns| - 1];
      assert forall k :: 0 <= k < |init| ==> init[k] == ns[k];
      match AllFromMac(init, mem, db)
      case Err(x) => Err(x)
      case Ok(es) =>
        match FromMac(ns[|ns| - 1], mem, db)
        case Err(x) => Err(x)
        case Ok(e) => Ok(es + [e])
  }

  /**
   * Every generic entry converted in order, or the error of the first that
   * fails (a failure in the prefix wins over one in the last entry).
   */
  function AllToMac(es: seq<Entry>, mem: Membership): (r: Result<seq<MacEntry>>)
    ensures r.Ok? ==> |r.value| == |es| && forall k :: 0 <= k < |es| ==> ToMac(es[k], mem) == Ok(r.value[k])
    ensures r.Err? ==> exists k :: 0 <= k < |es| && ToMac(es[k], mem) == Err(r.error)
  {
    if es == [] then Ok([])
    else
      var init := es[..|es| - 1];
      assert forall k :: 0 <= k < |init| ==> init[k] == es[k];
      match AllToMac(init, mem)
      case Err(x) => Err(x)
      case Ok(ns) =>
        match ToMac(es[|es| - 1], mem)
        case Err(x) => Err(x)
        case Ok(n) => Ok(ns + [n])
  }

  /** The whole conversion succeeds exactly when every entry converts. */
  lemma {:induction false} AllFromMacOk(ns: seq<MacEntry>, mem: Membership, db: Directory)
    ensures AllFromMac(ns, mem, db).Ok? <==> forall k :: 0 <= k < |ns| ==> FromMac(ns[k], mem, db).Ok?
    decreases |ns|
  {
    if ns != [] {
      var init := ns[..|ns| - 1];
      AllFromMacOk(init, mem, db);
      assert forall k :: 0 <= k < |init| ==> init[k] == ns[k];
    }
  }

  /** The whole conversion succeeds exactly when every entry converts. */
  lemma {:induction false} AllToMacOk(es: seq<Entry>, mem: Membership)
    ensures AllToMac(es, mem).Ok? <==> forall k :: 0 <= k < |es| ==> ToMac(es[k], mem).Ok?
    decreases |es|
  {
    if es != [] {
      var init := es[..|es| - 1];
      AllToMacOk(init, mem);
      assert forall k :: 0 <= k < |init| ==> init[k] == es[k];
    }
  }

  /** Once the first i entries convert and entry i fails, its error is the whole result. */
  lemma {:induction false} PrefixErr(ns: seq<MacEntry>, i: nat, mem: Membership, db: Directory)
    requires i < |ns| && AllFromMac(ns[..i], mem, db).Ok? && FromMac(ns[i], mem, db).Err?
    ensures AllFromMac(ns, mem, db) == Err(FromMac(ns[i], mem, db).error)
    decreases |ns|
  {
    var init := ns[..|ns| - 1];
    if i < |ns| - 1 {
      assert init[..i] == ns[..i] && init[i] == ns[i];
      PrefixErr(init, i, mem, db);
    } else {
      assert init == ns[..i];
    }
  }

  /** Once the first i entries convert and entry i fails, its error is the whole result. */
  lemma {:induction false} ToPrefixErr(es: seq<Entry>, i: nat, mem: Membership)
    requires i < |es| && AllToMac(es[..i], mem).Ok? && ToMac(es[i], mem).Err?
    ensures AllToMac(es, mem) == Err(ToMac(es[i], mem).error)
    decreases |es|
  {
    var init := es[..|es| - 1];
    if i < |es| - 1 {
      assert init[..i] == es[..i] && init[i] == es[i];
      ToPrefixErr(init, i, mem);
    } else {
      assert init == es[..i];
    }
  }

  /** One more converted entry extends the converted prefix. */
  lemma ToPrefixOk(es: seq<Entry>, i: nat, mem: Membership)
    requires i < |es| && AllToMac(es[..i], mem).Ok? && ToMac(es[i], mem).Ok?
    ensures AllToMac(es[..i + 1], mem) == Ok(AllToMac(es[..i], mem).value + [ToMac(es[i], mem).value])
  {
    assert es[..i + 1][..i] == es[..i];
  }

  /**
   * _gacl_get_fd_file: only the NFSv4 type is supported (ENOSYS otherwise);
   * the entries of the fetched macOS ACL are appended in order to a fresh
   * generic ACL, and the first that fails to convert fails the call.
   */
  method GetAcl(t: AclType, native: seq<MacEntry>, mem: Membership, db: Directory) returns (r: Result<Acl>)
    ensures t != TypeNfs4 ==> r == Err(NotSupported)
    ensures t == TypeNfs4 ==> match AllFromMac(native, mem, db)
      case Err(x) => r == Err(x)
      case Ok(es) => r.Ok? && fresh(r.value) && r.value.Valid() && r.value.aclType == t && r.value.entries == es
  {
    if t != TypeNfs4 {
      return Err(NotSupported);
    }
    var acl := new Acl.Init(t);
    var i := 0;
    while i < |native|
      invariant 0 <= i <= |native|
      invariant fresh(acl) && acl.Valid() && acl.aclType == t
      invariant AllFromMac(native[..i], mem, db) == Ok(acl.entries)
    {
      var e := EntryFromMac(native[i], mem, db);
      assert native[..i + 1][..i] == native[..i];
      if e.Err? {
        PrefixErr(native, i, mem, db);
        return Err(e.error);
      }
      InsertedAtEnd(acl.entries, e.value);
      var rc := acl.CreateEntry(-1, e.value);
      i := i + 1;
    }
    assert native[..i] == native;
    r := Ok(acl);
  }

  /**
   * _gacl_set_fd_file: only the NFSv4 type is accepted (EINVAL otherwise);
   * the generic entries, walked with the FIRST/NEXT cursor, are put at the
   * same index of a new macOS ACL, and the first that fails to convert
   * fails the call.
   */
  method SetAcl(t: AclType, acl: Acl, mem: Membership) returns (r: Result<seq<MacEntry>>)
    requires acl.Valid()
    modifies acl`cursor
    ensures acl.Valid()
    ensures r == if t != TypeNfs4 then Err(InvalidArgument) else AllToMac(acl.entries, mem)
  {
    if t != TypeNfs4 {
      return Err(InvalidArgument);
    }
    ghost var es := acl.entries;
    var nap: seq<MacEntry> := [];
    var i := 0;
    var oe := acl.GetEntry(true);
    while oe.Some?
      invariant acl.Valid() && acl.entries == es
      invariant i == |nap| && i <= |es|
      invariant oe.Some? ==> i < |es| && oe.value == es[i] && acl.cursor == i + 1
      invariant oe.None? ==> i == |es|
      invariant AllToMac(es[..i], mem) == Ok(nap)
      decreases |es| - i
    {
      var ne := EntryToMac(oe.value, mem);
      if ne.Err? {
        ToPrefixErr(es, i, mem);
        return Err(ne.error);
      }
      ToPrefixOk(es, i, mem);
      assert nap[..i] + [ne.value] + nap[i..] == nap + [ne.value];
      nap := nap[..i] + [ne.value] + nap[i..];
      i := i + 1;
      oe := acl.GetEntry(false);
    }
    assert es[..i] == es;
    return Ok(nap);
  }
}
