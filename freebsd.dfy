/*
 * The FreeBSD back end: conversion between a generic entry and a FreeBSD
 * NFSv4 acl_entry, and the loops that copy a whole ACL in either direction.
 * FreeBSD numbers tags, qualifiers, permission and flag bits exactly as the
 * generic ACL does (gacl_impl.c:483-494), so only the entry type is mapped.
 */
module FreeBsd {
  import opened Base
  import opened Gacl

  /** ae_entry_type values of FreeBSD's <sys/acl.h>. */
  const ACL_ENTRY_TYPE_ALLOW: Word := 0x0100
  const ACL_ENTRY_TYPE_DENY: Word := 0x0200
  const ACL_ENTRY_TYPE_AUDIT: Word := 0x0400
  const ACL_ENTRY_TYPE_ALARM: Word := 0x0800

  /** A FreeBSD acl_entry: tag, qualifier, permission word, flag word, entry type. */
  datatype NativeEntry = NativeEntry(tag: TagKind, id: Id, perm: Word, flags: Word, entryType: Word)

  /** The native entry type of a generic one, if it is one of the four. */
  function NativeType(t: Word): (r: Option<Word>)
    ensures r.Some? <==> IsListedType(t)
  {
    if t == TYPE_ALLOW then Some(ACL_ENTRY_TYPE_ALLOW)
    else if t == TYPE_DENY then Some(ACL_ENTRY_TYPE_DENY)
    else if t == TYPE_AUDIT then Some(ACL_ENTRY_TYPE_AUDIT)
    else if t == TYPE_ALARM then Some(ACL_ENTRY_TYPE_ALARM)
    else None
  }

  /** The generic entry type of a native one, if it is one of the four. */
  function GenericType(t: Word): (r: Option<Word>)
    ensures r.Some? ==> IsListedType(r.value)
  {
    if t == ACL_ENTRY_TYPE_ALLOW then Some(TYPE_ALLOW)
    else if t == ACL_ENTRY_TYPE_DENY then Some(TYPE_DENY)
    else if t == ACL_ENTRY_TYPE_AUDIT then Some(TYPE_AUDIT)
    else if t == ACL_ENTRY_TYPE_ALARM then Some(TYPE_ALARM)
    else None
  }

  /** The two entry-type tables are inverse to each other. */
  lemma TypeTablesInverse(t: Word, n: Word)
    ensures NativeType(t) == Some(n) <==> GenericType(n) == Some(t)
  {
  }

  /**
   * _gacl_entry_from_acl_entry: the unknown, mask and other tags and an
   * unlisted entry type are refused with EINVAL; otherwise the tag, id,
   * permissions and flags are copied and the name is looked up.
   */
  function FromNative(n: NativeEntry, db: Directory): (r: Result<Entry>)
    ensures r.Err? <==> n.tag == Unknown || n.tag == Mask || n.tag == Other || GenericType(n.entryType).None?
    ensures r.Err? ==> r.error == InvalidArgument
    ensures r.Ok? ==> r.value.tag.kind == n.tag && r.value.tag.ugid == n.id
    ensures r.Ok? ==> r.value.perms == n.perm && r.value.flags == n.flags
    ensures r.Ok? ==> Some(r.value.etype) == GenericType(n.entryType)
  {
    if n.tag == Unknown || n.tag == Mask || n.tag == Other then Err(InvalidArgument)
    else match GenericType(n.entryType)
      case None => Err(InvalidArgument)
      case Some(t) => Ok(Entry(Tag(n.tag, n.id, TagName(n.tag, n.id, db)), t, n.flags, n.perm))
  }

  /** A user or group tag without an id. */
  predicate Unresolved(t: Tag) {
    (t.kind == User || t.kind == Group) && t.ugid == NO_ID
  }

  /**
   * _acl_entry_from_gace: the unknown tag, a user or group without an id and
   * an unlisted entry type are refused with EINVAL; everything else is
   * copied.
   */
  function ToNative(e: Entry): (r: Result<NativeEntry>)
    ensures r.Err? <==> e.tag.kind == Unknown || Unresolved(e.tag) || !IsListedType(e.etype)
    ensures r.Err? ==> r.error == InvalidArgument
    ensures r.Ok? ==> r.value.tag == e.tag.kind && r.value.id == e.tag.ugid
    ensures r.Ok? ==> r.value.perm == e.perms && r.value.flags == e.flags
    ensures r.Ok? ==> NativeType(e.etype) == Some(r.value.entryType)
  {
    if e.tag.kind == Unknown || Unresolved(e.tag) then Err(InvalidArgument)
    else match NativeType(e.etype)
      case None => Err(InvalidArgument)
      case Some(t) => Ok(NativeEntry(e.tag.kind, e.tag.ugid, e.perms, e.flags, t))
  }

  /** Writing an entry that was read gives back the native entry, unless it names a user or group by id -1. */
  lemma ReadThenWrite(n: NativeEntry, db: Directory)
    requires FromNative(n, db).Ok?
    requires !((n.tag == User || n.tag == Group) && n.id == NO_ID)
    ensures ToNative(FromNative(n, db).value) == Ok(n)
  {
    TypeTablesInverse(FromNative(n, db).value.etype, n.entryType);
  }

  /** Reading an entry that was written gives it back, its name replaced by the looked-up one. */
  lemma WriteThenRead(e: Entry, db: Directory)
    requires ToNative(e).Ok?
    requires e.tag.kind != Mask && e.tag.kind != Other
    ensures FromNative(ToNative(e).value, db)
      == Ok(Entry(Tag(e.tag.kind, e.tag.ugid, TagName(e.tag.kind, e.tag.ugid, db)), e.etype, e.flags, e.perms))
  {
    TypeTablesInverse(e.etype, ToNative(e).value.entryType);
  }

  /** Mask and other entries can be written but are refused when read back. */
  lemma MaskAndOtherOneWay(e: Entry, db: Directory)
    requires e.tag.kind == Mask || e.tag.kind == Other
    requires IsListedType(e.etype)
    ensures ToNative(e).Ok? && FromNative(ToNative(e).value, db) == Err(InvalidArgument)
  {
  }

  // ----- whole ACLs ------------------------------------------------------------

  /** Every native entry converted, or EINVAL when one is refused. */
  function AllFromNative(ns: seq<NativeEntry>, db: Directory): (r: Result<seq<Entry>>)
    ensures r.Ok? <==> forall i :: 0 <= i < |ns| ==> FromNative(ns[i], db).Ok?
    ensures r.Ok? ==> |r.value| == |ns| && forall i :: 0 <= i < |ns| ==> r.value[i] == FromNative(ns[i], db).value
    ensures r.Err? ==> r.error == InvalidArgument
  {
    if forall i :: 0 <= i < |ns| ==> FromNative(ns[i], db).Ok? then
      Ok(seq(|ns|, i requires 0 <= i < |ns| && FromNative(ns[i], db).Ok? => FromNative(ns[i], db).value))
    else Err(InvalidArgument)
  }

  /** Every generic entry converted, or EINVAL when one is refused. */
  function AllToNative(es: seq<Entry>): (r: Result<seq<NativeEntry>>)
    ensures r.Ok? <==> forall i :: 0 <= i < |es| ==> ToNative(es[i]).Ok?
    ensures r.Ok? ==> |r.value| == |es| && forall i :: 0 <= i < |es| ==> r.value[i] == ToNative(es[i]).value
    ensures r.Err? ==> r.error == InvalidArgument
  {
    if forall i :: 0 <= i < |es| ==> ToNative(es[i]).Ok? then
      Ok(seq(|es|, i requires 0 <= i < |es| && ToNative(es[i]).Ok? => ToNative(es[i]).value))
    else Err(InvalidArgument)
  }

  /**
   * _gacl_get_fd_file after the native ACL has been fetched: the entries,
   * in native order, are appended one by one to a fresh generic ACL of the
   * requested type; the first refused entry fails the whole call. The
   * source appends an empty entry and then fills it; appending the filled
   * entry gives the same list.
   */
  method GetAcl(native: seq<NativeEntry>, t: AclType, db: Directory) returns (r: Result<Acl>)
    ensures r.Ok? <==> AllFromNative(native, db).Ok?
    ensures r.Err? ==> r.error == InvalidArgument
    ensures r.Ok? ==> fresh(r.value) && r.value.Valid() && r.value.aclType == t
    ensures r.Ok? ==> r.value.entries == AllFromNative(native, db).value
  {
    var acl := new Acl.Init(t);
    var i := 0;
    while i < |native|
      invariant 0 <= i <= |native|
      invariant fresh(acl) && acl.Valid() && acl.aclType == t
      invariant |acl.entries| == i
      invariant forall k :: 0 <= k < i ==> FromNative(native[k], db).Ok? && acl.entries[k] == FromNative(native[k], db).value
    {
      var e := FromNative(native[i], db);
      if e.Err? {
        return Err(e.error);
      }
      InsertedAtEnd(acl.entries, e.value);
      var rc := acl.CreateEntry(-1, e.value);
      i := i + 1;
    }
    r := Ok(acl);
  }

  /**
   * _gacl_set_fd_file before the native ACL is stored: the generic entries
   * are walked with the FIRST/NEXT cursor and each is put at the same index
   * of the native list; the first refused entry fails the whole call.
   */
  method SetAcl(acl: Acl) returns (r: Result<seq<NativeEntry>>)
    requires acl.Valid()
    modifies acl`cursor
    ensures acl.Valid()
    ensures r == AllToNative(acl.entries)
  {
    var nap: seq<NativeEntry> := [];
    var i := 0;
    var oe := acl.GetEntry(true);
    while oe.Some?
      invariant acl.Valid() && acl.entries == old(acl.entries)
      invariant i == |nap| && i <= |acl.entries|
      invariant oe.Some? ==> i < |acl.entries| && oe.value == acl.entries[i] && acl.cursor == i + 1
      invariant oe.None? ==> i == |acl.entries|
      invariant forall k :: 0 <= k < i ==> ToNative(acl.entries[k]).Ok? && nap[k] == ToNative(acl.entries[k]).value
      decreases |acl.entries| - i
    {
      var ne := ToNative(oe.value);
      if ne.Err? {
        return Err(ne.error);
      }
      assert nap[..i] == nap && nap[i..] == [];
      nap := nap[..i] + [ne.value] + nap[i..];
      i := i + 1;
      oe := acl.GetEntry(false);
    }
    assert AllToNative(acl.entries).Ok?;
    assert nap == AllToNative(acl.entries).value;
    return Ok(nap);
  }

  /** Storing an ACL that was read gives back the native list, when no user or group entry has id -1. */
  lemma AclReadThenWrite(ns: seq<NativeEntry>, db: Directory)
    requires AllFromNative(ns, db).Ok?
    requires forall i :: 0 <= i < |ns| ==> !((ns[i].tag == User || ns[i].tag == Group) && ns[i].id == NO_ID)
    ensures AllToNative(AllFromNative(ns, db).value) == Ok(ns)
  {
    var es := AllFromNative(ns, db).value;
    forall i | 0 <= i < |ns| ensures ToNative(es[i]) == Ok(ns[i]) {
      ReadThenWrite(ns[i], db);
    }
    assert AllToNative(es).value == ns;
  }
}
