/*
 * The Solaris back end: conversion between a generic entry and a Solaris
 * ace_t, where the principal of the entry is carried by bits of the 16-bit
 * a_flags word, the refusal to work on symbolic links, and the loops that
 * copy a whole ACL in either direction.
 */
module Solaris {
  import opened Base
  import opened Bits
  import opened Gacl

  /** An unsigned 16-bit value (the a_flags and a_type fields). */
  type Half = x: int | 0 <= x < 0x10000

  /** The a_flags bits of Solaris's <sys/acl.h> that name the principal. */
  const ACE_OWNER: Half := 0x1000
  const ACE_GROUP: Half := 0x2000
  const ACE_EVERYONE: Half := 0x4000
  const ACE_IDENTIFIER_GROUP: Half := 0x0040
  /** ACE_OWNER|ACE_GROUP|ACE_EVERYONE. */
  const PRINCIPAL_MASK: Half := 0x7000

  /** A Solaris ace_t: who, access mask, flags and type. */
  datatype Ace = Ace(who: Id, accessMask: Word, aflags: Half, atype: Half)

  // ----- the bits involved ---------------------------------------------------------

  /**
   * The bits of the a_flags constants the mapper uses: ACE_IDENTIFIER_GROUP
   * is bit 6, ACE_OWNER, ACE_GROUP and ACE_EVERYONE are bits 12, 13 and 14,
   * and the principal mask is those three.
   */
  lemma AflagsBits(k: nat)
    ensures TestBit(ACE_IDENTIFIER_GROUP, k) <==> k == 6
    ensures TestBit(ACE_OWNER, k) <==> k == 12
    ensures TestBit(0x2040, k) <==> k == 6 || k == 13
    ensures TestBit(ACE_EVERYONE, k) <==> k == 14
    ensures TestBit(PRINCIPAL_MASK, k) <==> 12 <= k <= 14
  {
    Pow2Values();
    Pow2Bit(6, k);
    Pow2Bit(12, k);
    Pow2Bit(14, k);
    AddHighBit(Pow2(6), 13, k);
    AddHighBit(Pow2(12), 13, k);
    AddHighBit(Pow2(12) + Pow2(13), 14, k);
  }

  /** Bit k of the principal field of x. */
  lemma PrincipalFieldBit(x: nat, k: nat)
    ensures TestBit(And(x, PRINCIPAL_MASK), k) <==> 12 <= k <= 14 && TestBit(x, k)
  {
    AndBit(x, PRINCIPAL_MASK, k);
    AflagsBits(k);
  }

  /** The principal field of x is the single bit j exactly when j is its only principal bit. */
  lemma PrincipalIs(x: nat, j: nat)
    requires 12 <= j <= 14
    ensures And(x, PRINCIPAL_MASK) == Pow2(j) <==> OnlyPrincipal(x, j)
  {
    var f := And(x, PRINCIPAL_MASK);
    if OnlyPrincipal(x, j) {
      forall k: nat ensures TestBit(f, k) == TestBit(Pow2(j), k) {
        PrincipalFieldBit(x, k);
        Pow2Bit(j, k);
      }
      BitsEqual(f, Pow2(j));
    }
    if f == Pow2(j) {
      PrincipalFieldBit(x, 12);
      PrincipalFieldBit(x, 13);
      PrincipalFieldBit(x, 14);
      Pow2Bit(j, 12);
      Pow2Bit(j, 13);
      Pow2Bit(j, 14);
    }
  }

  /** Of the three principal bits, x has bit j and no other. */
  predicate OnlyPrincipal(x: nat, j: nat) {
    (TestBit(x, 12) <==> j == 12) && (TestBit(x, 13) <==> j == 13) && (TestBit(x, 14) <==> j == 14)
  }

  // ----- one entry -------------------------------------------------------------------

  /** The a_flags bits _gacl_entry_to_ace starts from, or None for a tag it does not support. */
  function PrincipalFlags(k: TagKind): Option<Half>
  {
    match k
    case UserObj => Some(ACE_OWNER)
    case GroupObj => Some(0x2040)  // ACE_GROUP|ACE_IDENTIFIER_GROUP
    case Everyone => Some(ACE_EVERYONE)
    case User => Some(0)
    case Group => Some(ACE_IDENTIFIER_GROUP)
    case _ => None
  }

  /** The bits of the principal flags lie in bit 6 and bits 12 to 14. */
  lemma PrincipalFlagsBits(kind: TagKind, k: nat)
    requires PrincipalFlags(kind).Some?
    ensures var p := PrincipalFlags(kind).value;
      TestBit(p, k) <==> ((k == 12 && kind == UserObj) || (k == 13 && kind == GroupObj)
        || (k == 14 && kind == Everyone) || (k == 6 && (kind == GroupObj || kind == Group)))
  {
    AflagsBits(k);
    ZeroBit(k);
  }

  /**
   * _gacl_entry_to_ace: the principal bits of the tag, ORed with the
   * generic flags and cut to 16 bits; the id, permissions and type copied
   * (the type cut to 16 bits). Any other tag fails with ENOSYS.
   */
  function ToAce(e: Entry): (r: Result<Ace>)
    ensures r.Err? <==> !(e.tag.kind in {UserObj, GroupObj, Everyone, User, Group})
    ensures r.Err? ==> r.error == NotSupported
    ensures r.Ok? ==> r.value.who == e.tag.ugid && r.value.accessMask == e.perms
    ensures r.Ok? ==> r.value.atype == e.etype % 0x10000
  {
    match PrincipalFlags(e.tag.kind)
    case None => Err(NotSupported)
    case Some(p) => Ok(Ace(e.tag.ugid, e.perms, Or(p, e.flags) % 0x10000, e.etype % 0x10000))
  }

  /** The tag kind _gacl_entry_from_ace reads from the flag bits. */
  function KindOfFlags(f: Half): TagKind
  {
    var p := And(f, PRINCIPAL_MASK);
    if p == ACE_OWNER then UserObj
    else if p == ACE_GROUP then GroupObj
    else if p == ACE_EVERYONE then Everyone
    else if HasBit(f, ACE_IDENTIFIER_GROUP) then Group
    else User
  }

  /**
   * _gacl_entry_from_ace: exactly one of the owner, group and everyone bits
   * gives the matching special tag with id -1; otherwise the identifier-group
   * bit chooses between a group and a user named by a_who. The flags keep
   * only the generic flag bits.
   */
  function FromAce(a: Ace, db: Directory): (e: Entry)
    ensures e.tag.kind == UserObj <==> TestBit(a.aflags, 12) && !TestBit(a.aflags, 13) && !TestBit(a.aflags, 14)
    ensures e.tag.kind == GroupObj <==> !TestBit(a.aflags, 12) && TestBit(a.aflags, 13) && !TestBit(a.aflags, 14)
    ensures e.tag.kind == Everyone <==> !TestBit(a.aflags, 12) && !TestBit(a.aflags, 13) && TestBit(a.aflags, 14)
    ensures e.tag.kind == Group || e.tag.kind == User ==> (e.tag.kind == Group <==> TestBit(a.aflags, 6))
    ensures e.tag.kind in {UserObj, GroupObj, Everyone, User, Group}
    ensures e.tag.ugid == (if e.tag.kind in {User, Group} then a.who else NO_ID)
    ensures e.tag.name == TagName(e.tag.kind, e.tag.ugid, db)
    ensures e.perms == a.accessMask && e.etype == a.atype
    ensures forall k: nat :: TestBit(e.flags, k) <==> TestBit(a.aflags, k) && k < 8 && k != 6
  {
    PrincipalIs(a.aflags, 12);
    PrincipalIs(a.aflags, 13);
    PrincipalIs(a.aflags, 14);
    assert Pow2(12) == ACE_OWNER && Pow2(13) == ACE_GROUP && Pow2(14) == ACE_EVERYONE;
    assert Pow2(6) == ACE_IDENTIFIER_GROUP;
    HasBitPow2(a.aflags, 6);
    assert forall k: nat :: TestBit(And(a.aflags, FLAGS_ALL), k) <==> TestBit(a.aflags, k) && k < 8 && k != 6 by {
      forall k: nat ensures TestBit(And(a.aflags, FLAGS_ALL), k) <==> TestBit(a.aflags, k) && k < 8 && k != 6 {
        AndBit(a.aflags, FLAGS_ALL, k);
        FlagsAllBits(k);
      }
    }
    var k := KindOfFlags(a.aflags);
    var id := if k == User || k == Group then a.who else NO_ID;
    Entry(Tag(k, id, TagName(k, id, db)), a.atype, And(a.aflags, FLAGS_ALL), a.accessMask)
  }

  /** A flag word with no bit outside the generic flags. */
  predicate FlagsOnly(f: Word) {
    And(f, FLAGS_ALL) == f
  }

  /** What reading back a written entry gives: the special tags lose their id, and names are looked up. */
  function Reread(e: Entry, db: Directory): Entry
  {
    var id := if e.tag.kind == User || e.tag.kind == Group then e.tag.ugid else NO_ID;
    Entry(Tag(e.tag.kind, id, TagName(e.tag.kind, id, db)), e.etype, e.flags, e.perms)
  }

  /** The bits of a written a_flags word: the principal bits of the tag beside the entry's flags. */
  lemma WrittenFlagBits(e: Entry, k: nat)
    requires ToAce(e).Ok? && FlagsOnly(e.flags)
    ensures TestBit(ToAce(e).value.aflags, k) <==> TestBit(PrincipalFlags(e.tag.kind).value, k) || TestBit(e.flags, k)
    ensures TestBit(e.flags, k) ==> k < 8 && k != 6
  {
    var p := PrincipalFlags(e.tag.kind).value;
    OrFlagBits(p, e.flags, k);
  }

  lemma OrFlagBits(p: Half, f: Word, k: nat)
    requires FlagsOnly(f)
    ensures TestBit(Or(p, f) % 0x10000, k) <==> TestBit(p, k) || TestBit(f, k)
    ensures TestBit(f, k) ==> k < 8 && k != 6
  {
    OrHalf(p, f);
    assert Or(p, f) % 0x10000 == Or(p, f);
    OrBit(p, f, k);
    FlagsOnlyBit(f, k);
  }

  lemma FlagsOnlyBit(f: Word, k: nat)
    requires FlagsOnly(f)
    ensures TestBit(f, k) ==> k < 8 && k != 6
  {
    AndBit(f, FLAGS_ALL, k);
    FlagsAllBits(k);
  }

  /** An OR of 16-bit values is a 16-bit value. */
  lemma OrHalf(p: Half, f: Word)
    requires f < 0x10000
    ensures Or(p, f) < 0x10000
  {
    Pow2Values();
    OrBelow(p, f, 16);
  }


  /**
   * An entry written with _gacl_entry_to_ace and read back with
   * _gacl_entry_from_ace keeps its tag kind, type, flags and permissions,
   * when its flags are generic flags and its type fits in 16 bits.
   */
  lemma WriteThenRead(e: Entry, db: Directory)
    requires ToAce(e).Ok? && FlagsOnly(e.flags) && e.etype < 0x10000
    ensures FromAce(ToAce(e).value, db) == Reread(e, db)
  {
    var a := ToAce(e).value;
    var r := FromAce(a, db);
    forall k: nat ensures TestBit(a.aflags, k) <==> TestBit(PrincipalFlags(e.tag.kind).value, k) || TestBit(e.flags, k) {
      WrittenFlagBits(e, k);
    }
    forall k: nat ensures TestBit(r.flags, k) == TestBit(e.flags, k) {
      WrittenFlagBits(e, k);
      PrincipalFlagsBits(e.tag.kind, k);
    }
    BitsEqual(r.flags, e.flags);
    PrincipalFlagsBits(e.tag.kind, 6);
    PrincipalFlagsBits(e.tag.kind, 12);
    PrincipalFlagsBits(e.tag.kind, 13);
    PrincipalFlagsBits(e.tag.kind, 14);
    WrittenFlagBits(e, 6);
    WrittenFlagBits(e, 12);
    WrittenFlagBits(e, 13);
    WrittenFlagBits(e, 14);
  }

  /** Reading, writing and reading again gives what the first read gave. */
  lemma ReadWriteRead(a: Ace, db: Directory)
    ensures ToAce(FromAce(a, db)).Ok?
    ensures FromAce(ToAce(FromAce(a, db)).value, db) == FromAce(a, db)
  {
    var e := FromAce(a, db);
    forall k: nat ensures TestBit(And(e.flags, FLAGS_ALL), k) == TestBit(e.flags, k) {
      AndBit(e.flags, FLAGS_ALL, k);
      FlagsAllBits(k);
    }
    BitsEqual(And(e.flags, FLAGS_ALL), e.flags);
    WriteThenRead(e, db);
  }

  // ----- symbolic links ----------------------------------------------------------------

  /**
   * The check both Solaris entry points make first: when a path is given
   * and links are not to be followed, a failing lstat fails the call and a
   * symbolic link is refused with ENOSYS. lstat is given as its outcome:
   * whether the path is a link, or the error.
   */
  function LinkRefusal(hasPath: bool, nofollow: bool, lstat: Result<bool>): (r: Option<Errno>)
    ensures r.Some? <==> hasPath && nofollow && (lstat.Err? || lstat.value)
    ensures r.Some? && lstat.Ok? ==> r.value == NotSupported
    ensures r.Some? && lstat.Err? ==> r.value == lstat.error
  {
    if hasPath && nofollow then
      match lstat
      case Err(x) => Some(x)
      case Ok(isLink) => if isLink then Some(NotSupported) else None
    else None
  }

  // ----- whole ACLs ----------------------------------------------------------------------

  /** Every ace converted; reading never fails. */
  function AllFromAce(aces: seq<Ace>, db: Directory): (r: seq<Entry>)
    ensures |r| == |aces| && forall i :: 0 <= i < |aces| ==> r[i] == FromAce(aces[i], db)
  {
    seq(|aces|, i requires 0 <= i < |aces| => FromAce(aces[i], db))
  }

  /** Every entry converted, or ENOSYS when one has a tag Solaris does not support. */
  function AllToAce(es: seq<Entry>): (r: Result<seq<Ace>>)
    ensures r.Ok? <==> forall i :: 0 <= i < |es| ==> ToAce(es[i]).Ok?
    ensures r.Ok? ==> |r.value| == |es| && forall i :: 0 <= i < |es| ==> r.value[i] == ToAce(es[i]).value
    ensures r.Err? ==> r.error == NotSupported
  {
    if forall i :: 0 <= i < |es| ==> ToAce(es[i]).Ok? then
      Ok(seq(|es|, i requires 0 <= i < |es| && ToAce(es[i]).Ok? => ToAce(es[i]).value))
    else Err(NotSupported)
  }

  /** The contents of a freshly allocated, zero-filled entry. */
  const BLANK: Entry := Entry(Tag(Unknown, 0, ""), 0, 0, 0)

  /**
   * _gacl_get_fd_file: after the link check, TypeNone gives an empty ACL,
   * TypeNfs4 fetches the aces (the fetch is given as its outcome) and fills
   * slot i of an ACL of that many entries from ace i, and every other type
   * fails with ENOSYS.
   */
  method GetAcl(hasPath: bool, nofollow: bool, lstat: Result<bool>, t: AclType,
                fetched: Result<seq<Ace>>, db: Directory) returns (r: Result<Acl>)
    ensures LinkRefusal(hasPath, nofollow, lstat).Some? ==> r == Err(LinkRefusal(hasPath, nofollow, lstat).value)
    ensures LinkRefusal(hasPath, nofollow, lstat).None? ==>
      match t
      case TypeNone => r.Ok? && r.value.entries == []
      case TypeNfs4 =>
        (fetched.Err? ==> r == Err(fetched.error)) &&
        (fetched.Ok? ==> r.Ok? && r.value.aclType == TypeNfs4 && r.value.entries == AllFromAce(fetched.value, db))
      case _ => r == Err(NotSupported)
    ensures r.Ok? ==> fresh(r.value) && r.value.Valid()
  {
    var refusal := LinkRefusal(hasPath, nofollow, lstat);
    if refusal.Some? {
      return Err(refusal.value);
    }
    if t == TypeNone {
      var acl := new Acl.Init(TypeNone);
      return Ok(acl);
    } else if t == TypeNfs4 {
        if fetched.Err? {
          return Err(fetched.error);
        }
        var aces := fetched.value;
        var n := |aces|;
        var acl := new Acl.Init(t);
        acl.entries := seq(n, _ => BLANK);
        var i := 0;
        while i < n
          invariant 0 <= i <= n
          invariant acl.aclType == TypeNfs4 && acl.cursor == 0 && |acl.entries| == n
          invariant forall k :: 0 <= k < i ==> acl.entries[k] == FromAce(aces[k], db)
        {
          acl.entries := acl.entries[i := FromAce(aces[i], db)];
          i := i + 1;
        }
        return Ok(acl);
    } else {
      return Err(NotSupported);
    }
  }

  /**
   * _gacl_set_fd_file: after the link check, TypeNone fails with ENOSYS,
   * TypeNfs4 fills an array of aces from the entries in order and gives it
   * to be stored, failing when an entry cannot be converted, and every
   * other type fails with EINVAL.
   */
  method SetAcl(hasPath: bool, nofollow: bool, lstat: Result<bool>, t: AclType, acl: Acl)
    returns (r: Result<seq<Ace>>)
    ensures LinkRefusal(hasPath, nofollow, lstat).Some? ==> r == Err(LinkRefusal(hasPath, nofollow, lstat).value)
    ensures LinkRefusal(hasPath, nofollow, lstat).None? ==>
      r == match t
        case TypeNone => Err(NotSupported)
        case TypeNfs4 => AllToAce(acl.entries)
        case _ => Err(InvalidArgument)
  {
    var refusal := LinkRefusal(hasPath, nofollow, lstat);
    if refusal.Some? {
      return Err(refusal.value);
    }
    if t == TypeNone {
      return Err(NotSupported);
    } else if t == TypeNfs4 {
        var es := acl.entries;
        var acp := new Ace[|es|];
        var i := 0;
        while i < |es|
          invariant 0 <= i <= |es|
          invariant forall k :: 0 <= k < i ==> ToAce(es[k]).Ok? && acp[k] == ToAce(es[k]).value
        {
          var a := ToAce(es[i]);
          if a.Err? {
            return Err(a.error);
          }
          acp[i] := a.value;
          i := i + 1;
        }
        assert acp[..] == AllToAce(es).value;
        return Ok(acp[..]);
    } else {
      return Err(InvalidArgument);
    }
  }

  /** Storing an ACL that was read succeeds, and reading the stored aces gives the ACL that was read. */
  lemma AclReadWriteRead(aces: seq<Ace>, db: Directory)
    ensures AllToAce(AllFromAce(aces, db)).Ok?
    ensures AllFromAce(AllToAce(AllFromAce(aces, db)).value, db) == AllFromAce(aces, db)
  {
    forall i | 0 <= i < |aces| ensures ToAce(FromAce(aces[i], db)).Ok? {
      ReadWriteRead(aces[i], db);
    }
    var es := AllFromAce(aces, db);
    var back := AllFromAce(AllToAce(es).value, db);
    forall i | 0 <= i < |aces| ensures back[i] == es[i] {
      ReadWriteRead(aces[i], db);
    }
  }
}
