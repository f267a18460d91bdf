/*
 * The generic ACL: entries with a tag (who), a type (allow/deny/audit/alarm),
 * a flag word and a permission word, held in order by an ACL object with a
 * FIRST/NEXT cursor. The bit values are the NFSv4 ones (RFC 7530, section
 * 6.2.1), because the Linux codec stores these words verbatim in the
 * "system.nfs4_acl" attribute.
 */
module Gacl {
  import opened Base
  import opened Bits

  /** Who an entry applies to. */
  datatype TagKind = UserObj | User | GroupObj | Group | Mask | Other | Everyone | Unknown

  /** A tag: its kind, a numeric id (NO_ID when there is none) and a display name. */
  datatype Tag = Tag(kind: TagKind, ugid: Id, name: string)

  datatype Entry = Entry(tag: Tag, etype: Word, flags: Word, perms: Word)

  datatype AclType = TypeNone | TypeAccess | TypeDefault | TypeNfs4

  // ----- entry types ---------------------------------------------------------

  const TYPE_ALLOW: Word := 0
  const TYPE_DENY: Word := 1
  const TYPE_AUDIT: Word := 2
  const TYPE_ALARM: Word := 3
  /** gacl.h is not part of this model; any value outside 0..3 would do. */
  const TYPE_UNDEFINED: Word := 4

  predicate IsListedType(t: Word) {
    t == TYPE_ALLOW || t == TYPE_DENY || t == TYPE_AUDIT || t == TYPE_ALARM
  }

  // ----- permission bits -----------------------------------------------------

  const PERM_READ_DATA: Word := 0x0000_0001
  const PERM_WRITE_DATA: Word := 0x0000_0002
  const PERM_APPEND_DATA: Word := 0x0000_0004
  const PERM_READ_NAMED_ATTRS: Word := 0x0000_0008
  const PERM_WRITE_NAMED_ATTRS: Word := 0x0000_0010
  const PERM_EXECUTE: Word := 0x0000_0020
  const PERM_DELETE_CHILD: Word := 0x0000_0040
  const PERM_READ_ATTRIBUTES: Word := 0x0000_0080
  const PERM_WRITE_ATTRIBUTES: Word := 0x0000_0100
  const PERM_DELETE: Word := 0x0001_0000
  const PERM_READ_ACL: Word := 0x0002_0000
  const PERM_WRITE_ACL: Word := 0x0004_0000
  const PERM_WRITE_OWNER: Word := 0x0008_0000
  const PERM_SYNCHRONIZE: Word := 0x0010_0000

  /** The fourteen permission bits together. */
  const PERMS_ALL: Word := 0x001F_01FF

  /** The bits of PERMS_ALL: bits 0 to 8 and 16 to 20. */
  lemma PermsAllBits(k: nat)
    ensures TestBit(PERMS_ALL, k) <==> k <= 8 || 16 <= k <= 20
  {
    if k >= 21 {
      Pow2Values();
      HighBitClear(PERMS_ALL, 21, k);
    } else if k >= 8 {
      ShiftBit(PERMS_ALL, 8, k - 8);
      PermsAllShifted();
      PermsAllHighBits(k - 8);
    } else {
      if k == 0 {
        assert TestBit(0x1f01ff, 0);
      } else if k == 1 {
        assert TestBit(0x1f01ff, 1);
      } else if k == 2 {
        assert TestBit(0x1f01ff, 2);
      } else if k == 3 {
        assert TestBit(0x1f01ff, 3);
      } else if k == 4 {
        assert TestBit(0x1f01ff, 4);
      } else if k == 5 {
        assert TestBit(0x1f01ff, 5);
      } else if k == 6 {
        assert TestBit(0x1f01ff, 6);
      } else if k == 7 {
        assert TestBit(0x1f01ff, 7);
      }
    }
  }

  lemma PermsAllShifted()
    ensures Shr(PERMS_ALL, 8) == 0x1F01
  {
  }

  lemma PermsAllHighBits(k: nat)
    requires k < 13
    ensures TestBit(0x1F01, k) <==> k == 0 || 8 <= k
  {
    if k == 0 {
      assert TestBit(0x1f01, 0);
    } else if k == 1 {
      assert !TestBit(0x1f01, 1);
    } else if k == 2 {
      assert !TestBit(0x1f01, 2);
    } else if k == 3 {
      assert !TestBit(0x1f01, 3);
    } else if k == 4 {
      assert !TestBit(0x1f01, 4);
    } else if k == 5 {
      assert !TestBit(0x1f01, 5);
    } else if k == 6 {
      assert !TestBit(0x1f01, 6);
    } else if k == 7 {
      assert !TestBit(0x1f01, 7);
    } else if k == 8 {
      assert TestBit(0x1f01, 8);
    } else if k == 9 {
      assert TestBit(0x1f01, 9);
    } else if k == 10 {
      assert TestBit(0x1f01, 10);
    } else if k == 11 {
      assert TestBit(0x1f01, 11);
    } else if k == 12 {
      assert TestBit(0x1f01, 12);
    }
  }

  // ----- flag bits -----------------------------------------------------------

  const FLAG_FILE_INHERIT: Word := 0x01
  const FLAG_DIRECTORY_INHERIT: Word := 0x02
  const FLAG_NO_PROPAGATE_INHERIT: Word := 0x04
  const FLAG_INHERIT_ONLY: Word := 0x08
  const FLAG_SUCCESSFUL_ACCESS: Word := 0x10
  const FLAG_FAILED_ACCESS: Word := 0x20
  /** ACE4_IDENTIFIER_GROUP: the "who" of the entry names a group. */
  const FLAG_IDENTIFIER_GROUP: Word := 0x40
  const FLAG_INHERITED: Word := 0x80

  /** The seven inheritance and audit flags (the identifier-group bit is not one of them). */
  const FLAGS_ALL: Word := 0xBF

  /** The bits of FLAGS_ALL: bits 0 to 7 except the identifier-group bit 6. */
  lemma FlagsAllBits(k: nat)
    ensures TestBit(FLAGS_ALL, k) <==> k < 8 && k != 6
  {
    if k >= 8 {
      assert Pow2(8) == 0x100;
      HighBitClear(FLAGS_ALL, 8, k);
    } else {
      assert k == 0 || k == 1 || k == 2 || k == 3 || k == 4 || k == 5 || k == 6 || k == 7;
    }
  }

  /** The flag bit the NFSv4 encoding adds for a tag. */
  function GroupBit(k: TagKind): (w: Word)
    ensures w == 0 || w == FLAG_IDENTIFIER_GROUP
    ensures w != 0 <==> k == Group || k == GroupObj
  {
    if k == Group || k == GroupObj then FLAG_IDENTIFIER_GROUP else 0
  }

  // ----- display names --------------------------------------------------------

  /** The name a back end gives a tag it reads: the fixed "who" names, or the
   *  account or group name, or the id printed with "%d" when there is none. */
  function TagName(k: TagKind, id: Id, db: Directory): string
  {
    match k
    case UserObj => "owner@"
    case GroupObj => "group@"
    case Everyone => "everyone@"
    case User => if id in db.pwuid then db.pwuid[id] else SignedDecimal(id)
    case Group => if id in db.grgid then db.grgid[id] else SignedDecimal(id)
    case _ => ""
  }

  // ----- the ACL container ---------------------------------------------------

  /** The result of inserting e at index in es, with -1 meaning "at the end". */
  function Inserted(es: seq<Entry>, index: int, e: Entry): (r: seq<Entry>)
    requires index == -1 || 0 <= index <= |es|
    ensures |r| == |es| + 1
    ensures var k := if index == -1 then |es| else index;
      r[k] == e && r[..k] == es[..k] && r[k + 1..] == es[k..]
  {
    var k := if index == -1 then |es| else index;
    es[..k] + [e] + es[k..]
  }

  /** Inserting at the end, or at index |es|, appends. */
  lemma InsertedAtEnd(es: seq<Entry>, e: Entry)
    ensures Inserted(es, |es|, e) == es + [e] && Inserted(es, -1, e) == es + [e]
  {
    assert es[..|es|] == es && es[|es|..] == [];
  }

  /**
   * A generic ACL: its type, its entries in evaluation order, and the
   * position of the FIRST/NEXT cursor.
   */
  class Acl {
    var aclType: AclType
    var entries: seq<Entry>
    var cursor: nat

    ghost predicate Valid()
      reads this
    {
      cursor <= |entries|
    }

    /** gacl_init: an empty ACL. */
    constructor Init(t: AclType)
      ensures Valid() && aclType == t && entries == [] && cursor == 0
    {
      aclType := t;
      entries := [];
      cursor := 0;
    }

    /**
     * gacl_create_entry_np: put e at index (-1 appends). Existing entries
     * keep their order; an index out of range fails and changes nothing.
     */
    method CreateEntry(index: int, e: Entry) returns (rc: int)
      requires Valid()
      modifies this`entries
      ensures Valid()
      ensures rc == 0 <==> index == -1 || 0 <= index <= |old(entries)|
      ensures rc == 0 || rc == -1
      ensures rc == 0 ==> entries == Inserted(old(entries), index, e)
      ensures rc == -1 ==> entries == old(entries)
    {
      if index == -1 || 0 <= index <= |entries| {
        entries := Inserted(entries, index, e);
        rc := 0;
      } else {
        rc := -1;
      }
    }

    /**
     * gacl_get_entry: FIRST rewinds the cursor; the call then returns the
     * entry under the cursor and moves past it, or None at the end.
     */
    method GetEntry(first: bool) returns (e: Option<Entry>)
      requires Valid()
      modifies this`cursor
      ensures Valid()
      ensures var at := if first then 0 else old(cursor);
        if at < |entries| then e == Some(entries[at]) && cursor == at + 1
        else e == None && cursor == at
    {
      var at := if first then 0 else cursor;
      if at < |entries| {
        e := Some(entries[at]);
        cursor := at + 1;
      } else {
        e := None;
        cursor := at;
      }
    }
  }
}
