/*
 * Whole-entry text: the "principal:perms:flags:type" line of ace2str, the
 * Samba "ACL:name:KIND/flags/perms<TAB>letters" line of ace2str_samba and
 * the icacls "name:(flags)(perms)" line of ace2str_icacls, and the cursor
 * that writes a line into a caller's buffer of rsize characters. Account and
 * group names come from the Directory maps; the owner and group of the file
 * (st_uid, st_gid of its stat) are parameters.
 */
module AceFormat {
  import opened Base
  import opened Bits
  import opened Gacl
  import opened Render

  // ----- aet2str -------------------------------------------------------------------

  /** aet2str: the name of a listed entry type; NULL (None) for any other. */
  function TypeName(t: Word): (r: Option<string>)
    ensures r.Some? <==> IsListedType(t)
    ensures r.Some? ==> ':' !in r.value
  {
    if t == TYPE_ALLOW then Some("allow")
    else if t == TYPE_DENY then Some("deny")
    else if t == TYPE_AUDIT then Some("audit")
    else if t == TYPE_ALARM then Some("alarm")
    else None
  }

  /** Different listed types have different names. */
  lemma TypeNameInjective(a: Word, b: Word)
    requires TypeName(a).Some? && TypeName(a) == TypeName(b)
    ensures a == b
  {
  }

  // ----- ace2str ---------------------------------------------------------------------

  /** The principal ace2str prints for a tag; None for a tag it rejects with EINVAL. */
  function Principal(t: Tag, db: Directory): (r: Option<string>)
    ensures r.None? <==> t.kind == Unknown
  {
    match t.kind
    case User => Some("u:" + (if t.ugid in db.pwuid then db.pwuid[t.ugid] else Decimal(t.ugid)))
    case Group => Some("g:" + (if t.ugid in db.grgid then db.grgid[t.ugid] else Decimal(t.ugid)))
    case UserObj => Some("owner@")
    case GroupObj => Some("group@")
    case Mask => Some("mask@")
    case Other => Some("other@")
    case Everyone => Some("everyone@")
    case Unknown => None
  }

  /** Different kinds of tag never print the same principal. */
  lemma PrincipalKind(a: Tag, b: Tag, db: Directory)
    requires Principal(a, db).Some? && Principal(a, db) == Principal(b, db)
    ensures a.kind == b.kind
  {
    var p := Principal(a, db).value;
    assert p[0] == Principal(b, db).value[0];
    if a.kind == User || a.kind == Group || b.kind == User || b.kind == Group {
      assert p[1] == Principal(b, db).value[1];
    }
  }

  /** What ace2str writes after the principal. */
  function AceTail(e: Entry): string
    requires IsListedType(e.etype)
  {
    ":" + PermString(e.perms) + ":" + FlagString(e.flags) + ":" + TypeName(e.etype).value
  }

  /**
   * ace2str: the principal, the fourteen permission letters, the seven flag
   * letters and the type name, separated by ':'. A tag ace2str does not know
   * is EINVAL. The source copies aet2str's result with strcpy, so an entry
   * of an unlisted type is outside what it can print.
   */
  function AceText(e: Entry, db: Directory): (r: Result<string>)
    requires e.tag.kind != Unknown ==> IsListedType(e.etype)
    ensures r.Err? <==> e.tag.kind == Unknown
    ensures r.Err? ==> r.error == InvalidArgument
  {
    match Principal(e.tag, db)
    case None => Err(InvalidArgument)
    case Some(h) => Ok(h + AceTail(e))
  }

  /** The fields of h:P:F:N are found again by counting from the last ':'. */
  lemma TailFields(h: string, p: string, f: string, n: string)
    requires |p| == 14 && |f| == 7 && ':' !in n
    ensures var t := h + ":" + p + ":" + f + ":" + n;
      LastIndex(t, ':') == |t| - |n| - 1 &&
      t[|t| - |n|..] == n &&
      t[|t| - |n| - 8..|t| - |n| - 1] == f &&
      t[|t| - |n| - 23..|t| - |n| - 9] == p &&
      t[..|t| - |n| - 24] == h
  {
    var t := h + ":" + p + ":" + f + ":" + n;
    var front := h + ":" + p + ":" + f;
    assert t == front + [':'] + n;
    LastIndexAfter(front, ':', n);
  }

  /** The ace2str line is principal:letters:letters:name. */
  lemma AceTextShape(e: Entry, db: Directory)
    requires e.tag.kind != Unknown && IsListedType(e.etype)
    ensures AceText(e, db).value == Principal(e.tag, db).value + ":" + PermString(e.perms) + ":"
      + FlagString(e.flags) + ":" + TypeName(e.etype).value
  {
    var h := Principal(e.tag, db).value;
    Regroup(h, PermString(e.perms), FlagString(e.flags), TypeName(e.etype).value);
  }

  lemma Regroup(h: string, p: string, f: string, n: string)
    ensures h + (":" + p + ":" + f + ":" + n) == h + ":" + p + ":" + f + ":" + n
  {
  }

  /** Two h:P:F:N lines that are equal agree field by field. */
  lemma FieldsDetermine(ha: string, pa: string, fa: string, na: string,
                        hb: string, pb: string, fb: string, nb: string)
    requires |pa| == 14 && |fa| == 7 && ':' !in na
    requires |pb| == 14 && |fb| == 7 && ':' !in nb
    requires ha + ":" + pa + ":" + fa + ":" + na == hb + ":" + pb + ":" + fb + ":" + nb
    ensures ha == hb && pa == pb && fa == fb && na == nb
  {
    TailFields(ha, pa, fa, na);
    TailFields(hb, pb, fb, nb);
  }

  /**
   * The ace2str line determines the entry's kind of tag, its type, and its
   * permission and flag bits (the fourteen and the seven that have letters).
   */
  lemma AceTextDetermines(a: Entry, b: Entry, db: Directory)
    requires a.tag.kind != Unknown && IsListedType(a.etype)
    requires b.tag.kind != Unknown && IsListedType(b.etype)
    requires AceText(a, db) == AceText(b, db)
    ensures a.tag.kind == b.tag.kind && a.etype == b.etype
    ensures And(a.perms, PERMS_ALL) == And(b.perms, PERMS_ALL)
    ensures And(a.flags, FLAGS_ALL) == And(b.flags, FLAGS_ALL)
  {
    var ha, hb := Principal(a.tag, db).value, Principal(b.tag, db).value;
    var pa, pb := PermString(a.perms), PermString(b.perms);
    var fa, fb := FlagString(a.flags), FlagString(b.flags);
    var na, nb := TypeName(a.etype).value, TypeName(b.etype).value;
    AceTextShape(a, db);
    AceTextShape(b, db);
    FieldsDetermine(ha, pa, fa, na, hb, pb, fb, nb);
    TypeNameInjective(a.etype, b.etype);
    PermStringSame(a.perms, b.perms);
    FlagStringSame(a.flags, b.flags);
    PrincipalKind(a.tag, b.tag, db);
  }

  // ----- ace2str_samba -------------------------------------------------------------------

  /**
   * The "ACL:...:" header of ace2str_samba. A user whose name is also a
   * group name is marked "(user)", a group whose name is also a user name
   * "(group)"; an unnamed id is printed with "%u" and marked when the other
   * database has an entry for the same number. The file's owning group is
   * "GROUP=name" in the clashing case and "GID=n" when unnamed.
   */
  function SambaHeader(t: Tag, owner: Id, group: Id, db: Directory): (r: Option<string>)
    ensures r.None? <==> t.kind == Unknown
    ensures r.Some? ==> 4 < |r.value|
  {
    match t.kind
    case User =>
      if t.ugid in db.pwuid then
        var n := db.pwuid[t.ugid];
        Some("ACL:" + n + (if n in db.grnam then "(user)" else "") + ":")
      else Some("ACL:" + Decimal(t.ugid) + (if t.ugid in db.grgid then "(user)" else "") + ":")
    case Group =>
      if t.ugid in db.grgid then
        var n := db.grgid[t.ugid];
        Some("ACL:" + n + (if n in db.pwnam then "(group)" else "") + ":")
      else Some("ACL:" + Decimal(t.ugid) + (if t.ugid in db.pwuid then "(group)" else "") + ":")
    case UserObj =>
      if owner in db.pwuid then Some("ACL:" + db.pwuid[owner] + ":")
      else Some("ACL:" + Decimal(owner) + ":")
    case GroupObj =>
      if group in db.grgid then
        var n := db.grgid[group];
        if n in db.pwnam then Some("ACL:GROUP=" + n + ":") else Some("ACL:" + n + ":")
      else Some("ACL:GID=" + Decimal(group) + ":")
    case Mask => Some("ACL:mask@:")
    case Other => Some("ACL:Everyone:")
    case Everyone => Some("ACL:Everyone:")
    case Unknown => None
  }

  /** The kind word of ace2str_samba; a deny entry is printed as "ALLOWED/" too. */
  function SambaKind(t: Word): (r: Option<string>)
    ensures r.Some? <==> IsListedType(t)
    ensures r.Some? ==> |r.value| > 0 && r.value[|r.value| - 1] == '/'
  {
    if t == TYPE_ALLOW then Some("ALLOWED/")
    else if t == TYPE_DENY then Some("ALLOWED/")
    else if t == TYPE_AUDIT then Some("AUDIT/")
    else if t == TYPE_ALARM then Some("ALARM/")
    else None
  }

  /**
   * ace2str_samba: header, kind, Samba flags, '/', Samba permissions, a tab
   * and the fourteen permission letters. An unknown tag is EINVAL; an
   * undefined type returns NULL without setting errno, and so does any
   * other type outside the four listed ones (the source has no case for
   * those; see SambaAsWritten).
   */
  function AceSambaText(e: Entry, owner: Id, group: Id, db: Directory): (r: Result<string>)
    ensures e.tag.kind == Unknown ==> r == Err(InvalidArgument)
    ensures e.tag.kind != Unknown && !IsListedType(e.etype) ==> r == Err(NoErrno)
    ensures r.Ok? <==> e.tag.kind != Unknown && IsListedType(e.etype)
  {
    match SambaHeader(e.tag, owner, group, db)
    case None => Err(InvalidArgument)
    case Some(h) =>
      match SambaKind(e.etype)
      case None => Err(NoErrno)
      case Some(k) =>
        Ok(h + k + SambaFlags(e.flags) + "/" + SambaPerms(e.perms) + "\t" + PermString(e.perms))
  }

  /**
   * Where ace2str_samba as written puts the pieces of a line in the buffer:
   * the header at the start, followed by the NUL snprintf writes after it,
   * and the rest of the line from position restAt on.
   */
  datatype SambaWrites = SambaWrites(header: string, restAt: nat, rest: string)

  /**
   * The string returned, read from the start of the buffer: the rest of the
   * line continues it only when it starts on the header's NUL.
   */
  function SambaReturned(w: SambaWrites): string {
    if w.restAt == |w.header| then w.header + w.rest else w.header
  }

  /**
   * ace2str_samba as written (misc.c:458-475). The switch on the entry type
   * has no default case, so for a type outside the enumeration rc still
   * holds the header's length and the cursor is moved past the header a
   * second time: the rest of the line is written there, and the call
   * succeeds with the header alone as its string.
   */
  function SambaAsWritten(e: Entry, owner: Id, group: Id, db: Directory): (r: Result<SambaWrites>)
    ensures r.Ok? <==> e.tag.kind != Unknown && e.etype != TYPE_UNDEFINED
    ensures r.Ok? && IsListedType(e.etype) ==> r.value.restAt == |r.value.header|
    ensures r.Ok? && !IsListedType(e.etype) ==>
      r.value.restAt == 2 * |r.value.header| && SambaReturned(r.value) == r.value.header
  {
    match SambaHeader(e.tag, owner, group, db)
    case None => Err(InvalidArgument)
    case Some(h) =>
      if e.etype == TYPE_UNDEFINED then Err(NoErrno)
      else
        var tail := SambaFlags(e.flags) + "/" + SambaPerms(e.perms) + "\t" + PermString(e.perms);
        match SambaKind(e.etype)
        case Some(k) => Ok(SambaWrites(h, |h|, k + tail))
        case None => Ok(SambaWrites(h, 2 * |h|, tail))
  }

  /** For the four listed types, the line as written is the line AceSambaText gives. */
  lemma SambaAsWrittenListed(e: Entry, owner: Id, group: Id, db: Directory)
    requires e.tag.kind != Unknown && IsListedType(e.etype)
    ensures SambaAsWritten(e, owner, group, db).Ok?
    ensures Ok(SambaReturned(SambaAsWritten(e, owner, group, db).value)) == AceSambaText(e, owner, group, db)
  {
    SambaRegroup(SambaHeader(e.tag, owner, group, db).value, SambaKind(e.etype).value,
                 SambaFlags(e.flags), SambaPerms(e.perms), PermString(e.perms));
  }

  lemma SambaRegroup(h: string, k: string, f: string, p: string, l: string)
    ensures h + (k + (f + "/" + p + "\t" + l)) == h + k + f + "/" + p + "\t" + l
  {
  }

  /**
   * As written, an everyone@ entry of type 7, a type word the Linux decoder
   * passes through from the wire, is accepted: the rest of its line starts
   * 26 characters into the buffer, 12 characters after the NUL that ends the
   * 13-character header, and the string returned is the header alone. The
   * corrected formatter refuses the entry.
   */
  lemma UnlistedTypeSkipsAhead()
    ensures var e := Entry(Tag(Everyone, NO_ID, "everyone@"), 7, 0, 0);
      var db := Directory(map[], map[], map[], map[]);
      var w := SambaAsWritten(e, 0, 0, db);
      && w.Ok? && w.value.header == "ACL:Everyone:" && w.value.restAt == 26
      && SambaReturned(w.value) == "ACL:Everyone:"
      && AceSambaText(e, 0, 0, db) == Err(NoErrno)
  {
    var e := Entry(Tag(Everyone, NO_ID, "everyone@"), 7, 0, 0);
    var db := Directory(map[], map[], map[], map[]);
    assert SambaHeader(e.tag, 0, 0, db) == Some("ACL:Everyone:");
    assert SambaKind(7).None?;
  }

  /** The Samba line cannot tell an allow entry from a deny entry. */
  lemma SambaDenyShownAsAllow(e: Entry, owner: Id, group: Id, db: Directory)
    requires e.etype == TYPE_DENY
    ensures AceSambaText(e, owner, group, db) == AceSambaText(e.(etype := TYPE_ALLOW), owner, group, db)
  {
  }

  /** No token joined into a Samba or icacls string contains c. */
  lemma {:induction false} JoinFree(ts: seq<string>, sep: char, c: char)
    requires c != sep && forall i :: 0 <= i < |ts| ==> c !in ts[i]
    ensures c !in Join(ts, sep)
    decreases |ts|
  {
    if |ts| > 1 {
      JoinFree(ts[..|ts| - 1], sep, c);
    }
  }

  /** No Windows abbreviation contains a '/'. */
  lemma AbbreviationsNoSlash()
    ensures forall i :: 0 <= i < |P2C_WINDOWS| ==> '/' !in P2C_WINDOWS[i].native
    ensures forall i :: 0 <= i < |F2C_WINDOWS| ==> '/' !in F2C_WINDOWS[i].native
  {
    forall i | 0 <= i < |P2C_WINDOWS| ensures '/' !in P2C_WINDOWS[i].native {
      if i == 0 {} else if i == 1 {} else if i == 2 {} else if i == 3 {} else if i == 4 {} else if i == 5 {} else if i == 6 {}
      else if i == 7 {} else if i == 8 {} else if i == 9 {} else if i == 10 {} else if i == 11 {} else if i == 12 {} else {}
    }
    forall i | 0 <= i < |F2C_WINDOWS| ensures '/' !in F2C_WINDOWS[i].native {
      if i == 0 {} else if i == 1 {} else if i == 2 {} else if i == 3 {} else if i == 4 {} else if i == 5 {} else {}
    }
  }

  /** No '/' appears in the Samba permission or flag string. */
  lemma SambaNoSlash(perms: Word, flags: Word)
    ensures '/' !in SambaPerms(perms) && '/' !in SambaFlags(flags)
  {
    AbbreviationsNoSlash();
    var ps := Tokens(P2C_WINDOWS, perms, |P2C_WINDOWS|);
    forall i | 0 <= i < |ps| ensures '/' !in ps[i] {
      assert ps[i] in ps;
    }
    JoinFree(ps, '|', '/');
    var fs := Tokens(F2C_WINDOWS, flags, |F2C_WINDOWS|);
    forall i | 0 <= i < |fs| ensures '/' !in fs[i] {
      assert fs[i] in fs;
    }
    JoinFree(fs, '|', '/');
  }

  /** The fields of h k F/P<TAB>L are found again from the end of the line. */
  lemma SambaFields(h: string, k: string, f: string, p: string, l: string)
    requires |k| > 0 && k[|k| - 1] == '/' && '/' !in f && '/' !in p && |l| == 14
    ensures var t := h + k + f + "/" + p + "\t" + l;
      var u := t[..|t| - 15];
      var j := LastIndex(u, '/');
      0 <= j && u[j + 1..] == p &&
      var v := u[..j];
      var i := LastIndex(v, '/');
      0 <= i && v[i + 1..] == f && t[|t| - 14..] == l
  {
    var t := h + k + f + "/" + p + "\t" + l;
    var u := h + k + f + "/" + p;
    assert t[..|t| - 15] == u;
    assert u == (h + k + f) + ['/'] + p;
    LastIndexAfter(h + k + f, '/', p);
    var v := h + k + f;
    assert u[..|v|] == v && u[|v| + 1..] == p;
    assert v == (h + k[..|k| - 1]) + ['/'] + f;
    LastIndexAfter(h + k[..|k| - 1], '/', f);
  }

  /** Two Samba lines that are equal have the same flag string and the same letters. */
  lemma SambaFieldsDetermine(ha: string, ka: string, fa: string, pa: string, la: string,
                             hb: string, kb: string, fb: string, pb: string, lb: string)
    requires |ka| > 0 && ka[|ka| - 1] == '/' && '/' !in fa && '/' !in pa && |la| == 14
    requires |kb| > 0 && kb[|kb| - 1] == '/' && '/' !in fb && '/' !in pb && |lb| == 14
    requires ha + ka + fa + "/" + pa + "\t" + la == hb + kb + fb + "/" + pb + "\t" + lb
    ensures fa == fb && la == lb
  {
    SambaFields(ha, ka, fa, pa, la);
    SambaFields(hb, kb, fb, pb, lb);
  }

  /**
   * The Samba line determines the entry's permission bits and flag bits,
   * but not whether it allows or denies.
   */
  lemma SambaTextDetermines(a: Entry, b: Entry, owner: Id, group: Id, db: Directory)
    requires AceSambaText(a, owner, group, db).Ok?
    requires AceSambaText(a, owner, group, db) == AceSambaText(b, owner, group, db)
    ensures And(a.perms, PERMS_ALL) == And(b.perms, PERMS_ALL)
    ensures And(a.flags, FLAGS_ALL) == And(b.flags, FLAGS_ALL)
  {
    var ha, hb := SambaHeader(a.tag, owner, group, db).value, SambaHeader(b.tag, owner, group, db).value;
    var ka, kb := SambaKind(a.etype).value, SambaKind(b.etype).value;
    var fa, fb := SambaFlags(a.flags), SambaFlags(b.flags);
    var pa, pb := SambaPerms(a.perms), SambaPerms(b.perms);
    var la, lb := PermString(a.perms), PermString(b.perms);
    assert AceSambaText(a, owner, group, db).value == ha + ka + fa + "/" + pa + "\t" + la;
    assert AceSambaText(b, owner, group, db).value == hb + kb + fb + "/" + pb + "\t" + lb;
    SambaNoSlash(a.perms, a.flags);
    SambaNoSlash(b.perms, b.flags);
    SambaFieldsDetermine(ha, ka, fa, pa, la, hb, kb, fb, pb, lb);
    PermStringSame(a.perms, b.perms);
    SambaFlagsReadBack(a.flags);
    SambaFlagsReadBack(b.flags);
  }

  // ----- ace2str_icacls --------------------------------------------------------------------

  /** The "name:" header of ace2str_icacls. */
  function IcaclsHeader(t: Tag, owner: Id, group: Id, db: Directory): (r: Option<string>)
    ensures r.None? <==> t.kind == Unknown
  {
    match t.kind
    case User =>
      if t.ugid in db.pwuid then Some(db.pwuid[t.ugid] + ":") else Some(Decimal(t.ugid) + ":")
    case Group => GroupHeader(t.ugid, db)
    case UserObj =>
      if owner in db.pwuid then Some(db.pwuid[owner] + ":") else Some(Decimal(owner) + ":")
    case GroupObj => GroupHeader(group, db)
    case Mask => Some("mask@:")
    case Other => Some("Everyone:")
    case Everyone => Some("Everyone:")
    case Unknown => None
  }

  /** A group in ace2str_icacls: "GROUP=name:" when a user has the same name, "name:", or "GID=n:". */
  function GroupHeader(gid: Id, db: Directory): Option<string> {
    if gid in db.grgid then
      var n := db.grgid[gid];
      if n in db.pwnam then Some("GROUP=" + n + ":") else Some(n + ":")
    else Some("GID=" + Decimal(gid) + ":")
  }

  /** ace2str_icacls: header, icacls flags, icacls permissions; the entry type is not shown. */
  function AceIcaclsText(e: Entry, owner: Id, group: Id, db: Directory): (r: Result<string>)
    ensures r.Err? <==> e.tag.kind == Unknown
    ensures r.Err? ==> r.error == InvalidArgument
  {
    match IcaclsHeader(e.tag, owner, group, db)
    case None => Err(InvalidArgument)
    case Some(h) => Ok(h + IcaclsFlags(e.flags) + IcaclsPerms(e.perms))
  }

  /** The icacls line determines the entry's permission bits. */
  lemma IcaclsTextDetermines(a: Entry, b: Entry, owner: Id, group: Id, db: Directory)
    requires AceIcaclsText(a, owner, group, db).Ok?
    requires AceIcaclsText(a, owner, group, db) == AceIcaclsText(b, owner, group, db)
    ensures And(a.perms, PERMS_ALL) == And(b.perms, PERMS_ALL)
  {
    IcaclsPermsAtEnd(IcaclsHeader(a.tag, owner, group, db).value + IcaclsFlags(a.flags), a.perms);
    IcaclsPermsAtEnd(IcaclsHeader(b.tag, owner, group, db).value + IcaclsFlags(b.flags), b.perms);
    IcaclsPermsReadBack(a.perms);
    IcaclsPermsReadBack(b.perms);
  }

  /** The icacls permissions are what follows the last '(' of the line. */
  lemma IcaclsPermsAtEnd(front: string, perms: Word)
    ensures var t := front + IcaclsPerms(perms);
      var i := LastIndex(t, '(');
      0 <= i && t[i..] == IcaclsPerms(perms)
  {
    var ps := Tokens(P2C_WINDOWS, perms, |P2C_WINDOWS|);
    forall i | 0 <= i < |ps| ensures '(' !in ps[i] {
      assert ps[i] in ps;
    }
    JoinFree(ps, ',', '(');
    var j := Join(ps, ',');
    var t := front + IcaclsPerms(perms);
    assert t == front + ['('] + (j + ")");
    LastIndexAfter(front, '(', j + ")");
  }

  // ----- writing into the caller's buffer --------------------------------------------------

  /** size_t values are taken modulo 2^64. */
  const SIZE_T_MODULUS: int := 0x1_0000_0000_0000_0000

  /** The check ace2str and its variants make after the header: rc > rsize - 1 in size_t. */
  predicate HeaderRejected(rc: nat, rsize: nat) {
    rc > (rsize - 1) % SIZE_T_MODULUS
  }

  /**
   * As written, only the header is checked against rsize: with rsize 7 the
   * principal "owner@" passes, and the rest of the line (29 more
   * characters and the NUL) is written past the end of the buffer.
   */
  lemma HeaderCheckOverflow()
    ensures var e := Entry(Tag(UserObj, NO_ID, "owner@"), TYPE_ALLOW, 0, 0);
      var db := Directory(map[], map[], map[], map[]);
      AceText(e, db).Ok? && !HeaderRejected(|Principal(e.tag, db).value|, 7) && |AceText(e, db).value| + 1 > 7
  {
    var e := Entry(Tag(UserObj, NO_ID, "owner@"), TYPE_ALLOW, 0, 0);
    var db := Directory(map[], map[], map[], map[]);
    assert |AceText(e, db).value| == 6 + 1 + 14 + 1 + 7 + 1 + 5;
  }

  /** As written, an rsize of 0 makes rsize - 1 wrap, and every header passes the check. */
  lemma EmptyBufferAccepted(rc: nat)
    requires rc < SIZE_T_MODULUS
    ensures !HeaderRejected(rc, 0)
  {
  }

  /**
   * ace2str_samba checks only its header as well: with rsize 14 the header
   * "ACL:Everyone:" passes, and the rest of the line (24 more characters
   * and the NUL) is written past the end of the buffer.
   */
  lemma SambaHeaderCheckOverflow()
    ensures var e := Entry(Tag(Everyone, NO_ID, "everyone@"), TYPE_ALLOW, 0, 0);
      var db := Directory(map[], map[], map[], map[]);
      && SambaHeader(e.tag, 0, 0, db) == Some("ACL:Everyone:")
      && !HeaderRejected(13, 14)
      && AceSambaText(e, 0, 0, db).Ok? && |AceSambaText(e, 0, 0, db).value| + 1 > 14
  {
    var e := Entry(Tag(Everyone, NO_ID, "everyone@"), TYPE_ALLOW, 0, 0);
    var db := Directory(map[], map[], map[], map[]);
    assert SambaHeader(e.tag, 0, 0, db) == Some("ACL:Everyone:");
    assert |AceSambaText(e, 0, 0, db).value| >= 13 + |"ALLOWED/"| + 1 + 1 + 14;
  }

  /**
   * ace2str_icacls checks only its header as well: with rsize 10 the header
   * "Everyone:" passes, and the permissions "()" and the NUL are written
   * past the end of the buffer.
   */
  lemma IcaclsHeaderCheckOverflow()
    ensures var e := Entry(Tag(Everyone, NO_ID, "everyone@"), TYPE_ALLOW, 0, 0);
      var db := Directory(map[], map[], map[], map[]);
      && IcaclsHeader(e.tag, 0, 0, db) == Some("Everyone:")
      && !HeaderRejected(9, 10)
      && AceIcaclsText(e, 0, 0, db) == Ok("Everyone:()")
      && |"Everyone:()"| + 1 > 10
  {
    var e := Entry(Tag(Everyone, NO_ID, "everyone@"), TYPE_ALLOW, 0, 0);
    var db := Directory(map[], map[], map[], map[]);
    IcaclsFlagsNone();
    IcaclsPermsNone();
    assert IcaclsHeader(e.tag, 0, 0, db) == Some("Everyone:");
    assert "Everyone:" + "" + "()" == "Everyone:()";
  }

  /** What writing a line into a buffer of rsize characters returns. */
  function Outcome(text: Result<string>, rsize: nat): (r: Result<nat>)
    ensures r.Ok? ==> text.Ok? && r.value == |text.value| < rsize
  {
    match text
    case Err(x) => Err(x)
    case Ok(t) => if |t| < rsize then Ok(|t|) else Err(OutOfMemory)
  }

  /**
   * The rbuf/rsize cursor of ace2str and its variants, with the whole line
   * checked against the room left: a line that does not fit together with
   * its NUL is ENOMEM and nothing is written; otherwise the line and a NUL
   * are written at the start of the buffer and nothing after them changes.
   */
  method Emit(text: Result<string>, buf: array<char>) returns (r: Result<nat>)
    modifies buf
    ensures r == Outcome(text, buf.Length)
    ensures r.Err? ==> buf[..] == old(buf[..])
    ensures r.Ok? ==> buf[..r.value] == text.value && buf[r.value] == '\0'
    ensures r.Ok? ==> buf[r.value + 1..] == old(buf[r.value + 1..])
  {
    if text.Err? {
      return Err(text.error);
    }
    var t := text.value;
    if |t| >= buf.Length {
      return Err(OutOfMemory);
    }
    var rbuf := 0;
    var rsize := buf.Length;
    while rbuf < |t|
      invariant 0 <= rbuf <= |t| && rbuf + rsize == buf.Length
      invariant buf[..rbuf] == t[..rbuf]
      invariant buf[rbuf..] == old(buf[rbuf..])
    {
      buf[rbuf] := t[rbuf];
      rbuf := rbuf + 1;
      rsize := rsize - 1;
    }
    buf[rbuf] := '\0';
    assert t[..rbuf] == t;
    r := Ok(|t|);
  }

  /** ace2str into a caller's buffer. */
  method Ace2Str(e: Entry, db: Directory, buf: array<char>) returns (r: Result<nat>)
    requires e.tag.kind != Unknown ==> IsListedType(e.etype)
    modifies buf
    ensures r == Outcome(AceText(e, db), buf.Length)
    ensures r.Ok? ==> buf[..r.value] == AceText(e, db).value && buf[r.value] == '\0'
  {
    r := Emit(AceText(e, db), buf);
  }

  /** ace2str_samba into a caller's buffer. */
  method Ace2StrSamba(e: Entry, owner: Id, group: Id, db: Directory, buf: array<char>) returns (r: Result<nat>)
    modifies buf
    ensures r == Outcome(AceSambaText(e, owner, group, db), buf.Length)
    ensures r.Ok? ==> buf[..r.value] == AceSambaText(e, owner, group, db).value && buf[r.value] == '\0'
  {
    r := Emit(AceSambaText(e, owner, group, db), buf);
  }

  /** ace2str_icacls into a caller's buffer. */
  method Ace2StrIcacls(e: Entry, owner: Id, group: Id, db: Directory, buf: array<char>) returns (r: Result<nat>)
    modifies buf
    ensures r == Outcome(AceIcaclsText(e, owner, group, db), buf.Length)
    ensures r.Ok? ==> buf[..r.value] == AceIcaclsText(e, owner, group, db).value && buf[r.value] == '\0'
  {
    r := Emit(AceIcaclsText(e, owner, group, db), buf);
  }
}
