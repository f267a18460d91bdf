/*
 * Identity handling of the Linux NFSv4 codec (gacl_impl.c, lines 81-189):
 * the "Domain = value" line of the id-mapping configuration with its
 * once-set cache, the strncmp comparison against the special "who" strings
 * of section 6.2.1.5 of RFC 7530, and the conversion of an identity token
 * ("name@domain" or a decimal id) to a uid or gid.
 */
module Nfs4Id {
  import opened Base

  // ----- the configuration line parser ----------------------------------------

  predicate IsSep(c: char) { c == ' ' || c == '\t' || c == '\n' }

  /** The index of the first separator in s, or |s| when there is none. */
  function SepIndex(s: string): (k: nat)
    ensures k <= |s|
    ensures forall j :: 0 <= j < k ==> !IsSep(s[j])
    ensures k < |s| ==> IsSep(s[k])
  {
    if s == [] || IsSep(s[0]) then 0 else 1 + SepIndex(s[1..])
  }

  /**
   * The successive results of strsep(&bp, " \t\n") on a line: the line cut
   * at every separator, empty fields included (two blanks give an empty
   * field, a trailing newline gives a last empty field).
   */
  function Fields(s: string): (r: seq<string>)
    ensures 1 <= |r| <= |s| + 1
    decreases |s|
  {
    var k := SepIndex(s);
    if k == |s| then [s] else [s[..k]] + Fields(s[k + 1..])
  }

  /** What one line of the configuration decides. */
  datatype LineVerdict = NextLine | Found(value: string) | GiveUp

  /** The test applied to one line read by fgets (gacl_impl.c:99-113). */
  function LineRule(line: string): (v: LineVerdict)
    ensures v.Found? ==> |Fields(line)| >= 3 && Fields(line)[0] == "Domain" && Fields(line)[1] == "=" && Fields(line)[2] == v.value
    ensures v.GiveUp? ==> Fields(line) == ["Domain", "="]
    ensures v.NextLine? <==> Fields(line)[0] != "Domain" || |Fields(line)| < 2 || Fields(line)[1] != "="
  {
    var f := Fields(line);
    if f[0] != "Domain" then NextLine
    else if |f| < 2 || f[1] != "=" then NextLine
    else if |f| < 3 then GiveUp
    else Found(f[2])
  }

  /** The lines from i on decide the domain, or None when none decides. */
  function ScanFrom(lines: seq<string>, i: nat): Option<string>
    requires i <= |lines|
    decreases |lines| - i
  {
    if i == |lines| then None
    else match LineRule(lines[i])
      case NextLine => ScanFrom(lines, i + 1)
      case GiveUp => None
      case Found(v) => Some(v)
  }

  /** The domain the configuration yields; None also when the file cannot be opened. */
  function ConfigDomain(conf: Option<seq<string>>): Option<string> {
    if conf.None? then None else ScanFrom(conf.value, 0)
  }

  /** The value _nfs4_id_domain returns given what it has cached. */
  function Effective(saved: Option<string>, conf: Option<seq<string>>): Option<string> {
    if saved.Some? then saved else ConfigDomain(conf)
  }

  /** Line k of lines yields v and every line from i up to k is passed over. */
  ghost predicate DecidesAt(lines: seq<string>, i: nat, k: nat, v: string) {
    i <= k < |lines| && LineRule(lines[k]) == Found(v) &&
    forall j :: i <= j < k ==> LineRule(lines[j]) == NextLine
  }

  lemma {:induction false} ScanFromFound(lines: seq<string>, i: nat, v: string)
    requires i <= |lines|
    ensures ScanFrom(lines, i) == Some(v) <==> exists k :: DecidesAt(lines, i, k, v)
    decreases |lines| - i
  {
    if i < |lines| {
      ScanFromFound(lines, i + 1, v);
      if LineRule(lines[i]) == NextLine {
        if ScanFrom(lines, i) == Some(v) {
          var k :| DecidesAt(lines, i + 1, k, v);
          assert DecidesAt(lines, i, k, v);
        }
        if k :| DecidesAt(lines, i, k, v) {
          assert k != i;
          assert DecidesAt(lines, i + 1, k, v);
        }
      } else {
        if ScanFrom(lines, i) == Some(v) {
          assert DecidesAt(lines, i, i, v);
        }
        if k :| DecidesAt(lines, i, k, v) {
          assert k == i;
        }
      }
    }
  }

  /**
   * The configuration yields v exactly when some line reads "Domain", "=",
   * v and every line before it is passed over.
   */
  lemma ConfigDomainFirstMatch(lines: seq<string>, v: string)
    ensures ConfigDomain(Some(lines)) == Some(v) <==> exists k :: DecidesAt(lines, 0, k, v)
  {
    ScanFromFound(lines, 0, v);
  }

  lemma {:induction false} SepIndexAt(s: string, k: nat)
    requires k <= |s|
    requires forall j :: 0 <= j < k ==> !IsSep(s[j])
    requires k < |s| ==> IsSep(s[k])
    ensures SepIndex(s) == k
  {
    if k > 0 {
      SepIndexAt(s[1..], k - 1);
    }
  }

  /** A field followed by a separator is cut off as the first field. */
  lemma FieldsCons(a: string, c: char, b: string)
    requires forall j :: 0 <= j < |a| ==> !IsSep(a[j])
    requires IsSep(c)
    ensures Fields(a + [c] + b) == [a] + Fields(b)
  {
    var s := a + [c] + b;
    SepIndexAt(s, |a|);
    assert s[..|a|] == a && s[|a| + 1..] == b;
  }

  predicate NoSep(s: string) { forall j :: 0 <= j < |s| ==> !IsSep(s[j]) }

  /** Three separator-free words, blank-separated and ended by a newline. */
  lemma ThreeFields(a: string, b: string, v: string)
    requires NoSep(a) && NoSep(b) && NoSep(v)
    ensures var f := Fields(a + [' '] + (b + [' '] + (v + ['\n'] + "")));
      |f| == 4 && f[0] == a && f[1] == b && f[2] == v && f[3] == ""
  {
    var s2 := v + ['\n'] + "";
    var s1 := b + [' '] + s2;
    SepIndexAt("", 0);
    FieldsCons(v, '\n', "");
    FieldsCons(b, ' ', s2);
    FieldsCons(a, ' ', s1);
  }

  /** The fields of a line "Domain = v" ended by a newline. */
  lemma DomainLineFields(v: string)
    requires NoSep(v)
    ensures var f := Fields("Domain = " + v + "\n");
      |f| == 4 && f[0] == "Domain" && f[1] == "=" && f[2] == v && f[3] == ""
  {
    assert NoSep("Domain") by {
      forall j | 0 <= j < 6 ensures !IsSep("Domain"[j]) { }
    }
    assert NoSep("=");
    ThreeFields("Domain", "=", v);
    DomainLineText(v);
  }

  /** A line "Domain = v" ended by a newline gives v. */
  lemma DomainLine(v: string)
    requires v != [] && NoSep(v)
    ensures LineRule("Domain = " + v + "\n") == Found(v)
  {
    DomainLineFields(v);
  }

  lemma DomainLineText(v: string)
    ensures "Domain" + [' '] + ("=" + [' '] + (v + ['\n'] + "")) == "Domain = " + v + "\n"
  {
    assert "Domain" + [' '] + "=" + [' '] == "Domain = ";
  }

  /** Two blanks after "Domain" make an empty second field, so the line is passed over. */
  lemma DoubleBlankSkipped(v: string)
    ensures LineRule("Domain  = " + v) == NextLine
  {
    var s1 := [] + [' '] + ("= " + v);
    var s := "Domain" + [' '] + s1;
    FieldsCons([], ' ', "= " + v);
    FieldsCons("Domain", ' ', s1);
    DoubleBlankText(v);
    assert Fields(s)[1] == "";
  }

  lemma DoubleBlankText(v: string)
    ensures "Domain" + [' '] + ([] + [' '] + ("= " + v)) == "Domain  = " + v
  {
    assert "Domain" + [' '] + [' '] + "= " == "Domain  = ";
  }

  /** The cached domain of _nfs4_id_domain. */
  class DomainCache {
    var saved: Option<string>

    constructor ()
      ensures saved == None
    {
      saved := None;
    }

    /**
     * _nfs4_id_domain: the cached value if there is one; otherwise the
     * configuration is read line by line and a found value is cached.
     */
    method Get(conf: Option<seq<string>>) returns (d: Option<string>)
      modifies this
      ensures d == Effective(old(saved), conf)
      ensures saved == d
    {
      if saved.Some? {
        return saved;
      }
      if conf.None? {
        return None;
      }
      var lines := conf.value;
      var i := 0;
      while i < |lines|
        invariant 0 <= i <= |lines|
        invariant ScanFrom(lines, i) == ScanFrom(lines, 0)
        invariant saved == None
      {
        match LineRule(lines[i])
        case NextLine =>
          i := i + 1;
        case GiveUp =>
          return None;
        case Found(v) =>
          saved := Some(v);
          return saved;
      }
      return None;
    }
  }

  /** Once a value is cached, every later call returns it. */
  lemma EffectiveIsStable(saved: Option<string>, conf: Option<seq<string>>, conf': Option<seq<string>>)
    requires Effective(saved, conf).Some?
    ensures Effective(Effective(saved, conf), conf') == Effective(saved, conf)
  {
  }

  // ----- strncmp against the special "who" strings -----------------------------

  /**
   * strncmp(cp, lit, |cp|) == 0 from position i on, for an identity cp of
   * |cp| bytes and a NUL-terminated literal lit.
   */
  function StrncmpEqFrom(cp: seq<Byte>, lit: seq<Byte>, i: nat): bool
    requires forall j :: 0 <= j < |lit| ==> lit[j] != 0
    requires i <= |lit|
    decreases |cp| - i
  {
    if i >= |cp| then true
    else if i == |lit| then cp[i] == 0
    else if cp[i] != lit[i] then false
    else StrncmpEqFrom(cp, lit, i + 1)
  }

  /** strncmp(cp, lit, idlen) == 0 with idlen == |cp|. */
  predicate MatchesLiteral(cp: seq<Byte>, lit: seq<Byte>)
    requires forall j :: 0 <= j < |lit| ==> lit[j] != 0
  {
    StrncmpEqFrom(cp, lit, 0)
  }

  lemma {:induction false} StrncmpEqFromMeans(cp: seq<Byte>, lit: seq<Byte>, i: nat)
    requires forall j :: 0 <= j < |lit| ==> lit[j] != 0
    requires i <= |lit| && i <= |cp| && cp[..i] == lit[..i]
    ensures StrncmpEqFrom(cp, lit, i) <==>
      (|cp| <= |lit| && cp == lit[..|cp|]) || (|cp| > |lit| && cp[..|lit|] == lit && cp[|lit|] == 0)
    decreases |cp| - i
  {
    if i < |cp| && i < |lit| && cp[i] == lit[i] {
      assert cp[..i + 1] == lit[..i + 1];
      StrncmpEqFromMeans(cp, lit, i + 1);
    } else if i < |cp| && i < |lit| {
      assert cp[i] != lit[i];
      assert |cp| <= |lit| ==> cp[i] != lit[..|cp|][i];
      assert |cp| > |lit| ==> cp[..|lit|][i] != lit[i];
    } else if i == |lit| {
      assert lit[..i] == lit;
      assert |cp| <= |lit| ==> cp == cp[..i];
      assert |cp| > |lit| ==> cp[..|lit|] == lit;
    } else {
      assert i == |cp|;
      assert cp == cp[..i];
    }
  }

  /**
   * The comparison accepts any prefix of the literal (the empty identity
   * included), and a longer identity only if a NUL follows the literal.
   */
  lemma MatchesLiteralMeans(cp: seq<Byte>, lit: seq<Byte>)
    requires forall j :: 0 <= j < |lit| ==> lit[j] != 0
    ensures MatchesLiteral(cp, lit) <==>
      (|cp| <= |lit| && cp == lit[..|cp|]) || (|cp| > |lit| && cp[..|lit|] == lit && cp[|lit|] == 0)
  {
    StrncmpEqFromMeans(cp, lit, 0);
  }

  // ----- tokens to ids -----------------------------------------------------------

  const AT: Byte := 0x40

  /** The index of the first '@' in t, or |t| when there is none. */
  function AtIndex(t: seq<Byte>): (k: nat)
    ensures k <= |t|
    ensures forall j :: 0 <= j < k ==> t[j] != AT
    ensures k < |t| ==> t[k] == AT
  {
    if t == [] || t[0] == AT then 0 else 1 + AtIndex(t[1..])
  }

  /** What _nfs4_id_to_uid/_gid return: the status and the (possibly untouched) id. */
  datatype Lookup = Lookup(rc: int, id: Id)

  /**
   * The decimal branch shared by both conversions, reading the idlen bytes
   * of the token alone: sscanf of the token as a C string. A conversion
   * that does not happen leaves the id as it was.
   */
  function DecimalLookup(token: seq<Byte>, cur: Id): (r: Lookup)
    ensures r.rc == 0 || r.rc == 1
    ensures r.rc == 0 ==> r.id == cur
  {
    match ScanInt(Chars(CStr(token)))
    case Some(v) => Lookup(1, ToId(v))
    case None => Lookup(0, cur)
  }

  /**
   * The decimal branch as the source runs it (gacl_impl.c:148, 185): sscanf
   * is handed the token's first byte and no length, so it reads the C
   * string that starts there, on through the padding and the words after
   * the token, up to the first NUL. rest is every byte from the token to
   * the end of the buffer; None is a string with no NUL before the end of
   * the buffer, which sscanf reads past.
   */
  function DecimalLookupAsWritten(rest: seq<Byte>, cur: Id): (r: Option<Lookup>)
    ensures r.None? <==> 0 !in rest
  {
    if 0 in rest then Some(DecimalLookup(rest, cur)) else None
  }

  /** As written, digits in the padding become part of the id: "12" padded with "34" reads as 1234. */
  lemma PaddingDigitsRead(cur: Id)
    ensures var rest: seq<Byte> := [0x31, 0x32, 0x33, 0x34, 0, 0, 0, 0];
      DecimalLookupAsWritten(rest, cur) == Some(Lookup(1, 1234)) &&
      DecimalLookup(rest[..2], cur) == Lookup(1, 12)
  {
    var rest: seq<Byte> := [0x31, 0x32, 0x33, 0x34, 0, 0, 0, 0];
    PaddedDigits(rest);
    TwoDecimals();
    DigitsOf(rest[..4], "1234", 1234);
    CStrOfNulFree(rest[..2]);
    DigitsOf(rest[..2], "12", 12);
  }

  lemma TwoDecimals()
    ensures Decimal(12) == "12" && Decimal(1234) == "1234"
  {
    assert Decimal(1) == "1";
    assert Decimal(123) == Decimal(12) + "3";
  }

  lemma PaddedDigits(rest: seq<Byte>)
    requires rest == [0x31, 0x32, 0x33, 0x34, 0, 0, 0, 0]
    ensures 0 in rest && CStr(rest) == rest[..4]
  {
    assert rest[4] == 0;
    assert CStr(rest[4..]) == [];
    assert rest[3..][1..] == rest[4..];
    assert rest[2..][1..] == rest[3..];
    assert rest[1..][1..] == rest[2..];
  }

  /** Bytes that spell the decimal of n scan as n. */
  lemma DigitsOf(b: seq<Byte>, s: string, n: nat)
    requires s == Decimal(n) && |b| == |s| && forall i :: 0 <= i < |s| ==> b[i] == s[i] as int
    ensures ScanInt(Chars(b)) == Some(n)
  {
    assert Chars(b) == s;
    ScanDecimal(n);
  }

  /**
   * As written, a decimal token that fills its words and ends the buffer,
   * such as "1000" in the last entry, has no NUL before the buffer ends.
   */
  lemma LastTokenReadsPast(cur: Id)
    ensures var rest: seq<Byte> := [0x31, 0x30, 0x30, 0x30];
      DecimalLookupAsWritten(rest, cur).None? && DecimalLookup(rest, cur) == Lookup(1, 1000)
  {
    var rest: seq<Byte> := [0x31, 0x30, 0x30, 0x30];
    CStrOfNulFree(rest);
    assert Decimal(1000) == "1000" by {
      assert Decimal(1) == "1";
      assert Decimal(10) == "10";
    }
    DigitsOf(rest, "1000", 1000);
  }

  /**
   * When a NUL follows the token, reading on from the token gives exactly
   * what reading the token alone gives, whatever comes after the NUL.
   */
  lemma TerminatedTokenAgrees(token: seq<Byte>, more: seq<Byte>, cur: Id)
    ensures DecimalLookupAsWritten(token + [0] + more, cur) == Some(DecimalLookup(token, cur))
  {
    assert (token + [0] + more)[|token|] == 0;
    CStrTerminated(token, more);
  }

  lemma {:induction false} CStrTerminated(b: seq<Byte>, more: seq<Byte>)
    ensures CStr(b + [0] + more) == CStr(b)
    decreases |b|
  {
    if b != [] && b[0] != 0 {
      assert (b + [0] + more)[1..] == b[1..] + [0] + more;
      CStrTerminated(b[1..], more);
    }
  }

  /**
   * _nfs4_id_to_uid: the name before the first '@' is looked up whatever
   * follows it (the function never loads the domain); without '@' the
   * token is read as a decimal.
   */
  function UidOfToken(token: seq<Byte>, db: Directory, cur: Id): Lookup {
    if |token| < 1 then Lookup(-1, cur)
    else
      var i := AtIndex(token);
      if i < |token| then
        var name := Chars(CStr(token[..i]));
        if name in db.pwnam then Lookup(1, db.pwnam[name]) else Lookup(0, cur)
      else DecimalLookup(token, cur)
  }

  /**
   * _nfs4_id_to_gid: as for uids, except that the name is looked up only
   * when no domain is configured or the text after the '@' is exactly the
   * domain.
   */
  function GidOfToken(token: seq<Byte>, dom: Option<string>, db: Directory, cur: Id): Lookup {
    if |token| < 1 then Lookup(-1, cur)
    else
      var i := AtIndex(token);
      if i < |token| then
        var name := Chars(CStr(token[..i]));
        if (dom.None? || token[i + 1..] == Latin1(dom.value)) && name in db.grnam
        then Lookup(1, db.grnam[name])
        else Lookup(0, cur)
      else DecimalLookup(token, cur)
  }

  /** The index loop that looks for the '@' (gacl_impl.c:135, 172). */
  method FindAt(token: seq<Byte>) returns (i: nat)
    ensures i == AtIndex(token)
  {
    i := 0;
    while i < |token| && token[i] != AT
      invariant 0 <= i <= |token|
      invariant forall j :: 0 <= j < i ==> token[j] != AT
    {
      i := i + 1;
    }
    AtIndexUnique(token, i);
  }

  lemma {:induction false} AtIndexUnique(t: seq<Byte>, i: nat)
    requires i <= |t|
    requires forall j :: 0 <= j < i ==> t[j] != AT
    requires i < |t| ==> t[i] == AT
    ensures i == AtIndex(t)
  {
    if t != [] && t[0] != AT {
      assert i > 0;
      AtIndexUnique(t[1..], i - 1);
    }
  }

  /** _nfs4_id_to_uid. */
  method IdToUid(token: seq<Byte>, db: Directory, cur: Id) returns (rc: int, id: Id)
    ensures Lookup(rc, id) == UidOfToken(token, db, cur)
  {
    if |token| < 1 {
      return -1, cur;
    }
    var i := FindAt(token);
    if i < |token| {
      var name := Chars(CStr(token[..i]));
      if name in db.pwnam {
        return 1, db.pwnam[name];
      }
    } else {
      var v := ScanInt(Chars(CStr(token)));
      if v.Some? {
        return 1, ToId(v.value);
      }
    }
    return 0, cur;
  }

  /** _nfs4_id_to_gid: loads the domain through the cache first. */
  method IdToGid(token: seq<Byte>, cache: DomainCache, conf: Option<seq<string>>, db: Directory, cur: Id)
    returns (rc: int, id: Id)
    modifies cache
    ensures Lookup(rc, id) == GidOfToken(token, Effective(old(cache.saved), conf), db, cur)
    ensures cache.saved == if |token| < 1 then old(cache.saved) else Effective(old(cache.saved), conf)
  {
    if |token| < 1 {
      return -1, cur;
    }
    var dom := cache.Get(conf);
    var i := FindAt(token);
    if i < |token| {
      var name := Chars(CStr(token[..i]));
      if (dom.None? || token[i + 1..] == Latin1(dom.value)) && name in db.grnam {
        return 1, db.grnam[name];
      }
    } else {
      var v := ScanInt(Chars(CStr(token)));
      if v.Some? {
        return 1, ToId(v.value);
      }
    }
    return 0, cur;
  }

  // ----- what the conversions recover ------------------------------------------------

  lemma AtIndexOfNameToken(name: string, rest: seq<Byte>)
    requires IsCName(name) && '@' !in name
    ensures AtIndex(Latin1(name) + [AT] + rest) == |name|
  {
    var t := Latin1(name) + [AT] + rest;
    forall j | 0 <= j < |name| ensures t[j] != AT {
      assert t[j] as int == name[j] as int;
      assert name[j] != '@';
    }
    AtIndexUnique(t, |name|);
  }

  lemma NameOfNameToken(name: string, rest: seq<Byte>)
    requires IsCName(name) && '@' !in name
    ensures var t := Latin1(name) + [AT] + rest;
      Chars(CStr(t[..AtIndex(t)])) == name
  {
    var t := Latin1(name) + [AT] + rest;
    AtIndexOfNameToken(name, rest);
    assert t[..|name|] == Latin1(name);
    Latin1NulFree(name);
    CStrOfNulFree(Latin1(name));
    CharsLatin1(name);
  }

  /** "name@anything" gives the uid getpwnam returns for name: the domain is ignored. */
  lemma UidOfNameToken(name: string, rest: seq<Byte>, db: Directory, cur: Id)
    requires IsCName(name) && '@' !in name
    requires name in db.pwnam
    ensures UidOfToken(Latin1(name) + [AT] + rest, db, cur) == Lookup(1, db.pwnam[name])
  {
    NameOfNameToken(name, rest);
  }

  /** "name@domain" gives the gid of name when the domain is the configured one (or none is). */
  lemma GidOfNameToken(name: string, dom: Option<string>, db: Directory, cur: Id)
    requires IsCName(name) && '@' !in name
    requires name in db.grnam
    ensures var suffix := if dom.Some? then Latin1(dom.value) else [];
      GidOfToken(Latin1(name) + [AT] + suffix, dom, db, cur) == Lookup(1, db.grnam[name])
  {
    var suffix := if dom.Some? then Latin1(dom.value) else [];
    NameOfNameToken(name, suffix);
    AtIndexOfNameToken(name, suffix);
    var t := Latin1(name) + [AT] + suffix;
    assert t[|name| + 1..] == suffix;
  }

  /** A group token whose domain differs from the configured one resolves nothing. */
  lemma GidOfForeignDomain(token: seq<Byte>, d: string, db: Directory, cur: Id)
    requires AtIndex(token) < |token|
    requires token[AtIndex(token) + 1..] != Latin1(d)
    ensures GidOfToken(token, Some(d), db, cur) == Lookup(0, cur)
  {
  }

  lemma DecimalToken(n: nat)
    ensures var t := Latin1(Decimal(n));
      AtIndex(t) == |t| && Chars(CStr(t)) == Decimal(n)
  {
    var s := Decimal(n);
    var t := Latin1(s);
    assert IsCName(s);
    DecimalHasNoAt(n);
    forall j | 0 <= j < |t| ensures t[j] != AT {
      assert t[j] as int == s[j] as int;
    }
    AtIndexUnique(t, |t|);
    Latin1NulFree(s);
    CStrOfNulFree(t);
    CharsLatin1(s);
  }

  /** A printed 32-bit id reads back as that id, for users and groups alike. */
  lemma IdOfDecimalToken(u: Id, dom: Option<string>, db: Directory, cur: Id)
    ensures UidOfToken(Latin1(Decimal(u)), db, cur) == Lookup(1, u)
    ensures GidOfToken(Latin1(Decimal(u)), dom, db, cur) == Lookup(1, u)
  {
    DecimalToken(u);
    ScanDecimal(u);
  }
}
