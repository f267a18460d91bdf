/*
 * The Linux "system.nfs4_acl" extended attribute (gacl_impl.c, lines
 * 192-262 and 330-431): an XDR array of NFSv4 ACEs (section 6.2.1 of RFC
 * 7530). The value is a big-endian 32-bit count, then per entry the words
 * type, flags, access mask and identity length, then the identity bytes
 * padded to a 4-byte boundary (variable-length opaque data, section 4.10
 * of RFC 4506).
 */
module Nfs4Codec {
  import opened Base
  import opened Gacl
  import opened Nfs4Id
  import opened Bits

  // ----- big-endian words ----------------------------------------------------

  /** htonl: the four bytes of w, most significant first. */
  function WordBytes(w: Word): (r: seq<Byte>)
    ensures |r| == 4
  {
    [w / 0x100 / 0x100 / 0x100, w / 0x100 / 0x100 % 0x100, w / 0x100 % 0x100, w % 0x100]
  }

  /** ntohl of the four bytes at offset i. */
  function ReadWord(b: seq<Byte>, i: nat): Word
    requires i + 4 <= |b|
  {
    ((b[i] as int * 0x100 + b[i + 1]) * 0x100 + b[i + 2]) * 0x100 + b[i + 3]
  }

  /** Reading back a written word gives the word. */
  lemma ReadWordBytes(w: Word, b: seq<Byte>, i: nat)
    requires i + 4 <= |b| && b[i..i + 4] == WordBytes(w)
    ensures ReadWord(b, i) == w
  {
    var q1 := w / 0x100;
    var q2 := q1 / 0x100;
    assert b[i + 3] == w % 0x100 && b[i + 2] == q1 % 0x100;
    assert b[i + 1] == q2 % 0x100 && b[i] == q2 / 0x100;
  }

  /** The number of words an identity of n bytes occupies: n/4 rounded up. */
  function Vlen(n: nat): (v: nat)
    ensures n <= 4 * v < n + 4
  {
    n / 4 + (if n % 4 != 0 then 1 else 0)
  }

  // ----- what the encoder writes ------------------------------------------------

  /** A byte the encoder sets, or a padding byte it leaves as it was. */
  datatype Cell = Fixed(b: Byte) | Free

  function Fix(bs: seq<Byte>): (r: seq<Cell>)
    ensures |r| == |bs|
    ensures forall k :: 0 <= k < |bs| ==> r[k] == Fixed(bs[k])
  {
    seq(|bs|, k requires 0 <= k < |bs| => Fixed(bs[k]))
  }

  function WordCells(w: Word): (r: seq<Cell>)
    ensures |r| == 4
  {
    Fix(WordBytes(w))
  }

  /** The identity bytes, then the padding up to the next word, which memcpy does not touch. */
  function IdCells(id: seq<Byte>): (r: seq<Cell>)
    ensures |r| == 4 * Vlen(|id|)
    ensures r[..|id|] == Fix(id)
    ensures forall k :: |id| <= k < |r| ==> r[k] == Free
  {
    Fix(id) + seq(4 * Vlen(|id|) - |id|, _ => Free)
  }

  /** The flags word on the wire: the entry's flags plus the identifier-group bit for group tags. */
  function FlagsWord(e: Entry): (w: Word)
    ensures HasBit(w, FLAG_IDENTIFIER_GROUP) <==>
      HasBit(e.flags, FLAG_IDENTIFIER_GROUP) || e.tag.kind == Group || e.tag.kind == GroupObj
  {
    GroupFlagBit(e.flags, e.tag.kind);
    OrWord(e.flags, GroupBit(e.tag.kind));
    Or(e.flags, GroupBit(e.tag.kind))
  }

  lemma GroupFlagBit(f: Word, k: TagKind)
    ensures HasBit(Or(f, GroupBit(k)), FLAG_IDENTIFIER_GROUP) <==>
      HasBit(f, FLAG_IDENTIFIER_GROUP) || k == Group || k == GroupObj
  {
    Pow2Values();
    HasBitPow2(Or(f, GroupBit(k)), 6);
    HasBitPow2(f, 6);
    OrBit(f, GroupBit(k), 6);
    if k == Group || k == GroupObj {
      Pow2Bit(6, 6);
    } else {
      ZeroBit(6);
    }
  }

  /** The three fixed words that precede the identity. */
  function HeadCells(e: Entry): (r: seq<Cell>)
    ensures |r| == 12
  {
    WordCells(e.etype) + WordCells(FlagsWord(e)) + WordCells(e.perms)
  }

  /** The first k of the three head words. */
  function HeadPrefix(e: Entry, k: nat): (r: seq<Cell>)
    requires k <= 3
    ensures |r| == 4 * k
    ensures k == 3 ==> r == HeadCells(e)
  {
    if k == 0 then []
    else if k == 1 then WordCells(e.etype)
    else if k == 2 then WordCells(e.etype) + WordCells(FlagsWord(e))
    else WordCells(e.etype) + WordCells(FlagsWord(e)) + WordCells(e.perms)
  }

  /** The identity length word, then the padded identity. */
  function IdentityCells(id: seq<Byte>): (r: seq<Cell>)
    requires |id| < 0x1_0000_0000
    ensures |r| == 4 + 4 * Vlen(|id|)
  {
    WordCells(|id|) + IdCells(id)
  }

  /** One encoded entry: type, flags, perms, identity length and padded identity. */
  function EntryCells(e: Entry, id: seq<Byte>): (r: seq<Cell>)
    requires |id| < 0x1_0000_0000
    ensures |r| == 16 + 4 * Vlen(|id|)
  {
    HeadCells(e) + IdentityCells(id)
  }

  // ----- identity strings -------------------------------------------------------

  /** "OWNER@", "GROUP@" and "EVERYONE@" (section 6.2.1.5 of RFC 7530). */
  const OWNER_AT: seq<Byte> := [0x4F, 0x57, 0x4E, 0x45, 0x52, 0x40]
  const GROUP_AT: seq<Byte> := [0x47, 0x52, 0x4F, 0x55, 0x50, 0x40]
  const EVERYONE_AT: seq<Byte> := [0x45, 0x56, 0x45, 0x52, 0x59, 0x4F, 0x4E, 0x45, 0x40]

  /** The bytes of a C string holding s. */
  function CBytes(s: string): (r: seq<Byte>)
    ensures IsCName(s) ==> r == Latin1(s)
  {
    Latin1NulFree'(s);
    CStr(Latin1(s))
  }

  lemma Latin1NulFree'(s: string)
    ensures IsCName(s) ==> CStr(Latin1(s)) == Latin1(s)
  {
    if IsCName(s) {
      Latin1NulFree(s);
      CStrOfNulFree(Latin1(s));
    }
  }

  /** The text printed for the domain: the domain, or nothing when there is none. */
  function DomainBytes(dom: Option<string>): seq<Byte> {
    if dom.Some? then CBytes(dom.value) else []
  }

  /** Size of the snprintf target buffer tbuf. */
  const TBUF_SIZE: nat := 256

  /** snprintf into tbuf keeps at most 255 bytes and the terminating NUL. */
  function Snprintf(b: seq<Byte>): (r: seq<Byte>)
    ensures |r| <= |b| && |r| < TBUF_SIZE && r == b[..|r|]
    ensures |b| < TBUF_SIZE ==> r == b
  {
    if |b| < TBUF_SIZE then b else b[..TBUF_SIZE - 1]
  }

  /** The tags the encoder has a "who" string for. */
  predicate Encodable(k: TagKind) {
    k == UserObj || k == GroupObj || k == Everyone || k == User || k == Group
  }

  /**
   * The identity the encoder writes for a tag (gacl_impl.c:377-414): the
   * special "who" strings, "name@domain" for a user or group with a name,
   * the decimal id otherwise; None is the EINVAL of any other tag.
   */
  function IdToken(t: Tag, dom: Option<string>, db: Directory): (r: Option<seq<Byte>>)
    ensures r.Some? <==> Encodable(t.kind)
    ensures r.Some? ==> |r.value| < TBUF_SIZE
  {
    match t.kind
    case UserObj => Some(OWNER_AT)
    case GroupObj => Some(GROUP_AT)
    case Everyone => Some(EVERYONE_AT)
    case User =>
      if t.ugid in db.pwuid then Some(Snprintf(CBytes(db.pwuid[t.ugid]) + [AT] + DomainBytes(dom)))
      else Some(Snprintf(Latin1(Decimal(t.ugid))))
    case Group =>
      if t.ugid in db.grgid then Some(Snprintf(CBytes(db.grgid[t.ugid]) + [AT] + DomainBytes(dom)))
      else Some(Snprintf(Latin1(Decimal(t.ugid))))
    case _ => None
  }

  // ----- the encoder, specified -------------------------------------------------------

  /** What an encoding call returns, and every cell it wrote, in buffer order. */
  datatype Outcome = Outcome(result: Result<nat>, written: seq<Cell>)

  /** What encoding one entry does: the word position after it, or the error, and the cells written. */
  datatype Step = Step(next: Result<nat>, written: seq<Cell>)

  /**
   * Encoding one entry with identity id (None for a tag without one) at
   * word pos of a buffer of cap words: the three head words each need a
   * free word, a shortfall being ENOMEM after the head words that did fit
   * were written; a missing identity is EINVAL after the head; the identity
   * length word and the padded identity must fit entirely, or it is ENOMEM.
   */
  function EncodeEntry(e: Entry, id: Option<seq<Byte>>, cap: nat, pos: nat): (s: Step)
    requires pos <= cap
    requires id.Some? ==> |id.value| < TBUF_SIZE
    ensures 4 * pos + |s.written| <= 4 * cap
    ensures s.next.Ok? ==> 4 * s.next.value == 4 * pos + |s.written| && pos < s.next.value <= cap
    ensures s.next.Ok? <==> id.Some? && pos + 4 + Vlen(|id.value|) <= cap
  {
    var head := HeadCells(e);
    if pos + 3 > cap then Step(Err(OutOfMemory), HeadPrefix(e, cap - pos))
    else
      match id
      case None => Step(Err(InvalidArgument), head)
      case Some(v) =>
        var vlen := Vlen(|v|);
        if pos + 4 + vlen > cap then Step(Err(OutOfMemory), head)
        else Step(Ok(pos + 4 + vlen), EntryCells(e, v))
  }

  /** An outcome with the cells w written before it. */
  function Prepend(w: seq<Cell>, o: Outcome): (r: Outcome)
    ensures r.result == o.result && |r.written| == |w| + |o.written|
  {
    Outcome(o.result, w + o.written)
  }

  lemma PrependPrepend(a: seq<Cell>, b: seq<Cell>, o: Outcome)
    ensures Prepend(a, Prepend(b, o)) == Prepend(a + b, o)
  {
    assert a + (b + o.written) == a + b + o.written;
  }

  /** Encoding es[i..] from word pos of a buffer of cap words, entry by entry. */
  function EncodeFrom(es: seq<Entry>, i: nat, cap: nat, pos: nat, dom: Option<string>, db: Directory): (o: Outcome)
    requires i <= |es| && pos <= cap
    ensures 4 * pos + |o.written| <= 4 * cap
    ensures o.result.Ok? ==> o.result.value == 4 * pos + |o.written|
    decreases |es| - i
  {
    if i == |es| then Outcome(Ok(4 * pos), [])
    else
      var s := EncodeEntry(es[i], IdToken(es[i].tag, dom, db), cap, pos);
      match s.next
      case Err(x) => Outcome(Err(x), s.written)
      case Ok(p) => Prepend(s.written, EncodeFrom(es, i + 1, cap, p, dom, db))
  }

  /** The count word: the number of entries, as a 32-bit word. */
  function CountWord(es: seq<Entry>): Word {
    |es| % 0x1_0000_0000
  }

  /**
   * Encoding into a buffer of bufsize bytes, of which bufsize/4 whole words
   * are used. A buffer without room for the count word is ENOMEM here.
   */
  function EncodeSpec(es: seq<Entry>, bufsize: nat, dom: Option<string>, db: Directory): (o: Outcome)
    ensures |o.written| <= 4 * (bufsize / 4) <= bufsize
    ensures o.result.Ok? ==> o.result.value == |o.written|
  {
    var cap := bufsize / 4;
    if cap == 0 then Outcome(Err(OutOfMemory), [])
    else Prepend(WordCells(CountWord(es)), EncodeFrom(es, 0, cap, 1, dom, db))
  }

  /**
   * The encoder as gacl_impl.c writes it: the count word is stored before
   * any room check, so a buffer without room for it still receives it, and
   * an empty ACL then reports four bytes used.
   */
  function EncodeAsWritten(es: seq<Entry>, bufsize: nat, dom: Option<string>, db: Directory): (o: Outcome)
    ensures 4 <= |o.written|
    ensures bufsize < 4 ==> o.result == (if es == [] then Ok(4) else Err(OutOfMemory))
    ensures 4 <= bufsize ==> o == EncodeSpec(es, bufsize, dom, db)
  {
    var cap := bufsize / 4;
    if cap == 0 then Outcome(if es == [] then Ok(4) else Err(OutOfMemory), WordCells(CountWord(es)))
    else Prepend(WordCells(CountWord(es)), EncodeFrom(es, 0, cap, 1, dom, db))
  }

  /**
   * A zero-byte buffer: as written, the empty ACL is written four bytes past
   * the end and reported as a success of four bytes; the corrected encoder
   * writes nothing and reports ENOMEM.
   */
  lemma CountWordOverrun(db: Directory)
    ensures var o := EncodeAsWritten([], 0, None, db);
      o.result == Ok(4) && |o.written| == 4 && |o.written| > 0
    ensures var o := EncodeSpec([], 0, None, db);
      o.result == Err(OutOfMemory) && o.written == []
  {
  }

  // ----- buffer contents ---------------------------------------------------------------

  /** b with the cells cs laid over it from offset at; Free cells keep what b held. */
  function Apply(b: seq<Byte>, at: nat, cs: seq<Cell>): (r: seq<Byte>)
    requires at + |cs| <= |b|
    ensures |r| == |b|
    decreases |cs|
  {
    if cs == [] then b
    else Apply(if cs[0].Fixed? then b[at := cs[0].b] else b, at + 1, cs[1..])
  }

  /** A buffer after the cells cs were written from its start. */
  function Overlay(b: seq<Byte>, cs: seq<Cell>): (r: seq<Byte>)
    requires |cs| <= |b|
    ensures |r| == |b|
  {
    Apply(b, 0, cs)
  }

  lemma ApplyNil(b: seq<Byte>, at: nat)
    requires at <= |b|
    ensures Apply(b, at, []) == b
  {
  }

  lemma {:induction false} ApplyConcat(b: seq<Byte>, at: nat, xs: seq<Cell>, ys: seq<Cell>)
    requires at + |xs| + |ys| <= |b|
    ensures Apply(Apply(b, at, xs), at + |xs|, ys) == Apply(b, at, xs + ys)
    decreases |xs|
  {
    if xs == [] {
      assert xs + ys == ys;
    } else {
      var b' := if xs[0].Fixed? then b[at := xs[0].b] else b;
      assert (xs + ys)[0] == xs[0] && (xs + ys)[1..] == xs[1..] + ys;
      ApplyConcat(b', at + 1, xs[1..], ys);
    }
  }

  /** Writes the Fixed cells of cs from offset at and leaves the Free ones alone. */
  method Emit(buf: array<Byte>, at: nat, cs: seq<Cell>)
    requires at + |cs| <= buf.Length
    modifies buf
    ensures buf[..] == Apply(old(buf[..]), at, cs)
  {
    var j := 0;
    while j < |cs|
      invariant 0 <= j <= |cs|
      invariant Apply(buf[..], at + j, cs[j..]) == Apply(old(buf[..]), at, cs)
    {
      ghost var before := buf[..];
      if cs[j].Fixed? {
        buf[at + j] := cs[j].b;
      }
      assert cs[j..][0] == cs[j] && cs[j..][1..] == cs[j + 1..];
      assert buf[..] == if cs[j].Fixed? then before[at + j := cs[j].b] else before;
      j := j + 1;
    }
  }

  // ----- the encoder ---------------------------------------------------------------------

  /** The identity string for a tag, loading the domain only for a named user or group. */
  method IdName(t: Tag, cache: DomainCache, conf: Option<seq<string>>, db: Directory)
    returns (r: Option<seq<Byte>>)
    modifies cache
    ensures r == IdToken(t, Effective(old(cache.saved), conf), db)
    ensures Effective(cache.saved, conf) == Effective(old(cache.saved), conf)
    ensures old(cache.saved).Some? ==> cache.saved == old(cache.saved)
  {
    match t.kind
    case UserObj => r := Some(OWNER_AT);
    case GroupObj => r := Some(GROUP_AT);
    case Everyone => r := Some(EVERYONE_AT);
    case User =>
      if t.ugid in db.pwuid {
        var d := cache.Get(conf);
        r := Some(Snprintf(CBytes(db.pwuid[t.ugid]) + [AT] + DomainBytes(d)));
      } else {
        r := Some(Snprintf(Latin1(Decimal(t.ugid))));
      }
    case Group =>
      if t.ugid in db.grgid {
        var d := cache.Get(conf);
        r := Some(Snprintf(CBytes(db.grgid[t.ugid]) + [AT] + DomainBytes(d)));
      } else {
        r := Some(Snprintf(Latin1(Decimal(t.ugid))));
      }
    case _ => r := None;
  }

  /**
   * The three head words of an entry, each written only after checking that
   * a word is free (gacl_impl.c:355-372); ok is false at the first word
   * that does not fit.
   */
  method PutHead(buf: array<Byte>, e: Entry, cap: nat, pos: nat) returns (ok: bool)
    requires pos <= cap && 4 * cap <= buf.Length
    modifies buf
    ensures ok <==> pos + 3 <= cap
    ensures buf[..] == Apply(old(buf[..]), 4 * pos, if ok then HeadCells(e) else HeadPrefix(e, cap - pos))
  {
    ghost var b0 := buf[..];
    if pos >= cap {
      ApplyNil(b0, 4 * pos);
      return false;
    }
    Emit(buf, 4 * pos, WordCells(e.etype));
    if pos + 1 >= cap {
      return false;
    }
    Emit(buf, 4 * pos + 4, WordCells(FlagsWord(e)));
    ApplyConcat(b0, 4 * pos, WordCells(e.etype), WordCells(FlagsWord(e)));
    if pos + 2 >= cap {
      return false;
    }
    Emit(buf, 4 * pos + 8, WordCells(e.perms));
    ApplyConcat(b0, 4 * pos, WordCells(e.etype) + WordCells(FlagsWord(e)), WordCells(e.perms));
    return true;
  }

  /**
   * The identity length word and the padded identity, written only when
   * both fit (gacl_impl.c:416-429); idpos is the word after the head.
   */
  method PutIdentity(buf: array<Byte>, id: seq<Byte>, cap: nat, idpos: nat) returns (ok: bool)
    requires idpos <= cap && 4 * cap <= buf.Length && |id| < TBUF_SIZE
    modifies buf
    ensures ok <==> idpos + 1 + Vlen(|id|) <= cap
    ensures ok ==> buf[..] == Apply(old(buf[..]), 4 * idpos, IdentityCells(id))
    ensures !ok ==> buf[..] == old(buf[..])
  {
    var idlen := |id|;
    var vlen: nat := idlen / 4;
    if idlen % 4 != 0 {
      vlen := vlen + 1;
    }
    if idpos + vlen >= cap {
      return false;
    }
    ghost var b0 := buf[..];
    Emit(buf, 4 * idpos, WordCells(idlen));
    Emit(buf, 4 * idpos + 4, IdCells(id));
    ApplyConcat(b0, 4 * idpos, WordCells(idlen), IdCells(id));
    return true;
  }

  /** One pass of the loop body of _gacl_to_nfs4 (gacl_impl.c:355-429). */
  method PutEntry(buf: array<Byte>, e: Entry, cap: nat, pos: nat,
                  cache: DomainCache, conf: Option<seq<string>>, db: Directory)
    returns (next: Result<nat>)
    requires pos <= cap && 4 * cap <= buf.Length
    modifies buf, cache
    ensures var s := EncodeEntry(e, IdToken(e.tag, Effective(old(cache.saved), conf), db), cap, pos);
      next == s.next && buf[..] == Apply(old(buf[..]), 4 * pos, s.written)
    ensures Effective(cache.saved, conf) == Effective(old(cache.saved), conf)
    ensures old(cache.saved).Some? ==> cache.saved == old(cache.saved)
  {
    ghost var b0 := buf[..];
    ghost var tok := IdToken(e.tag, Effective(old(cache.saved), conf), db);
    ghost var s := EncodeEntry(e, tok, cap, pos);
    var ok := PutHead(buf, e, cap, pos);
    if !ok {
      assert s == Step(Err(OutOfMemory), HeadPrefix(e, cap - pos));
      return Err(OutOfMemory);
    }
    var id := IdName(e.tag, cache, conf, db);
    assert id == tok;
    if id.None? {
      assert s == Step(Err(InvalidArgument), HeadCells(e));
      return Err(InvalidArgument);
    }
    ok := PutIdentity(buf, id.value, cap, pos + 3);
    if !ok {
      assert s == Step(Err(OutOfMemory), HeadCells(e));
      return Err(OutOfMemory);
    }
    ApplyConcat(b0, 4 * pos, HeadCells(e), IdentityCells(id.value));
    assert s == Step(Ok(pos + 4 + Vlen(|id.value|)), EntryCells(e, id.value));
    return Ok(pos + 4 + Vlen(|id.value|));
  }

  /** One step of EncodeFrom, and where the cells of that step land in the buffer. */
  lemma EncodeFromStep(es: seq<Entry>, i: nat, cap: nat, pos: nat, dom: Option<string>, db: Directory,
                       b0: seq<Byte>, written: seq<Cell>)
    requires i < |es| && pos <= cap && |written| == 4 * pos && 4 * cap <= |b0|
    ensures var s := EncodeEntry(es[i], IdToken(es[i].tag, dom, db), cap, pos);
      && Apply(Overlay(b0, written), 4 * pos, s.written) == Overlay(b0, written + s.written)
      && (s.next.Err? ==> Prepend(written, EncodeFrom(es, i, cap, pos, dom, db)) == Outcome(s.next, written + s.written))
      && (s.next.Ok? ==> Prepend(written, EncodeFrom(es, i, cap, pos, dom, db))
                         == Prepend(written + s.written, EncodeFrom(es, i + 1, cap, s.next.value, dom, db)))
  {
    var s := EncodeEntry(es[i], IdToken(es[i].tag, dom, db), cap, pos);
    ApplyConcat(b0, 0, written, s.written);
    if s.next.Ok? {
      PrependPrepend(written, s.written, EncodeFrom(es, i + 1, cap, s.next.value, dom, db));
    }
  }

  /**
   * _gacl_to_nfs4: writes the entries of acl into buf and returns the number
   * of bytes used. The buffer afterwards holds exactly the cells the
   * specification says were written, over its old contents.
   */
  method Encode(acl: Acl, buf: array<Byte>, cache: DomainCache, conf: Option<seq<string>>, db: Directory)
    returns (r: Result<nat>)
    modifies buf, cache
    ensures var o := EncodeSpec(acl.entries, buf.Length, Effective(old(cache.saved), conf), db);
      r == o.result && buf[..] == Overlay(old(buf[..]), o.written)
    ensures Effective(cache.saved, conf) == Effective(old(cache.saved), conf)
    ensures old(cache.saved).Some? ==> cache.saved == old(cache.saved)
  {
    ghost var dom := Effective(old(cache.saved), conf);
    ghost var b0 := buf[..];
    var es := acl.entries;
    var cap := buf.Length / 4;
    if cap == 0 {
      return Err(OutOfMemory);
    }
    Emit(buf, 0, WordCells(CountWord(es)));
    ghost var written := WordCells(CountWord(es));
    var pos := 1;
    var i := 0;
    while i < |es|
      invariant 0 <= i <= |es| && 1 <= pos <= cap
      invariant |written| == 4 * pos
      invariant buf[..] == Overlay(b0, written)
      invariant Effective(cache.saved, conf) == dom
      invariant old(cache.saved).Some? ==> cache.saved == old(cache.saved)
      invariant Prepend(written, EncodeFrom(es, i, cap, pos, dom, db)) == EncodeSpec(es, buf.Length, dom, db)
      decreases |es| - i
    {
      EncodeFromStep(es, i, cap, pos, dom, db, b0, written);
      ghost var s := EncodeEntry(es[i], IdToken(es[i].tag, dom, db), cap, pos);
      var next := PutEntry(buf, es[i], cap, pos, cache, conf, db);
      if next.Err? {
        return next;
      }
      written := written + s.written;
      pos := next.value;
      i := i + 1;
    }
    assert written + [] == written;
    return Ok(4 * pos);
  }

  // ----- the decoder, specified ------------------------------------------------------

  /**
   * How the decoder names the "who" of an entry (gacl_impl.c:227-251): with
   * the identifier-group flag, a match of "GROUP@" under strncmp(cp,
   * "GROUP@", idlen) is the owning group and anything else a group whose gid
   * is resolved when possible; without it "OWNER@" is the owner (named
   * "group@" by the source), "EVERYONE@" is everyone, and anything else a
   * user. Unresolved ids stay -1.
   */
  function Classify(id: seq<Byte>, flags: Word, dom: Option<string>, db: Directory): (t: Tag)
    ensures t.kind in {UserObj, GroupObj, Everyone, User, Group}
    ensures t.kind in {Group, GroupObj} <==> HasBit(flags, FLAG_IDENTIFIER_GROUP)
    ensures t.kind in {UserObj, GroupObj, Everyone} ==> t.ugid == NO_ID
  {
    if HasBit(flags, FLAG_IDENTIFIER_GROUP) then
      if MatchesLiteral(id, GROUP_AT) then Tag(GroupObj, NO_ID, "group@")
      else Tag(Group, GidOfToken(id, dom, db, NO_ID).id, Chars(CStr(id)))
    else if MatchesLiteral(id, OWNER_AT) then Tag(UserObj, NO_ID, "group@")
    else if MatchesLiteral(id, EVERYONE_AT) then Tag(Everyone, NO_ID, "everyone@")
    else Tag(User, UidOfToken(id, db, NO_ID).id, Chars(CStr(id)))
  }

  /** The four words of an entry as read, its identity bytes and the offset of the next entry. */
  datatype Head = Head(etype: Word, flags: Word, perms: Word, id: seq<Byte>, next: nat)

  /**
   * The words and identity at byte offset off. The source reads without
   * looking at the buffer size; here a buffer too short for the four words
   * or for the identity is Malformed.
   */
  function HeadAt(buf: seq<Byte>, off: nat): (r: Result<Head>)
    ensures r.Ok? <==> off + 16 <= |buf| && off + 16 + ReadWord(buf, off + 12) <= |buf|
    ensures r.Ok? ==> |r.value.id| == ReadWord(buf, off + 12) && r.value.next == off + 16 + 4 * Vlen(|r.value.id|)
  {
    if off + 16 > |buf| then Err(Malformed)
    else
      var idlen := ReadWord(buf, off + 12);
      if off + 16 + idlen > |buf| then Err(Malformed)
      else Ok(Head(ReadWord(buf, off), ReadWord(buf, off + 4), ReadWord(buf, off + 8),
                   buf[off + 16..off + 16 + idlen], off + 16 + 4 * Vlen(idlen)))
  }

  /** The generic entry for a head read from the wire. */
  function EntryOf(h: Head, dom: Option<string>, db: Directory): Entry {
    Entry(Classify(h.id, h.flags, dom, db), h.etype, h.flags, h.perms)
  }

  /** The heads of entries i..n-1, the first of them at byte offset off. */
  function HeadsFrom(buf: seq<Byte>, off: nat, i: nat, n: nat): (r: Result<seq<Head>>)
    requires i <= n
    ensures r.Ok? ==> |r.value| == n - i
    decreases n - i
  {
    if i == n then Ok([])
    else
      match HeadAt(buf, off)
      case Err(x) => Err(x)
      case Ok(h) =>
        match HeadsFrom(buf, h.next, i + 1, n)
        case Err(x) => Err(x)
        case Ok(rest) => Ok([h] + rest)
  }

  /** The count word, then that many entry heads. */
  function HeadsSpec(buf: seq<Byte>): (r: Result<seq<Head>>)
    ensures r.Ok? ==> 4 <= |buf| && |r.value| == ReadWord(buf, 0)
  {
    if |buf| < 4 then Err(Malformed) else HeadsFrom(buf, 4, 0, ReadWord(buf, 0))
  }

  /** The generic entries for the heads hs, in order. */
  function EntriesOf(hs: seq<Head>, dom: Option<string>, db: Directory): (r: seq<Entry>)
    ensures |r| == |hs|
  {
    seq(|hs|, k requires 0 <= k < |hs| => EntryOf(hs[k], dom, db))
  }

  lemma EntriesOfAppend(hs: seq<Head>, h: Head, dom: Option<string>, db: Directory)
    ensures EntriesOf(hs + [h], dom, db) == EntriesOf(hs, dom, db) + [EntryOf(h, dom, db)]
  {
    var l, r := EntriesOf(hs + [h], dom, db), EntriesOf(hs, dom, db) + [EntryOf(h, dom, db)];
    forall k | 0 <= k < |l| ensures l[k] == r[k] {
      if k < |hs| {
        assert (hs + [h])[k] == hs[k];
      }
    }
  }

  /** _gacl_init_from_nfs4 on a buffer: the count word, then that many entries. */
  function DecodeSpec(buf: seq<Byte>, dom: Option<string>, db: Directory): (r: Result<seq<Entry>>)
    ensures r.Ok? ==> 4 <= |buf| && |r.value| == ReadWord(buf, 0)
  {
    match HeadsSpec(buf)
    case Err(x) => Err(x)
    case Ok(hs) => Ok(EntriesOf(hs, dom, db))
  }

  /** Every head HeadsFrom accepts lies inside the buffer: 16 bytes of words for each. */
  lemma {:induction false} HeadsFromFits(buf: seq<Byte>, off: nat, i: nat, n: nat)
    requires i < n && HeadsFrom(buf, off, i, n).Ok?
    ensures off + 16 * (n - i) <= |buf|
    decreases n - i
  {
    var h := HeadAt(buf, off).value;
    if i + 1 < n {
      HeadsFromFits(buf, h.next, i + 1, n);
    }
  }

  /** A decoded buffer holds the count word and the four words of every entry it declares. */
  lemma DecodeFits(buf: seq<Byte>, dom: Option<string>, db: Directory)
    requires DecodeSpec(buf, dom, db).Ok?
    ensures 4 + 16 * ReadWord(buf, 0) <= |buf|
  {
    if ReadWord(buf, 0) > 0 {
      HeadsFromFits(buf, 4, 0, ReadWord(buf, 0));
    }
  }

  /**
   * The decoder as gacl_impl.c writes it: bufsize is never read, so the
   * words are taken from mem, the buffer followed by whatever memory lies
   * after it; only running off the end of mem stops it.
   */
  function DecodeAsWritten(mem: seq<Byte>, bufsize: nat, dom: Option<string>, db: Directory): (r: Result<seq<Entry>>)
    ensures r.Ok? ==> 4 <= |mem| && |r.value| == ReadWord(mem, 0)
  {
    DecodeSpec(mem, dom, db)
  }

  /**
   * A four-byte buffer whose count word says one entry: as written, the
   * entry is read from the sixteen bytes after the buffer; the corrected
   * decoder, confined to the buffer, reports it malformed.
   */
  lemma DecodeReadsPastBuffer(dom: Option<string>, db: Directory)
    ensures var mem: seq<Byte> := [0, 0, 0, 1] + seq(16, _ => 0);
      var r := DecodeAsWritten(mem, 4, dom, db);
      r.Ok? && |r.value| == 1 && DecodeSpec(mem[..4], dom, db) == Err(Malformed)
  {
    var mem: seq<Byte> := [0, 0, 0, 1] + seq(16, _ => 0);
    assert ReadWord(mem, 0) == 1;
    assert ReadWord(mem, 16) == 0;
    assert ReadWord(mem[..4], 0) == 1;
  }

  /** A result with the heads hs before it. */
  function Glue(hs: seq<Head>, r: Result<seq<Head>>): Result<seq<Head>> {
    match r
    case Ok(rest) => Ok(hs + rest)
    case Err(x) => Err(x)
  }

  lemma GlueNil(r: Result<seq<Head>>)
    ensures Glue([], r) == r
  {
    if r.Ok? {
      assert [] + r.value == r.value;
    }
  }

  // ----- the decoder -------------------------------------------------------------------

  /** The classification of gacl_impl.c:227-251, resolving ids through the cached domain. */
  method Identify(id: seq<Byte>, flags: Word, cache: DomainCache, conf: Option<seq<string>>, db: Directory)
    returns (t: Tag)
    modifies cache
    ensures t == Classify(id, flags, Effective(old(cache.saved), conf), db)
    ensures Effective(cache.saved, conf) == Effective(old(cache.saved), conf)
    ensures old(cache.saved).Some? ==> cache.saved == old(cache.saved)
  {
    if HasBit(flags, FLAG_IDENTIFIER_GROUP) {
      if MatchesLiteral(id, GROUP_AT) {
        t := Tag(GroupObj, NO_ID, "group@");
      } else {
        var rc, gid := IdToGid(id, cache, conf, db, NO_ID);
        t := Tag(Group, gid, Chars(CStr(id)));
      }
    } else if MatchesLiteral(id, OWNER_AT) {
      t := Tag(UserObj, NO_ID, "group@");
    } else if MatchesLiteral(id, EVERYONE_AT) {
      t := Tag(Everyone, NO_ID, "everyone@");
    } else {
      var rc, uid := IdToUid(id, db, NO_ID);
      t := Tag(User, uid, Chars(CStr(id)));
    }
  }

  lemma HeadsFromStep(buf: seq<Byte>, off: nat, i: nat, n: nat, done: seq<Head>)
    requires i < n
    ensures var d := HeadAt(buf, off);
      && (d.Err? ==> Glue(done, HeadsFrom(buf, off, i, n)) == Err(d.error))
      && (d.Ok? ==> Glue(done, HeadsFrom(buf, off, i, n)) == Glue(done + [d.value], HeadsFrom(buf, d.value.next, i + 1, n)))
  {
    var d := HeadAt(buf, off);
    if d.Ok? {
      var rest := HeadsFrom(buf, d.value.next, i + 1, n);
      if rest.Ok? {
        assert done + ([d.value] + rest.value) == done + [d.value] + rest.value;
      }
    }
  }

  /** The reads of one pass of the loop body of _gacl_init_from_nfs4 (gacl_impl.c:220-224), checked. */
  method ReadHead(buf: seq<Byte>, off: nat) returns (r: Result<Head>)
    ensures r == HeadAt(buf, off)
  {
    if off + 16 > |buf| {
      return Err(Malformed);
    }
    var etype := ReadWord(buf, off);
    var flags := ReadWord(buf, off + 4);
    var perms := ReadWord(buf, off + 8);
    var idlen := ReadWord(buf, off + 12);
    if off + 16 + idlen > |buf| {
      return Err(Malformed);
    }
    var vlen: nat := idlen / 4;
    if idlen % 4 != 0 {
      vlen := vlen + 1;
    }
    return Ok(Head(etype, flags, perms, buf[off + 16..off + 16 + idlen], off + 16 + 4 * vlen));
  }

  /**
   * _gacl_init_from_nfs4: a new NFSv4 ACL holding the entries of buf, or
   * Malformed when buf is shorter than what it declares.
   */
  method Decode(buf: seq<Byte>, cache: DomainCache, conf: Option<seq<string>>, db: Directory)
    returns (r: Result<Acl>)
    modifies cache
    ensures var d := DecodeSpec(buf, Effective(old(cache.saved), conf), db);
      && (r.Err? <==> d.Err?)
      && (r.Err? ==> r.error == d.error)
      && (r.Ok? ==> fresh(r.value) && r.value.Valid() && r.value.aclType == TypeNfs4 && r.value.entries == d.value)
    ensures Effective(cache.saved, conf) == Effective(old(cache.saved), conf)
    ensures old(cache.saved).Some? ==> cache.saved == old(cache.saved)
  {
    ghost var dom := Effective(old(cache.saved), conf);
    if |buf| < 4 {
      return Err(Malformed);
    }
    var n := ReadWord(buf, 0);
    var acl := new Acl.Init(TypeNfs4);
    var off: nat := 4;
    var i: nat := 0;
    ghost var hs: seq<Head> := [];
    GlueNil(HeadsFrom(buf, off, i, n));
    while i < n
      invariant i <= n
      invariant fresh(acl) && acl.Valid() && acl.aclType == TypeNfs4 && |hs| == i
      invariant Effective(cache.saved, conf) == dom
      invariant old(cache.saved).Some? ==> cache.saved == old(cache.saved)
      invariant HeadsSpec(buf) == Glue(hs, HeadsFrom(buf, off, i, n))
      invariant acl.entries == EntriesOf(hs, dom, db)
      decreases n - i
    {
      HeadsFromStep(buf, off, i, n, hs);
      var h := ReadHead(buf, off);
      if h.Err? {
        return Err(h.error);
      }
      var tag := Identify(h.value.id, h.value.flags, cache, conf, db);
      var e := Entry(tag, h.value.etype, h.value.flags, h.value.perms);
      assert e == EntryOf(h.value, dom, db);
      EntriesOfAppend(hs, h.value, dom, db);
      InsertedAtEnd(acl.entries, e);
      var rc := acl.CreateEntry(i, e);
      hs := hs + [h.value];
      off := h.value.next;
      i := i + 1;
    }
    assert hs + [] == hs;
    return Ok(acl);
  }
}
