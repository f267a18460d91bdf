/*
 * What the NFSv4 attribute codec preserves: the layout of a successful
 * encoding, and what decoding that encoding gives back.
 */
module Nfs4RoundTrip {
  import opened Base
  import opened Bits
  import opened Gacl
  import opened Nfs4Id
  import opened Nfs4Codec

  // ----- the identities written -------------------------------------------------------

  /** One identity per entry, None for a tag without one. */
  type Tokens = seq<Option<seq<Byte>>>

  /** Every identity fits the snprintf buffer. */
  predicate Short(ts: Tokens) {
    forall k :: 0 <= k < |ts| && ts[k].Some? ==> |ts[k].value| < TBUF_SIZE
  }

  predicate AllSome(ts: Tokens) {
    forall k :: 0 <= k < |ts| ==> ts[k].Some?
  }

  /** The identity the encoder writes for each entry. */
  function TokensOf(es: seq<Entry>, dom: Option<string>, db: Directory): (r: Tokens)
    ensures |r| == |es| && Short(r)
  {
    seq(|es|, k requires 0 <= k < |es| => IdToken(es[k].tag, dom, db))
  }

  lemma TokensOfAt(es: seq<Entry>, dom: Option<string>, db: Directory, k: nat)
    requires k < |es|
    ensures TokensOf(es, dom, db)[k] == IdToken(es[k].tag, dom, db)
    ensures TokensOf(es, dom, db)[k].Some? <==> Encodable(es[k].tag.kind)
  {
  }

  predicate AllEncodable(es: seq<Entry>) {
    forall k :: 0 <= k < |es| ==> Encodable(es[k].tag.kind)
  }

  lemma AllSomeEncodable(es: seq<Entry>, dom: Option<string>, db: Directory)
    ensures AllSome(TokensOf(es, dom, db)) <==> AllEncodable(es)
  {
    var ts := TokensOf(es, dom, db);
    forall k | 0 <= k < |es| ensures ts[k].Some? <==> Encodable(es[k].tag.kind) {
      TokensOfAt(es, dom, db, k);
    }
  }

  // ----- the layout of a successful encoding ---------------------------------------

  /** The encoded entries es[i..], each with its identity, or None when a tag has no identity. */
  function ImageFrom(es: seq<Entry>, ts: Tokens, i: nat): Option<seq<Cell>>
    requires |ts| == |es| && Short(ts) && i <= |es|
    decreases |es| - i
  {
    if i == |es| then Some([])
    else if ts[i].None? then None
    else
      match ImageFrom(es, ts, i + 1)
      case None => None
      case Some(rest) => Some(EntryCells(es[i], ts[i].value) + rest)
  }

  lemma {:induction false} EncodeFromImage(es: seq<Entry>, i: nat, cap: nat, pos: nat, dom: Option<string>, db: Directory)
    requires i <= |es| && pos <= cap
    ensures var o := EncodeFrom(es, i, cap, pos, dom, db);
      var im := ImageFrom(es, TokensOf(es, dom, db), i);
      && (o.result.Ok? <==> im.Some? && 4 * pos + |im.value| <= 4 * cap)
      && (o.result.Ok? ==> o.written == im.value)
    decreases |es| - i
  {
    if i < |es| {
      var tok := IdToken(es[i].tag, dom, db);
      TokensOfAt(es, dom, db, i);
      var s := EncodeEntry(es[i], tok, cap, pos);
      if s.next.Ok? {
        EncodeFromImage(es, i + 1, cap, s.next.value, dom, db);
      } else if tok.Some? && pos + 4 + Vlen(|tok.value|) <= cap {
        assert false;
      } else if tok.Some? {
        var rest := ImageFrom(es, TokensOf(es, dom, db), i + 1);
        if rest.Some? {
          assert |EntryCells(es[i], tok.value) + rest.value| >= 16 + 4 * Vlen(|tok.value|);
        }
      }
    }
  }

  /**
   * Encoding succeeds exactly when every tag has an identity and the count
   * word and all entries fit in the whole words of the buffer; it then
   * writes the count word followed by the entries in order and returns the
   * number of bytes written.
   */
  lemma EncodeLayout(es: seq<Entry>, bufsize: nat, dom: Option<string>, db: Directory)
    ensures var o := EncodeSpec(es, bufsize, dom, db);
      var im := ImageFrom(es, TokensOf(es, dom, db), 0);
      && (o.result.Ok? <==> im.Some? && 4 + |im.value| <= 4 * (bufsize / 4))
      && (o.result.Ok? ==> o.written == WordCells(CountWord(es)) + im.value && o.result.value == 4 + |im.value|)
  {
    if bufsize / 4 > 0 {
      EncodeFromImage(es, 0, bufsize / 4, 1, dom, db);
    }
  }

  /** Every tag the encoder does not know is EINVAL, whatever the buffer size. */
  lemma EncodeRejectsUnknownTags(es: seq<Entry>, bufsize: nat, dom: Option<string>, db: Directory, i: nat)
    requires i < |es| && !Encodable(es[i].tag.kind)
    ensures EncodeSpec(es, bufsize, dom, db).result.Err?
  {
    EncodeLayout(es, bufsize, dom, db);
    TokensOfAt(es, dom, db, i);
    ImageNoneAt(es, TokensOf(es, dom, db), 0, i);
  }

  lemma {:induction false} ImageNoneAt(es: seq<Entry>, ts: Tokens, j: nat, i: nat)
    requires |ts| == |es| && Short(ts) && j <= i < |es| && ts[i].None?
    ensures ImageFrom(es, ts, j).None?
    decreases i - j
  {
    if j < i {
      ImageNoneAt(es, ts, j + 1, i);
    }
  }

  lemma {:induction false} ImageSomeMeans(es: seq<Entry>, ts: Tokens, i: nat)
    requires |ts| == |es| && Short(ts) && i <= |es| && ImageFrom(es, ts, i).Some?
    ensures forall k :: i <= k < |es| ==> ts[k].Some?
    decreases |es| - i
  {
    if i < |es| {
      ImageSomeMeans(es, ts, i + 1);
    }
  }

  // ----- reading back what was written ------------------------------------------------

  /** The bytes of b from off on hold every Fixed cell of cs. */
  ghost predicate Realizes(b: seq<Byte>, off: nat, cs: seq<Cell>) {
    off + |cs| <= |b| && forall k :: 0 <= k < |cs| && cs[k].Fixed? ==> b[off + k] == cs[k].b
  }

  lemma {:induction false} ApplyRealizes(b: seq<Byte>, at: nat, cs: seq<Cell>)
    requires at + |cs| <= |b|
    ensures Realizes(Apply(b, at, cs), at, cs)
    ensures forall k :: 0 <= k < at ==> Apply(b, at, cs)[k] == b[k]
    decreases |cs|
  {
    if cs != [] {
      var b' := if cs[0].Fixed? then b[at := cs[0].b] else b;
      ApplyRealizes(b', at + 1, cs[1..]);
      var r := Apply(b, at, cs);
      forall k | 0 <= k < |cs| && cs[k].Fixed? ensures r[at + k] == cs[k].b {
        if k > 0 {
          assert cs[1..][k - 1] == cs[k];
        }
      }
    }
  }

  lemma RealizesSplit(b: seq<Byte>, off: nat, xs: seq<Cell>, ys: seq<Cell>)
    requires Realizes(b, off, xs + ys)
    ensures Realizes(b, off, xs) && Realizes(b, off + |xs|, ys)
  {
    forall k | 0 <= k < |xs| && xs[k].Fixed? ensures b[off + k] == xs[k].b {
      assert (xs + ys)[k] == xs[k];
    }
    forall k | 0 <= k < |ys| && ys[k].Fixed? ensures b[off + |xs| + k] == ys[k].b {
      assert (xs + ys)[|xs| + k] == ys[k];
    }
  }

  lemma RealizesPrefix(b: seq<Byte>, off: nat, cs: seq<Cell>, n: nat)
    requires Realizes(b, off, cs) && off + |cs| <= n <= |b|
    ensures Realizes(b[..n], off, cs)
  {
  }

  lemma RealizedWord(b: seq<Byte>, off: nat, w: Word)
    requires Realizes(b, off, WordCells(w))
    ensures ReadWord(b, off) == w
  {
    var cs := WordCells(w);
    assert b[off..off + 4] == WordBytes(w) by {
      forall k | 0 <= k < 4 ensures b[off + k] == WordBytes(w)[k] {
        assert cs[k] == Fixed(WordBytes(w)[k]);
      }
    }
    ReadWordBytes(w, b, off);
  }

  lemma RealizedId(b: seq<Byte>, off: nat, id: seq<Byte>)
    requires Realizes(b, off, IdCells(id))
    ensures off + |id| <= |b| && b[off..off + |id|] == id
  {
    var cs := IdCells(id);
    forall k | 0 <= k < |id| ensures b[off + k] == id[k] {
      assert cs[..|id|][k] == Fixed(id[k]);
    }
  }

  /** An encoded entry reads back as its three words and its identity. */
  lemma HeadOfEntryCells(b: seq<Byte>, off: nat, e: Entry, id: seq<Byte>)
    requires |id| < TBUF_SIZE && Realizes(b, off, EntryCells(e, id))
    ensures HeadAt(b, off) == Ok(Head(e.etype, FlagsWord(e), e.perms, id, off + 16 + 4 * Vlen(|id|)))
  {
    var w0, w1, w2 := WordCells(e.etype), WordCells(FlagsWord(e)), WordCells(e.perms);
    RealizesSplit(b, off, HeadCells(e), IdentityCells(id));
    RealizesSplit(b, off, w0 + w1, w2);
    RealizesSplit(b, off, w0, w1);
    RealizesSplit(b, off + 12, WordCells(|id|), IdCells(id));
    RealizedWord(b, off, e.etype);
    RealizedWord(b, off + 4, FlagsWord(e));
    RealizedWord(b, off + 8, e.perms);
    RealizedWord(b, off + 12, |id|);
    RealizedId(b, off + 16, id);
  }

  /** The heads the decoder reads back from the image of es[i..] written at byte offset off. */
  function WireHeads(es: seq<Entry>, ts: Tokens, i: nat, off: nat): (r: seq<Head>)
    requires |ts| == |es| && Short(ts) && AllSome(ts) && i <= |es|
    ensures |r| == |es| - i
    decreases |es| - i
  {
    if i == |es| then []
    else
      var next := off + 16 + 4 * Vlen(|ts[i].value|);
      [Head(es[i].etype, FlagsWord(es[i]), es[i].perms, ts[i].value, next)] + WireHeads(es, ts, i + 1, next)
  }

  /** The k-th head read back holds the type, flags word, mask and identity written for es[i + k]. */
  lemma {:induction false} WireHeadAt(es: seq<Entry>, ts: Tokens, i: nat, off: nat, k: nat)
    requires |ts| == |es| && Short(ts) && AllSome(ts) && i + k < |es|
    ensures var h := WireHeads(es, ts, i, off)[k];
      && h.etype == es[i + k].etype && h.flags == FlagsWord(es[i + k]) && h.perms == es[i + k].perms
      && h.id == ts[i + k].value
    decreases k
  {
    if k > 0 {
      WireHeadAt(es, ts, i + 1, off + 16 + 4 * Vlen(|ts[i].value|), k - 1);
    }
  }

  lemma {:induction false} HeadsOfImage(b: seq<Byte>, off: nat, es: seq<Entry>, ts: Tokens, i: nat)
    requires |ts| == |es| && Short(ts) && AllSome(ts) && i <= |es|
    requires ImageFrom(es, ts, i).Some? && Realizes(b, off, ImageFrom(es, ts, i).value)
    ensures HeadsFrom(b, off, i, |es|) == Ok(WireHeads(es, ts, i, off))
    decreases |es| - i
  {
    if i < |es| {
      var id := ts[i].value;
      var next := off + 16 + 4 * Vlen(|id|);
      HeadOfImage(b, off, es, ts, i);
      HeadsOfImage(b, next, es, ts, i + 1);
      HeadsFromOk(b, off, i, |es|, Head(es[i].etype, FlagsWord(es[i]), es[i].perms, id, next),
                  WireHeads(es, ts, i + 1, next));
    }
  }

  /** The first entry of an image reads back as its head; the rest of the image follows it. */
  lemma HeadOfImage(b: seq<Byte>, off: nat, es: seq<Entry>, ts: Tokens, i: nat)
    requires |ts| == |es| && Short(ts) && i < |es|
    requires ImageFrom(es, ts, i).Some? && Realizes(b, off, ImageFrom(es, ts, i).value)
    ensures ts[i].Some? && ImageFrom(es, ts, i + 1).Some?
    ensures var id := ts[i].value;
      && HeadAt(b, off) == Ok(Head(es[i].etype, FlagsWord(es[i]), es[i].perms, id, off + 16 + 4 * Vlen(|id|)))
      && Realizes(b, off + 16 + 4 * Vlen(|id|), ImageFrom(es, ts, i + 1).value)
  {
    var id := ts[i].value;
    ImageFromStep(es, ts, i);
    RealizesSplit(b, off, EntryCells(es[i], id), ImageFrom(es, ts, i + 1).value);
    HeadOfEntryCells(b, off, es[i], id);
  }

  lemma ImageFromStep(es: seq<Entry>, ts: Tokens, i: nat)
    requires |ts| == |es| && Short(ts) && i < |es| && ImageFrom(es, ts, i).Some?
    ensures ts[i].Some? && ImageFrom(es, ts, i + 1).Some?
    ensures ImageFrom(es, ts, i).value == EntryCells(es[i], ts[i].value) + ImageFrom(es, ts, i + 1).value
  {
  }

  lemma HeadsFromOk(b: seq<Byte>, off: nat, i: nat, n: nat, h: Head, rest: seq<Head>)
    requires i < n && HeadAt(b, off) == Ok(h) && HeadsFrom(b, h.next, i + 1, n) == Ok(rest)
    ensures HeadsFrom(b, off, i, n) == Ok([h] + rest)
  {
  }

  lemma CountWordOf(es: seq<Entry>)
    requires |es| < 0x1_0000_0000
    ensures CountWord(es) == |es|
  {
  }

  /** Bytes holding the count word and the image of es read back as the heads written. */
  lemma HeadsRealized(b: seq<Byte>, es: seq<Entry>, ts: Tokens)
    requires |es| < 0x1_0000_0000 && |ts| == |es| && Short(ts) && AllSome(ts) && ImageFrom(es, ts, 0).Some?
    requires Realizes(b, 0, WordCells(|es|) + ImageFrom(es, ts, 0).value)
    ensures HeadsSpec(b) == Ok(WireHeads(es, ts, 0, 4))
  {
    RealizesSplit(b, 0, WordCells(|es|), ImageFrom(es, ts, 0).value);
    RealizedWord(b, 0, |es|);
    HeadsOfImage(b, 4, es, ts, 0);
  }

  /**
   * Reading back the bytes a successful encoding wrote gives as many heads
   * as there were entries, in the same order, each holding the words and
   * the identity written for its entry, whatever the padding bytes hold.
   */
  lemma EncodeThenDecode(es: seq<Entry>, fill: seq<Byte>, dom: Option<string>, db: Directory,
                         n: nat, written: seq<Cell>)
    requires |es| < 0x1_0000_0000
    requires EncodeSpec(es, |fill|, dom, db) == Outcome(Ok(n), written)
    ensures AllSome(TokensOf(es, dom, db)) && n <= |fill|
    ensures HeadsSpec(Overlay(fill, written)[..n]) == Ok(WireHeads(es, TokensOf(es, dom, db), 0, 4))
  {
    var ts := TokensOf(es, dom, db);
    EncodeLayout(es, |fill|, dom, db);
    ImageSomeMeans(es, ts, 0);
    ApplyRealizes(fill, 0, written);
    var b := Overlay(fill, written);
    RealizesPrefix(b, 0, written, n);
    CountWordOf(es);
    HeadsRealized(b[..n], es, ts);
  }

  /**
   * The k-th decoded entry keeps the type and access mask of the k-th
   * encoded one, carries its flags word with the identifier-group bit added
   * for group tags, and has the tag the decoder classifies from the
   * identity written for it.
   */
  lemma DecodedEntry(es: seq<Entry>, fill: seq<Byte>, dom: Option<string>, db: Directory,
                     n: nat, written: seq<Cell>, k: nat)
    requires |es| < 0x1_0000_0000 && k < |es|
    requires EncodeSpec(es, |fill|, dom, db) == Outcome(Ok(n), written)
    ensures Encodable(es[k].tag.kind) && n <= |fill|
    ensures var d := DecodeSpec(Overlay(fill, written)[..n], dom, db);
      && d.Ok? && |d.value| == |es|
      && d.value[k] == Entry(TagBack(es[k], dom, db), es[k].etype, FlagsWord(es[k]), es[k].perms)
  {
    DecodeOfEncoded(es, fill, dom, db, n, written);
    var ts := TokensOf(es, dom, db);
    TokensOfAt(es, dom, db, k);
    WireEntryAt(es, ts, dom, db, k);
  }

  /** What decoding an encoded buffer yields, in terms of the heads written. */
  lemma DecodeOfEncoded(es: seq<Entry>, fill: seq<Byte>, dom: Option<string>, db: Directory,
                        n: nat, written: seq<Cell>)
    requires |es| < 0x1_0000_0000
    requires EncodeSpec(es, |fill|, dom, db) == Outcome(Ok(n), written)
    ensures AllSome(TokensOf(es, dom, db)) && n <= |fill|
    ensures DecodeSpec(Overlay(fill, written)[..n], dom, db)
      == Ok(EntriesOf(WireHeads(es, TokensOf(es, dom, db), 0, 4), dom, db))
  {
    EncodeThenDecode(es, fill, dom, db, n, written);
  }

  /** The k-th entry made from the heads written for es. */
  lemma WireEntryAt(es: seq<Entry>, ts: Tokens, dom: Option<string>, db: Directory, k: nat)
    requires |ts| == |es| && Short(ts) && AllSome(ts) && k < |es|
    ensures EntriesOf(WireHeads(es, ts, 0, 4), dom, db)[k]
      == Entry(Classify(ts[k].value, FlagsWord(es[k]), dom, db), es[k].etype, FlagsWord(es[k]), es[k].perms)
  {
    WireHeadAt(es, ts, 0, 4, k);
  }


  // ----- the tag that comes back ---------------------------------------------------------

  /** The tag the decoder classifies from the identity and the flags word written for e. */
  function TagBack(e: Entry, dom: Option<string>, db: Directory): Tag
    requires Encodable(e.tag.kind)
  {
    Classify(IdToken(e.tag, dom, db).value, FlagsWord(e), dom, db)
  }

  /**
   * OWNER@, GROUP@ and EVERYONE@ come back as the same kind with no id when
   * the identifier-group bit is on the side of the tag; the decoded owner is
   * named "group@" as the decoder names it. With the bit set on an owner or
   * everyone entry, the decoder takes the who string for a group name.
   */
  lemma SpecialTagBack(e: Entry, dom: Option<string>, db: Directory)
    requires e.tag.kind == UserObj || e.tag.kind == GroupObj || e.tag.kind == Everyone
    ensures var t := TagBack(e, dom, db);
      var g := HasBit(e.flags, FLAG_IDENTIFIER_GROUP);
      && (e.tag.kind == GroupObj ==> t == Tag(GroupObj, NO_ID, "group@"))
      && (e.tag.kind == UserObj && !g ==> t == Tag(UserObj, NO_ID, "group@"))
      && (e.tag.kind == Everyone && !g ==> t == Tag(Everyone, NO_ID, "everyone@"))
      && (e.tag.kind == UserObj && g ==> t.kind == Group && t.name == "OWNER@")
      && (e.tag.kind == Everyone && g ==> t.kind == Group && t.name == "EVERYONE@")
  {
    WhoStringsMatch();
    assert Chars(CStr(OWNER_AT)) == "OWNER@" by { WhoStringsNames(); }
    assert Chars(CStr(EVERYONE_AT)) == "EVERYONE@" by { WhoStringsNames(); }
  }

  /** Each who string matches itself and none of the others. */
  lemma WhoStringsMatch()
    ensures MatchesLiteral(GROUP_AT, GROUP_AT)
    ensures MatchesLiteral(OWNER_AT, OWNER_AT) && !MatchesLiteral(OWNER_AT, GROUP_AT)
    ensures MatchesLiteral(EVERYONE_AT, EVERYONE_AT)
    ensures !MatchesLiteral(EVERYONE_AT, GROUP_AT) && !MatchesLiteral(EVERYONE_AT, OWNER_AT)
  {
    MatchesLiteralMeans(GROUP_AT, GROUP_AT);
    MatchesLiteralMeans(OWNER_AT, GROUP_AT);
    MatchesLiteralMeans(OWNER_AT, OWNER_AT);
    MatchesLiteralMeans(EVERYONE_AT, GROUP_AT);
    MatchesLiteralMeans(EVERYONE_AT, OWNER_AT);
    MatchesLiteralMeans(EVERYONE_AT, EVERYONE_AT);
  }

  /** The names the decoder copies for OWNER@ and EVERYONE@ read as those strings. */
  lemma WhoStringsNames()
    ensures Chars(CStr(OWNER_AT)) == "OWNER@" && Chars(CStr(EVERYONE_AT)) == "EVERYONE@"
  {
    OwnerName();
    EveryoneName();
  }

  lemma OwnerName()
    ensures Chars(CStr(OWNER_AT)) == "OWNER@"
  {
    CStrOfNulFree(OWNER_AT);
    CharsOf(OWNER_AT, "OWNER@");
  }

  lemma EveryoneName()
    ensures Chars(CStr(EVERYONE_AT)) == "EVERYONE@"
  {
    EveryoneNulFree();
    CharsOf(EVERYONE_AT, "EVERYONE@");
  }

  lemma EveryoneNulFree()
    ensures CStr(EVERYONE_AT) == EVERYONE_AT
  {
    CStrOfNulFree(EVERYONE_AT);
  }

  /** Chars of bytes that spell s is s. */
  lemma CharsOf(b: seq<Byte>, s: string)
    requires |b| == |s| && forall i :: 0 <= i < |s| ==> b[i] == s[i] as int
    ensures Chars(b) == s
  {
  }

  function Pow10(k: nat): nat {
    if k == 0 then 1 else 10 * Pow10(k - 1)
  }

  lemma {:induction false} DecimalFits(n: nat, k: nat)
    requires 0 < k && n < Pow10(k)
    ensures |Decimal(n)| <= k
    decreases k
  {
    if n >= 10 {
      assert k > 1;
      assert n / 10 < Pow10(k - 1);
      DecimalFits(n / 10, k - 1);
    }
  }

  /** A decimal identity never matches a who string: its first byte is a digit. */
  lemma DecimalNotLiteral(u: Id, lit: seq<Byte>)
    requires lit == OWNER_AT || lit == GROUP_AT || lit == EVERYONE_AT
    ensures !MatchesLiteral(Latin1(Decimal(u)), lit)
  {
    var t := Latin1(Decimal(u));
    MatchesLiteralMeans(t, lit);
    assert t[0] == Decimal(u)[0] as int;
  }

  /**
   * A user or group with no name is written as its decimal id and comes
   * back with that id and the decimal as its name; it comes back as a group
   * exactly when the identifier-group bit is written for it.
   */
  lemma UnnamedTagBack(e: Entry, dom: Option<string>, db: Directory)
    requires e.tag.kind == User || e.tag.kind == Group
    requires e.tag.ugid !in (if e.tag.kind == User then db.pwuid else db.grgid)
    ensures var t := TagBack(e, dom, db);
      && t.ugid == e.tag.ugid && t.name == Decimal(e.tag.ugid)
      && (t.kind == Group <==> e.tag.kind == Group || HasBit(e.flags, FLAG_IDENTIFIER_GROUP))
      && (t.kind == User <==> !(e.tag.kind == Group || HasBit(e.flags, FLAG_IDENTIFIER_GROUP)))
  {
    var u := e.tag.ugid;
    assert Pow10(10) == 10000000000;
    DecimalFits(u, 10);
    assert IdToken(e.tag, dom, db) == Some(Latin1(Decimal(u)));
    DecimalNotLiteral(u, OWNER_AT);
    DecimalNotLiteral(u, GROUP_AT);
    DecimalNotLiteral(u, EVERYONE_AT);
    DecimalToken(u);
    IdOfDecimalToken(u, dom, db, NO_ID);
  }

  /** Latin-1 is one-to-one on names. */
  lemma Latin1Injective(a: string, b: string)
    requires IsCName(a) && IsCName(b) && a != b
    ensures Latin1(a) != Latin1(b)
  {
    CharsLatin1(a);
    CharsLatin1(b);
  }

  /** "n@rest" matches the who string "w@" only when n is w. */
  lemma NameTokenNotLiteral(n: string, rest: seq<Byte>, w: string)
    requires IsCName(n) && '@' !in n && IsCName(w) && '@' !in w && n != w
    ensures !MatchesLiteral(Latin1(n) + [AT] + rest, Latin1(w) + [AT])
  {
    var t := Latin1(n) + [AT] + rest;
    var lit := Latin1(w) + [AT];
    Latin1NulFree(w);
    assert forall j :: 0 <= j < |lit| ==> lit[j] != 0 by {
      forall j | 0 <= j < |lit| ensures lit[j] != 0 {
        if j < |w| { assert lit[j] == Latin1(w)[j]; }
      }
    }
    assert t[|n|] == AT;
    forall j | 0 <= j < |n| ensures t[j] != AT {
      assert t[j] == n[j] as int && n[j] in n;
    }
    forall j | 0 <= j < |w| ensures lit[j] != AT {
      assert lit[j] == w[j] as int && w[j] in w;
    }
    if |n| == |w| {
      Latin1Injective(n, w);
      assert t[..|n|] == Latin1(n) && lit[..|n|] == Latin1(w);
    }
    MatchesLiteralMeans(t, lit);
  }

  /** The who strings are the Latin-1 bytes of their names followed by '@'. */
  lemma WhoStringsLatin1()
    ensures OWNER_AT == Latin1("OWNER") + [AT]
    ensures GROUP_AT == Latin1("GROUP") + [AT]
    ensures EVERYONE_AT == Latin1("EVERYONE") + [AT]
  {
  }

  /** The text of a domain, "" when there is none. */
  function DomainText(dom: Option<string>): string {
    if dom.Some? then dom.value else ""
  }

  /** The identity written for a named tag, and the name the decoder copies from it. */
  lemma NameTokenOf(n: string, dom: Option<string>)
    requires IsCName(n) && (dom.Some? ==> IsCName(dom.value))
    requires |n| + 1 + |DomainText(dom)| < TBUF_SIZE
    ensures var t := Latin1(n) + [AT] + Latin1(DomainText(dom));
      && Snprintf(CBytes(n) + [AT] + DomainBytes(dom)) == t
      && Chars(CStr(t)) == n + "@" + DomainText(dom)
  {
    var s := n + "@" + DomainText(dom);
    var t := Latin1(n) + [AT] + Latin1(DomainText(dom));
    assert IsCName(s);
    assert Latin1(s) == t;
    Latin1NulFree(s);
    CStrOfNulFree(t);
    CharsLatin1(s);
  }

  /**
   * A named user is written as "name@domain" and, when getpwnam maps the
   * name back to the same uid, comes back as that user, named by the text
   * written. The name must not be a who string's (OWNER, EVERYONE), which
   * the decoder would take for that tag.
   */
  lemma NamedUserBack(e: Entry, dom: Option<string>, db: Directory)
    requires e.tag.kind == User && !HasBit(e.flags, FLAG_IDENTIFIER_GROUP)
    requires e.tag.ugid in db.pwuid
    requires var n := db.pwuid[e.tag.ugid];
      IsCName(n) && '@' !in n && n != "OWNER" && n != "EVERYONE" && n in db.pwnam && db.pwnam[n] == e.tag.ugid
    requires dom.Some? ==> IsCName(dom.value)
    requires |db.pwuid[e.tag.ugid]| + 1 + |DomainText(dom)| < TBUF_SIZE
    ensures TagBack(e, dom, db) == Tag(User, e.tag.ugid, db.pwuid[e.tag.ugid] + "@" + DomainText(dom))
  {
    var n := db.pwuid[e.tag.ugid];
    var rest := Latin1(DomainText(dom));
    var t := Latin1(n) + [AT] + rest;
    NameTokenOf(n, dom);
    assert IdToken(e.tag, dom, db) == Some(t);
    WhoStringsLatin1();
    NameTokenNotLiteral(n, rest, "OWNER");
    NameTokenNotLiteral(n, rest, "EVERYONE");
    UidOfNameToken(n, rest, db, NO_ID);
    assert TagBack(e, dom, db) == Tag(User, UidOfToken(t, db, NO_ID).id, Chars(CStr(t)));
  }

  /**
   * A named group is written as "name@domain" and, when getgrnam maps the
   * name back to the same gid, comes back as that group, named by the text
   * written; the domain written is the one the decoder compares against.
   * The name must not be GROUP, which the decoder would take for GROUP@.
   */
  lemma NamedGroupBack(e: Entry, dom: Option<string>, db: Directory)
    requires e.tag.kind == Group
    requires e.tag.ugid in db.grgid
    requires var n := db.grgid[e.tag.ugid];
      IsCName(n) && '@' !in n && n != "GROUP" && n in db.grnam && db.grnam[n] == e.tag.ugid
    requires dom.Some? ==> IsCName(dom.value)
    requires |db.grgid[e.tag.ugid]| + 1 + |DomainText(dom)| < TBUF_SIZE
    ensures TagBack(e, dom, db) == Tag(Group, e.tag.ugid, db.grgid[e.tag.ugid] + "@" + DomainText(dom))
  {
    var n := db.grgid[e.tag.ugid];
    NameTokenOf(n, dom);
    WhoStringsLatin1();
    NameTokenNotLiteral(n, Latin1(DomainText(dom)), "GROUP");
    GidOfNameToken(n, dom, db, NO_ID);
  }

  /**
   * Decoding an encoding gives back every unnamed user or group entry with
   * its kind, id, type and access mask, named by its decimal id and with the
   * flags word written, provided a user entry does not carry the
   * identifier-group bit.
   */
  lemma DecodedUnnamed(es: seq<Entry>, fill: seq<Byte>, dom: Option<string>, db: Directory,
                       n: nat, written: seq<Cell>, k: nat)
    requires |es| < 0x1_0000_0000 && k < |es|
    requires EncodeSpec(es, |fill|, dom, db) == Outcome(Ok(n), written)
    requires es[k].tag.kind == User || es[k].tag.kind == Group
    requires es[k].tag.kind == User ==> !HasBit(es[k].flags, FLAG_IDENTIFIER_GROUP)
    requires es[k].tag.ugid !in (if es[k].tag.kind == User then db.pwuid else db.grgid)
    ensures var d := DecodeSpec(Overlay(fill, written)[..n], dom, db);
      && d.Ok? && |d.value| == |es|
      && d.value[k] == es[k].(tag := Tag(es[k].tag.kind, es[k].tag.ugid, Decimal(es[k].tag.ugid)),
                              flags := FlagsWord(es[k]))
  {
    DecodedEntry(es, fill, dom, db, n, written, k);
    UnnamedTagBack(es[k], dom, db);
  }
}
