/*
 * Text forms of permission sets, flag sets and entry types: the fixed-width
 * letter strings (one position per table row, '-' for a clear bit), the
 * Samba form (the tokens of the set bits joined with '|'), and the icacls
 * forms (permissions in parentheses joined with ',', each flag in its own
 * parentheses). Each form is read back to the permission or flag word it
 * came from, which is the sense in which the text is faithful.
 */
module Render {
  import opened Base
  import opened Bits
  import opened Gacl
  import opened Tables

  // ----- the tables -------------------------------------------------------------

  /** p2c: the letter of each permission, in the order of the fourteen positions. */
  const P2C: seq<Row<char>> := [
    Row('r', 0), Row('w', 1), Row('x', 5), Row('p', 2), Row('d', 16), Row('D', 6),
    Row('a', 7), Row('A', 8), Row('R', 3), Row('W', 4), Row('c', 17), Row('C', 18),
    Row('o', 19), Row('s', 20)]

  /** f2c: the letter of each flag, in the order of the seven positions. */
  const F2C: seq<Row<char>> := [
    Row('f', 0), Row('d', 1), Row('i', 3), Row('n', 2), Row('S', 4), Row('F', 5), Row('I', 7)]

  /** p2c_windows: the Windows abbreviation of each permission. */
  const P2C_WINDOWS: seq<Row<string>> := [
    Row("R", 0), Row("W", 1), Row("X", 5), Row("D", 16), Row("P", 18), Row("O", 19),
    Row("RA", 7), Row("WA", 8), Row("DC", 6), Row("AD", 2), Row("REA", 3), Row("WEA", 4),
    Row("S", 20), Row("AS", 17)]

  /** f2c_windows: the Windows abbreviation of each flag. */
  const F2C_WINDOWS: seq<Row<string>> := [
    Row("OI", 0), Row("CI", 1), Row("I", 7), Row("NP", 2), Row("IO", 3), Row("S", 4), Row("F", 5)]

  /** The generic bit of a row of p2c, given its position in the table. */
  function P2cRow(k: nat): (i: nat)
    requires k <= 8 || 16 <= k <= 20
    ensures i < |P2C| && P2C[i].bit == k
  {
    if k == 0 then 0 else if k == 1 then 1 else if k == 5 then 2 else if k == 2 then 3
    else if k == 16 then 4 else if k == 6 then 5 else if k == 7 then 6 else if k == 8 then 7
    else if k == 3 then 8 else if k == 4 then 9 else if k == 17 then 10 else if k == 18 then 11
    else if k == 19 then 12 else 13
  }

  /** The row of p2c_windows for a permission bit. */
  function P2cWindowsRow(k: nat): (i: nat)
    requires k <= 8 || 16 <= k <= 20
    ensures i < |P2C_WINDOWS| && P2C_WINDOWS[i].bit == k
  {
    if k == 0 then 0 else if k == 1 then 1 else if k == 5 then 2 else if k == 16 then 3
    else if k == 18 then 4 else if k == 19 then 5 else if k == 7 then 6 else if k == 8 then 7
    else if k == 6 then 8 else if k == 2 then 9 else if k == 3 then 10 else if k == 4 then 11
    else if k == 20 then 12 else 13
  }

  /** The row of p2c holding a letter, or -1. */
  function PermLetterRow(c: char): int {
    if c == 'r' then 0 else if c == 'w' then 1 else if c == 'x' then 2 else if c == 'p' then 3
    else if c == 'd' then 4 else if c == 'D' then 5 else if c == 'a' then 6 else if c == 'A' then 7
    else if c == 'R' then 8 else if c == 'W' then 9 else if c == 'c' then 10 else if c == 'C' then 11
    else if c == 'o' then 12 else if c == 's' then 13 else -1
  }

  /** The row of f2c holding a letter, or -1. */
  function FlagLetterRow(c: char): int {
    if c == 'f' then 0 else if c == 'd' then 1 else if c == 'i' then 2 else if c == 'n' then 3
    else if c == 'S' then 4 else if c == 'F' then 5 else if c == 'I' then 6 else -1
  }

  /** The row of p2c_windows holding an abbreviation, or -1. */
  function PermTokenRow(s: string): int {
    if |s| == 1 then
      if s[0] == 'R' then 0 else if s[0] == 'W' then 1 else if s[0] == 'X' then 2
      else if s[0] == 'D' then 3 else if s[0] == 'P' then 4 else if s[0] == 'O' then 5
      else if s[0] == 'S' then 12 else -1
    else if |s| == 2 then
      if s[0] == 'R' && s[1] == 'A' then 6 else if s[0] == 'W' && s[1] == 'A' then 7
      else if s[0] == 'D' && s[1] == 'C' then 8
      else if s[0] == 'A' && s[1] == 'D' then 9 else if s[0] == 'A' && s[1] == 'S' then 13 else -1
    else if |s| == 3 then
      if s[0] == 'R' && s[1] == 'E' && s[2] == 'A' then 10 else if s[0] == 'W' && s[1] == 'E' && s[2] == 'A' then 11
      else -1
    else -1
  }

  /** The row of f2c_windows holding an abbreviation, or -1. */
  function FlagTokenRow(s: string): int {
    if |s| == 1 then
      if s[0] == 'I' then 2 else if s[0] == 'S' then 5 else if s[0] == 'F' then 6 else -1
    else if |s| == 2 then
      if s[0] == 'O' && s[1] == 'I' then 0 else if s[0] == 'C' && s[1] == 'I' then 1
      else if s[0] == 'N' && s[1] == 'P' then 3
      else if s[0] == 'I' && s[1] == 'O' then 4 else -1
    else -1
  }

  /** The row of f2c for a flag bit, or -1. */
  function FlagBitRow(k: nat): int {
    if k == 0 then 0 else if k == 1 then 1 else if k == 3 then 2 else if k == 2 then 3
    else if k == 4 then 4 else if k == 5 then 5 else if k == 7 then 6 else -1
  }

  /** The row of f2c_windows for a flag bit, or -1. */
  function FlagTokenBitRow(k: nat): int {
    if k == 0 then 0 else if k == 1 then 1 else if k == 7 then 2 else if k == 2 then 3
    else if k == 3 then 4 else if k == 4 then 5 else if k == 5 then 6 else -1
  }

  /** The row of p2c for a permission bit, or -1. */
  function PermBitRow(k: nat): int {
    if k <= 8 || 16 <= k <= 20 then P2cRow(k) else -1
  }

  /** The row of p2c_windows for a permission bit, or -1. */
  function PermTokenBitRow(k: nat): int {
    if k <= 8 || 16 <= k <= 20 then P2cWindowsRow(k) else -1
  }

  lemma LetterTablesInjective()
    ensures Injective(P2C) && Injective(F2C)
  {
    forall i | 0 <= i < |P2C|
      ensures PermLetterRow(P2C[i].native) == i && PermBitRow(P2C[i].bit) == i
    {
      if i == 0 {} else if i == 1 {} else if i == 2 {} else if i == 3 {} else if i == 4 {} else if i == 5 {} else if i == 6 {}
      else if i == 7 {} else if i == 8 {} else if i == 9 {} else if i == 10 {} else if i == 11 {} else if i == 12 {} else {}
    }
    InjectiveByIndex(P2C, PermLetterRow, PermBitRow);
    forall i | 0 <= i < |F2C|
      ensures FlagLetterRow(F2C[i].native) == i && FlagBitRow(F2C[i].bit) == i
    {
      if i == 0 {} else if i == 1 {} else if i == 2 {} else if i == 3 {} else if i == 4 {} else if i == 5 {} else {}
    }
    InjectiveByIndex(F2C, FlagLetterRow, FlagBitRow);
  }

  lemma PermTokensInjective()
    ensures Injective(P2C_WINDOWS)
  {
    forall i | 0 <= i < |P2C_WINDOWS|
      ensures PermTokenRow(P2C_WINDOWS[i].native) == i && PermTokenBitRow(P2C_WINDOWS[i].bit) == i
    {
      if i == 0 {} else if i == 1 {} else if i == 2 {} else if i == 3 {} else if i == 4 {} else if i == 5 {} else if i == 6 {}
      else if i == 7 {} else if i == 8 {} else if i == 9 {} else if i == 10 {} else if i == 11 {} else if i == 12 {} else {}
    }
    InjectiveByIndex(P2C_WINDOWS, PermTokenRow, PermTokenBitRow);
  }

  lemma FlagTokensInjective()
    ensures Injective(F2C_WINDOWS)
  {
    forall i | 0 <= i < |F2C_WINDOWS|
      ensures FlagTokenRow(F2C_WINDOWS[i].native) == i && FlagTokenBitRow(F2C_WINDOWS[i].bit) == i
    {
      if i == 0 {} else if i == 1 {} else if i == 2 {} else if i == 3 {} else if i == 4 {} else if i == 5 {} else {}
    }
    InjectiveByIndex(F2C_WINDOWS, FlagTokenRow, FlagTokenBitRow);
  }

  /** The permission tables stand for exactly the bits of PERMS_ALL. */
  lemma PermTablesCover()
    ensures Covers(P2C, PERMS_ALL) && Covers(P2C_WINDOWS, PERMS_ALL)
  {
    forall k: nat ensures (exists i :: 0 <= i < |P2C| && P2C[i].bit == k) <==> TestBit(PERMS_ALL, k) {
      PermsAllBits(k);
      if k <= 8 || 16 <= k <= 20 {
        var i := P2cRow(k);
      }
    }
    forall k: nat ensures (exists i :: 0 <= i < |P2C_WINDOWS| && P2C_WINDOWS[i].bit == k) <==> TestBit(PERMS_ALL, k) {
      PermsAllBits(k);
      if k <= 8 || 16 <= k <= 20 {
        var i := P2cWindowsRow(k);
      }
    }
  }

  /** The flag tables stand for exactly the bits of FLAGS_ALL. */
  lemma FlagTablesCover()
    ensures Covers(F2C, FLAGS_ALL) && Covers(F2C_WINDOWS, FLAGS_ALL)
  {
    forall k: nat ensures (exists i :: 0 <= i < |F2C| && F2C[i].bit == k) <==> TestBit(FLAGS_ALL, k) {
      FlagsAllBits(k);
      if k < 8 && k != 6 {
        var i := if k == 0 then 0 else if k == 1 then 1 else if k == 3 then 2 else if k == 2 then 3
          else if k == 4 then 4 else if k == 5 then 5 else 6;
        assert F2C[i].bit == k;
      }
    }
    forall k: nat ensures (exists i :: 0 <= i < |F2C_WINDOWS| && F2C_WINDOWS[i].bit == k) <==> TestBit(FLAGS_ALL, k) {
      FlagsAllBits(k);
      if k < 8 && k != 6 {
        var i := if k == 0 then 0 else if k == 1 then 1 else if k == 7 then 2 else if k == 2 then 3
          else if k == 3 then 4 else if k == 4 then 5 else 6;
        assert F2C_WINDOWS[i].bit == k;
      }
    }
  }

  // ----- fixed-width letter strings ------------------------------------------------

  /** One position per row of the first n rows: the row's letter when its bit is set in w, else '-'. */
  function Symbolic(table: seq<Row<char>>, w: nat, n: nat): (s: string)
    requires n <= |table|
    ensures |s| == n
  {
    if n == 0 then ""
    else Symbolic(table, w, n - 1) + [if HasBit(w, Pow2(table[n - 1].bit)) then table[n - 1].native else '-']
  }

  /** permset2str: fourteen letters. */
  function PermString(perms: Word): (s: string)
    ensures |s| == 14
  {
    Symbolic(P2C, perms, |P2C|)
  }

  /** flagset2str: seven letters. */
  function FlagString(flags: Word): (s: string)
    ensures |s| == 7
  {
    Symbolic(F2C, flags, |F2C|)
  }

  /** The letters of a letter string that are not '-'. */
  function Marked(s: string): set<char> {
    set i | 0 <= i < |s| && s[i] != '-' :: s[i]
  }

  /** The marked letters are those of the rows whose bit is set. */
  lemma {:induction false} MarkedSymbolic(table: seq<Row<char>>, w: nat, n: nat)
    requires n <= |table|
    requires forall i :: 0 <= i < |table| ==> table[i].native != '-'
    ensures Marked(Symbolic(table, w, n)) == Spread(table, w, n)
  {
    if n > 0 {
      MarkedSymbolic(table, w, n - 1);
      var s := Symbolic(table, w, n);
      var p := Symbolic(table, w, n - 1);
      assert s == p + [s[n - 1]];
      assert forall i :: 0 <= i < n - 1 ==> s[i] == p[i];
      forall c ensures c in Marked(s) <==> c in Marked(p) || (c == s[n - 1] && c != '-') {
        if c in Marked(s) {
          var i :| 0 <= i < |s| && s[i] != '-' && s[i] == c;
          if i < n - 1 {
            assert p[i] == c;
          }
        }
        if c in Marked(p) {
          var i :| 0 <= i < |p| && p[i] != '-' && p[i] == c;
          assert s[i] == c;
        }
      }
    }
  }

  /** A letter string keeps exactly the covered bits: reading its marked letters back gives them. */
  lemma SymbolicReadBack(table: seq<Row<char>>, w: nat, mask: nat)
    requires Injective(table) && Covers(table, mask)
    requires forall i :: 0 <= i < |table| ==> table[i].native != '-'
    ensures Collected(table, Marked(Symbolic(table, w, |table|)), |table|) == And(w, mask)
  {
    MarkedSymbolic(table, w, |table|);
    ThroughNative(table, w, mask);
  }

  /** A letter string only looks at the covered bits. */
  lemma {:induction false} SymbolicMasked(table: seq<Row<char>>, w: nat, mask: nat, n: nat)
    requires n <= |table| && Covers(table, mask)
    ensures Symbolic(table, w, n) == Symbolic(table, And(w, mask), n)
  {
    if n > 0 {
      SymbolicMasked(table, w, mask, n - 1);
      var b := table[n - 1].bit;
      HasBitPow2(w, b);
      HasBitPow2(And(w, mask), b);
      AndBit(w, mask, b);
      assert TestBit(mask, b);
    }
  }

  /** Two permission words print alike exactly when they agree on the fourteen permissions. */
  lemma PermStringSame(a: Word, b: Word)
    ensures PermString(a) == PermString(b) <==> And(a, PERMS_ALL) == And(b, PERMS_ALL)
  {
    LetterTablesInjective();
    PermTablesCover();
    SymbolicReadBack(P2C, a, PERMS_ALL);
    SymbolicReadBack(P2C, b, PERMS_ALL);
    SymbolicMasked(P2C, a, PERMS_ALL, |P2C|);
    SymbolicMasked(P2C, b, PERMS_ALL, |P2C|);
  }

  /** Two flag words print alike exactly when they agree on the seven flags. */
  lemma FlagStringSame(a: Word, b: Word)
    ensures FlagString(a) == FlagString(b) <==> And(a, FLAGS_ALL) == And(b, FLAGS_ALL)
  {
    LetterTablesInjective();
    FlagTablesCover();
    SymbolicReadBack(F2C, a, FLAGS_ALL);
    SymbolicReadBack(F2C, b, FLAGS_ALL);
    SymbolicMasked(F2C, a, FLAGS_ALL, |F2C|);
    SymbolicMasked(F2C, b, FLAGS_ALL, |F2C|);
  }

  /**
   * permset2str and flagset2str: res[i] is the letter of row i or '-', for
   * every row of the table, and the string is closed with a NUL.
   */
  method FillLetters(table: seq<Row<char>>, w: Word, res: array<char>)
    requires |table| < res.Length
    modifies res
    ensures res[..|table|] == Symbolic(table, w, |table|)
    ensures res[|table|] == '\0'
    ensures res[|table| + 1..] == old(res[|table| + 1..])
  {
    var i := 0;
    while i < |table|
      invariant 0 <= i <= |table|
      invariant res[..i] == Symbolic(table, w, i)
      invariant res[|table|..] == old(res[|table|..])
    {
      res[i] := if HasBit(w, Pow2(table[i].bit)) then table[i].native else '-';
      assert res[..i + 1] == res[..i] + [res[i]];
      i := i + 1;
    }
    res[i] := '\0';
    assert res[i + 1..] == old(res[|table|..])[1..];
  }

  // ----- joined and wrapped token strings -------------------------------------------

  /** The tokens of the first n rows whose bit is set in w, in table order. */
  function Tokens(table: seq<Row<string>>, w: nat, n: nat): (ts: seq<string>)
    requires n <= |table|
    ensures |ts| <= n
    ensures forall t :: t in ts ==> exists i :: 0 <= i < n && table[i].native == t
  {
    if n == 0 then []
    else Tokens(table, w, n - 1) + (if HasBit(w, Pow2(table[n - 1].bit)) then [table[n - 1].native] else [])
  }

  /** An empty word has no tokens. */
  lemma {:induction false} NoTokens(table: seq<Row<string>>, n: nat)
    requires n <= |table|
    ensures Tokens(table, 0, n) == []
  {
    if n > 0 {
      NoTokens(table, n - 1);
    }
  }

  /** permset2str_icacls of an empty permission set: the parentheses alone. */
  lemma IcaclsPermsNone()
    ensures IcaclsPerms(0) == "()"
  {
    NoTokens(P2C_WINDOWS, |P2C_WINDOWS|);
  }

  /** flagset2str_icacls of no flags. */
  lemma IcaclsFlagsNone()
    ensures IcaclsFlags(0) == ""
  {
    NoTokens(F2C_WINDOWS, |F2C_WINDOWS|);
  }

  /** The distinct elements of a sequence of tokens. */
  function Elems(ts: seq<string>): set<string> {
    set t | t in ts
  }

  /** The tokens present are the native values spread from w. */
  lemma {:induction false} TokensSpread(table: seq<Row<string>>, w: nat, n: nat)
    requires n <= |table|
    ensures Elems(Tokens(table, w, n)) == Spread(table, w, n)
  {
    if n > 0 {
      TokensSpread(table, w, n - 1);
    }
  }

  /** The tokens joined with sep between neighbours. */
  function Join(ts: seq<string>, sep: char): string {
    if |ts| == 0 then ""
    else if |ts| == 1 then ts[0]
    else Join(ts[..|ts| - 1], sep) + [sep] + ts[|ts| - 1]
  }

  /** Joining one more token puts the separator before it, unless it is the first. */
  lemma JoinSnoc(ts: seq<string>, t: string, sep: char)
    ensures Join(ts + [t], sep) == if ts == [] then t else Join(ts, sep) + [sep] + t
  {
    assert (ts + [t])[..|ts|] == ts;
  }

  /** Each token in its own parentheses, concatenated. */
  function Wrapped(ts: seq<string>): string {
    if |ts| == 0 then "" else Wrapped(ts[..|ts| - 1]) + "(" + ts[|ts| - 1] + ")"
  }

  /** The index of the last c in s, or -1. */
  function LastIndex(s: string, c: char): (i: int)
    ensures -1 <= i < |s|
    ensures 0 <= i ==> s[i] == c && c !in s[i + 1..]
    ensures i == -1 ==> c !in s
  {
    if s == [] then -1
    else if s[|s| - 1] == c then |s| - 1
    else
      var i := LastIndex(s[..|s| - 1], c);
      assert s == s[..|s| - 1] + [s[|s| - 1]];
      i
  }

  /** The pieces of s between the occurrences of sep; the empty string has none. */
  function Split(s: string, sep: char): seq<string>
    decreases |s|
  {
    var i := LastIndex(s, sep);
    if i < 0 then (if s == "" then [] else [s])
    else Split(s[..i], sep) + [s[i + 1..]]
  }

  /** The text inside the parentheses of a wrapped string, or None when it is not one. */
  function Unwrap(s: string): Option<seq<string>>
    decreases |s|
  {
    if s == "" then Some([])
    else if s[|s| - 1] != ')' then None
    else
      var i := LastIndex(s, '(');
      if i < 0 then None
      else match Unwrap(s[..i])
        case None => None
        case Some(ts) => Some(ts + [s[i + 1..|s| - 1]])
  }

  /** Tokens a separator can split: not empty and without the separator. */
  predicate Splittable(ts: seq<string>, sep: char) {
    forall i :: 0 <= i < |ts| ==> ts[i] != "" && sep !in ts[i]
  }

  /** The last c of a + [c] + t, when t has none, is the one after a. */
  lemma LastIndexAfter(a: string, c: char, t: string)
    requires c !in t
    ensures LastIndex(a + [c] + t, c) == |a|
  {
    var s := a + [c] + t;
    assert s[|a|] == c;
    assert s[|a| + 1..] == t;
  }

  /** Splitting at a last separator splits off the last piece. */
  lemma SplitSnoc(j: string, sep: char, last: string)
    requires last != "" && sep !in last
    ensures Split(j + [sep] + last, sep) == Split(j, sep) + [last]
  {
    var s := j + [sep] + last;
    LastIndexAfter(j, sep, last);
    assert s[..|j|] == j && s[|j| + 1..] == last;
  }

  /** Splitting a joined string gives the tokens back. */
  lemma {:induction false} SplitJoin(ts: seq<string>, sep: char)
    requires Splittable(ts, sep)
    ensures Split(Join(ts, sep), sep) == ts
    decreases |ts|
  {
    if |ts| == 1 {
      SplitOne(ts[0], sep);
    } else if |ts| > 1 {
      var init, last := ts[..|ts| - 1], ts[|ts| - 1];
      assert Splittable(init, sep) by {
        forall i | 0 <= i < |init| ensures init[i] != "" && sep !in init[i] {
          assert init[i] == ts[i];
        }
      }
      SplitJoin(init, sep);
      SplitJoinStep(init, last, sep);
      assert init + [last] == ts;
    }
  }

  /** A single token splits to itself. */
  lemma SplitOne(t: string, sep: char)
    requires t != "" && sep !in t
    ensures Split(Join([t], sep), sep) == [t]
  {
    assert LastIndex(t, sep) == -1;
  }

  /** One more token joined on is split off again. */
  lemma SplitJoinStep(init: seq<string>, last: string, sep: char)
    requires |init| > 0 && last != "" && sep !in last
    requires Split(Join(init, sep), sep) == init
    ensures Split(Join(init + [last], sep), sep) == init + [last]
  {
    JoinSnoc(init, last, sep);
    SplitSnoc(Join(init, sep), sep, last);
  }

  /** Unwrapping at a last parenthesised piece unwraps it. */
  lemma UnwrapSnoc(w: string, last: string)
    requires '(' !in last && ')' !in last
    ensures Unwrap(w + "(" + last + ")") == match Unwrap(w)
      case None => None
      case Some(ts) => Some(ts + [last])
  {
    var s := w + "(" + last + ")";
    assert s == w + ['('] + (last + ")");
    LastIndexAfter(w, '(', last + ")");
    assert s[..|w|] == w && s[|w| + 1..|s| - 1] == last;
  }

  /** Unwrapping a wrapped string gives the tokens back. */
  lemma {:induction false} UnwrapWrapped(ts: seq<string>)
    requires forall i :: 0 <= i < |ts| ==> '(' !in ts[i] && ')' !in ts[i]
    ensures Unwrap(Wrapped(ts)) == Some(ts)
    decreases |ts|
  {
    if |ts| > 0 {
      var init := ts[..|ts| - 1];
      UnwrapWrapped(init);
      UnwrapSnoc(Wrapped(init), ts[|ts| - 1]);
      assert init + [ts[|ts| - 1]] == ts;
    }
  }

  /** Tokens from a table whose values are non-empty and free of sep can be split. */
  lemma TokensSplittable(table: seq<Row<string>>, w: nat, sep: char)
    requires forall i :: 0 <= i < |table| ==> table[i].native != "" && sep !in table[i].native
    ensures Splittable(Tokens(table, w, |table|), sep)
  {
    var ts := Tokens(table, w, |table|);
    forall i | 0 <= i < |ts| ensures ts[i] != "" && sep !in ts[i] {
      assert ts[i] in ts;
    }
  }

  /** Reading the tokens of the set bits back gives the covered bits of w. */
  lemma TokensReadBack(table: seq<Row<string>>, w: nat, mask: nat)
    requires Injective(table) && Covers(table, mask)
    ensures Collected(table, Elems(Tokens(table, w, |table|)), |table|) == And(w, mask)
  {
    TokensSpread(table, w, |table|);
    ThroughNative(table, w, mask);
  }

  /** permset2str_samba: the abbreviations of the set permissions joined with '|'. */
  function SambaPerms(perms: Word): string {
    Join(Tokens(P2C_WINDOWS, perms, |P2C_WINDOWS|), '|')
  }

  /** flagset2str_samba: the abbreviations of the set flags joined with '|'. */
  function SambaFlags(flags: Word): string {
    Join(Tokens(F2C_WINDOWS, flags, |F2C_WINDOWS|), '|')
  }

  /** permset2str_icacls: the abbreviations of the set permissions joined with ',' in parentheses. */
  function IcaclsPerms(perms: Word): string {
    "(" + Join(Tokens(P2C_WINDOWS, perms, |P2C_WINDOWS|), ',') + ")"
  }

  /** flagset2str_icacls: the abbreviation of each set flag in its own parentheses. */
  function IcaclsFlags(flags: Word): string {
    Wrapped(Tokens(F2C_WINDOWS, flags, |F2C_WINDOWS|))
  }

  /** The Samba permission string names exactly the fourteen permissions set in the word. */
  lemma SambaPermsReadBack(perms: Word)
    ensures Collected(P2C_WINDOWS, Elems(Split(SambaPerms(perms), '|')), |P2C_WINDOWS|)
      == And(perms, PERMS_ALL)
  {
    PermTokensInjective();
    PermTablesCover();
    TokensSplittable(P2C_WINDOWS, perms, '|');
    SplitJoin(Tokens(P2C_WINDOWS, perms, |P2C_WINDOWS|), '|');
    TokensReadBack(P2C_WINDOWS, perms, PERMS_ALL);
  }

  /** The Samba flag string names exactly the seven flags set in the word. */
  lemma SambaFlagsReadBack(flags: Word)
    ensures Collected(F2C_WINDOWS, Elems(Split(SambaFlags(flags), '|')), |F2C_WINDOWS|)
      == And(flags, FLAGS_ALL)
  {
    FlagTokensInjective();
    FlagTablesCover();
    TokensSplittable(F2C_WINDOWS, flags, '|');
    SplitJoin(Tokens(F2C_WINDOWS, flags, |F2C_WINDOWS|), '|');
    TokensReadBack(F2C_WINDOWS, flags, FLAGS_ALL);
  }

  /** The icacls permission string is parenthesised and names exactly the permissions set. */
  lemma IcaclsPermsReadBack(perms: Word)
    ensures var s := IcaclsPerms(perms);
      2 <= |s| && s[0] == '(' && s[|s| - 1] == ')' &&
      Collected(P2C_WINDOWS, Elems(Split(s[1..|s| - 1], ',')), |P2C_WINDOWS|) == And(perms, PERMS_ALL)
  {
    var j := Join(Tokens(P2C_WINDOWS, perms, |P2C_WINDOWS|), ',');
    var s := IcaclsPerms(perms);
    assert s[1..|s| - 1] == j;
    PermTokensInjective();
    PermTablesCover();
    TokensSplittable(P2C_WINDOWS, perms, ',');
    SplitJoin(Tokens(P2C_WINDOWS, perms, |P2C_WINDOWS|), ',');
    TokensReadBack(P2C_WINDOWS, perms, PERMS_ALL);
  }

  /** The icacls flag string is a run of parenthesised names of exactly the flags set. */
  lemma IcaclsFlagsReadBack(flags: Word)
    ensures Unwrap(IcaclsFlags(flags)).Some?
    ensures Collected(F2C_WINDOWS, Elems(Unwrap(IcaclsFlags(flags)).value), |F2C_WINDOWS|)
      == And(flags, FLAGS_ALL)
  {
    FlagTokensInjective();
    FlagTablesCover();
    var ts := Tokens(F2C_WINDOWS, flags, |F2C_WINDOWS|);
    forall i | 0 <= i < |ts| ensures '(' !in ts[i] && ')' !in ts[i] {
      assert ts[i] in ts;
    }
    UnwrapWrapped(ts);
    TokensReadBack(F2C_WINDOWS, flags, FLAGS_ALL);
  }

  /**
   * The strcat loop of permset2str_samba, permset2str_icacls and
   * flagset2str_samba: every set row's token, with sep before all but the first.
   */
  method JoinTokens(table: seq<Row<string>>, w: Word, sep: char) returns (res: string)
    ensures res == Join(Tokens(table, w, |table|), sep)
  {
    res := "";
    var n := 0;
    var i := 0;
    while i < |table|
      invariant 0 <= i <= |table|
      invariant n == |Tokens(table, w, i)|
      invariant res == Join(Tokens(table, w, i), sep)
    {
      if HasBit(w, Pow2(table[i].bit)) {
        ghost var before := Tokens(table, w, i);
        assert Tokens(table, w, i + 1) == before + [table[i].native];
        JoinSnoc(before, table[i].native, sep);
        if n > 0 {
          res := res + [sep];
        }
        n := n + 1;
        res := res + table[i].native;
      } else {
        assert Tokens(table, w, i + 1) == Tokens(table, w, i);
      }
      i := i + 1;
    }
  }

  /** The strcat loop of flagset2str_icacls: each set row's token in parentheses. */
  method WrapTokens(table: seq<Row<string>>, w: Word) returns (res: string)
    ensures res == Wrapped(Tokens(table, w, |table|))
  {
    res := "";
    var i := 0;
    while i < |table|
      invariant 0 <= i <= |table|
      invariant res == Wrapped(Tokens(table, w, i))
    {
      if HasBit(w, Pow2(table[i].bit)) {
        ghost var before := Tokens(table, w, i);
        assert Tokens(table, w, i + 1) == before + [table[i].native];
        assert (before + [table[i].native])[..|before|] == before;
        res := res + "(" + table[i].native + ")";
      } else {
        assert Tokens(table, w, i + 1) == Tokens(table, w, i);
      }
      i := i + 1;
    }
  }

  /** permset2str_samba. */
  method PermsetToSamba(perms: Word) returns (res: string)
    ensures res == SambaPerms(perms)
  {
    res := JoinTokens(P2C_WINDOWS, perms, '|');
  }

  /** permset2str_icacls. */
  method PermsetToIcacls(perms: Word) returns (res: string)
    ensures res == IcaclsPerms(perms)
  {
    var inner := JoinTokens(P2C_WINDOWS, perms, ',');
    res := "(" + inner + ")";
  }

  /** flagset2str_samba. */
  method FlagsetToSamba(flags: Word) returns (res: string)
    ensures res == SambaFlags(flags)
  {
    res := JoinTokens(F2C_WINDOWS, flags, '|');
  }

  /** flagset2str_icacls. */
  method FlagsetToIcacls(flags: Word) returns (res: string)
    ensures res == IcaclsFlags(flags)
  {
    res := WrapTokens(F2C_WINDOWS, flags);
  }

  /** permset2str. */
  method PermsetToStr(perms: Word, res: array<char>)
    requires 14 < res.Length
    modifies res
    ensures res[..15] == PermString(perms) + ['\0']
    ensures res[15..] == old(res[15..])
  {
    FillLetters(P2C, perms, res);
  }

  /** flagset2str. */
  method FlagsetToStr(flags: Word, res: array<char>)
    requires 7 < res.Length
    modifies res
    ensures res[..8] == FlagString(flags) + ['\0']
    ensures res[8..] == old(res[8..])
  {
    FillLetters(F2C, flags, res);
  }
}
