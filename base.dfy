/*
 * Shared vocabulary of the ACL model: machine words and bytes, 32-bit
 * user/group ids, C-string views of byte sequences, the printf/scanf decimal
 * conversions the source relies on, error kinds, and the account/group
 * databases that stand in for getpwuid/getpwnam/getgrgid/getgrnam.
 */
module Base {

  /** An octet. */
  type Byte = x: int | 0 <= x < 0x100

  /** An unsigned 32-bit word (u_int32_t). */
  type Word = x: int | 0 <= x < 0x1_0000_0000

  /** A uid_t/gid_t value: an unsigned 32-bit integer. */
  type Id = x: int | 0 <= x < 0x1_0000_0000

  /** The id written as -1 in the source, i.e. all 32 bits set. */
  const NO_ID: Id := 0xFFFF_FFFF

  /** Storing an int into a 32-bit id keeps its value modulo 2^32. */
  function ToId(v: int): (r: Id)
    ensures 0 <= v < 0x1_0000_0000 ==> r == v
    ensures v == -1 ==> r == NO_ID
  {
    v % 0x1_0000_0000
  }

  datatype Option<+T> = None | Some(value: T)

  /** The errno values the core reports. */
  datatype Errno =
    | InvalidArgument   // EINVAL
    | OutOfMemory       // ENOMEM
    | NotSupported      // ENOSYS
    | Malformed         // a wire buffer too short for what it declares
    | IoError           // a failure reported by the operating system
    | NoErrno           // a failure that leaves errno as it was

  datatype Result<+T> = Ok(value: T) | Err(error: Errno)

  /**
   * The account and group databases, as the four lookups the source makes.
   * They are independent maps: nothing forces getpwnam to invert getpwuid.
   */
  datatype Directory = Directory(
    pwuid: map<Id, string>,
    pwnam: map<string, Id>,
    grgid: map<Id, string>,
    grnam: map<string, Id>)

  // ----- C strings over bytes -----------------------------------------------

  /** A name as C returns it: no NUL and every character a single byte. */
  ghost predicate IsCName(s: string) {
    forall i :: 0 <= i < |s| ==> 0 < s[i] as int < 256
  }

  /** The bytes of a string, one byte per character (Latin-1). */
  function Latin1(s: string): (r: seq<Byte>)
    ensures |r| == |s|
    ensures forall i :: 0 <= i < |s| && s[i] as int < 256 ==> r[i] == s[i] as int
  {
    seq(|s|, i requires 0 <= i < |s| => (s[i] as int) % 0x100)
  }

  /** The characters of a byte sequence, one per byte. */
  function Chars(b: seq<Byte>): (r: string)
    ensures |r| == |b|
    ensures forall i :: 0 <= i < |b| ==> r[i] as int == b[i]
  {
    seq(|b|, i requires 0 <= i < |b| => b[i] as char)
  }

  lemma CharsLatin1(s: string)
    requires IsCName(s)
    ensures Chars(Latin1(s)) == s
  {
    var r := Chars(Latin1(s));
    forall i | 0 <= i < |s| ensures r[i] == s[i] {
      assert r[i] as int == Latin1(s)[i] == s[i] as int;
    }
  }

  /** The C string that starts at b: the bytes before the first NUL. */
  function CStr(b: seq<Byte>): (r: seq<Byte>)
    ensures |r| <= |b| && r == b[..|r|]
    ensures forall i :: 0 <= i < |r| ==> r[i] != 0
    ensures |r| < |b| ==> b[|r|] == 0
  {
    if b == [] || b[0] == 0 then [] else [b[0]] + CStr(b[1..])
  }

  lemma CStrOfNulFree(b: seq<Byte>)
    requires forall i :: 0 <= i < |b| ==> b[i] != 0
    ensures CStr(b) == b
  {
  }

  lemma Latin1NulFree(s: string)
    requires IsCName(s)
    ensures forall i :: 0 <= i < |s| ==> Latin1(s)[i] != 0
  {
  }

  // ----- printf "%u" / "%d" and scanf "%d" ----------------------------------

  function DigitChar(d: nat): (c: char)
    requires d < 10
    ensures '0' <= c <= '9' && c as int - '0' as int == d
  {
    "0123456789"[d]
  }

  predicate IsDigit(c: char) { '0' <= c <= '9' }

  /** printf("%u", n) for a non-negative n. */
  function Decimal(n: nat): (r: string)
    ensures |r| > 0
    ensures forall i :: 0 <= i < |r| ==> IsDigit(r[i])
    decreases n
  {
    if n < 10 then [DigitChar(n)] else Decimal(n / 10) + [DigitChar(n % 10)]
  }

  /** printf("%d", id) for a 32-bit id: values with the top bit set are negative. */
  function SignedDecimal(id: Id): (r: string)
    ensures |r| > 0
  {
    if id < 0x8000_0000 then Decimal(id) else "-" + Decimal(0x1_0000_0000 - id)
  }

  /** The value of a decimal digit character (0 for any other character). */
  function DigitValue(c: char): (d: nat)
    ensures d < 10
    ensures IsDigit(c) ==> d == c as int - '0' as int
  {
    if IsDigit(c) then c as int - '0' as int else 0
  }

  /** The value of s[lo..hi] read as decimal digits, most significant first. */
  function DigitsValue(s: string, lo: nat, hi: nat): nat
    requires lo <= hi <= |s|
    decreases hi
  {
    if hi == lo then 0 else DigitsValue(s, lo, hi - 1) * 10 + DigitValue(s[hi - 1])
  }

  lemma {:induction false} DigitsValueOfPrefix(s: string, t: string, k: nat)
    requires k <= |s| && k <= |t| && s[..k] == t[..k]
    ensures DigitsValue(s, 0, k) == DigitsValue(t, 0, k)
    decreases k
  {
    if k > 0 {
      assert s[..k - 1] == s[..k][..k - 1] == t[..k][..k - 1] == t[..k - 1];
      assert s[k - 1] == s[..k][k - 1] == t[..k][k - 1] == t[k - 1];
      DigitsValueOfPrefix(s, t, k - 1);
    }
  }

  /** The index of the first character at or after i that is not a decimal digit (|s| if none). */
  function DigitEnd(s: string, i: nat): (k: nat)
    requires i <= |s|
    ensures i <= k <= |s|
    decreases |s| - i
  {
    if i == |s| || !IsDigit(s[i]) then i else DigitEnd(s, i + 1)
  }

  predicate IsSpace(c: char) {
    c == ' ' || c == '\t' || c == '\n' || c == '\r' || c == '\U{000B}' || c == '\U{000C}'
  }

  /** The index of the first character at or after i that is not white space (|s| if none). */
  function SpaceEnd(s: string, i: nat): (k: nat)
    requires i <= |s|
    ensures i <= k <= |s|
    decreases |s| - i
  {
    if i == |s| || !IsSpace(s[i]) then i else SpaceEnd(s, i + 1)
  }

  /**
   * sscanf(s, "%d", &v): skip white space, read an optional sign and at
   * least one digit. None is a conversion that did not happen.
   */
  function ScanInt(s: string): Option<int> {
    var p := SpaceEnd(s, 0);
    var neg := p < |s| && s[p] == '-';
    var q := if p < |s| && (s[p] == '-' || s[p] == '+') then p + 1 else p;
    var e := DigitEnd(s, q);
    if e == q then None
    else
      var v: int := DigitsValue(s, q, e);
      if neg then Some(-v) else Some(v)
  }

  lemma {:induction false} DigitEndOfDigits(s: string, i: nat)
    requires i <= |s|
    requires forall j :: i <= j < |s| ==> IsDigit(s[j])
    ensures DigitEnd(s, i) == |s|
    decreases |s| - i
  {
    if i < |s| {
      DigitEndOfDigits(s, i + 1);
    }
  }

  lemma {:induction false} DigitsValueDecimal(n: nat)
    ensures DigitsValue(Decimal(n), 0, |Decimal(n)|) == n
    decreases n
  {
    var r := Decimal(n);
    if n >= 10 {
      var q := Decimal(n / 10);
      DigitsValueDecimal(n / 10);
      assert r[..|q|] == q[..|q|];
      DigitsValueOfPrefix(r, q, |q|);
    }
  }

  /** Reading back what printf("%u") wrote gives the number. */
  lemma ScanDecimal(n: nat)
    ensures ScanInt(Decimal(n)) == Some(n)
  {
    var s := Decimal(n);
    assert SpaceEnd(s, 0) == 0;
    DigitEndOfDigits(s, 0);
    DigitsValueDecimal(n);
  }

  /** A printed decimal never contains an '@'. */
  lemma DecimalHasNoAt(n: nat)
    ensures '@' !in Decimal(n)
  {
  }
}
