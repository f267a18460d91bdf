/*
 * Translation tables between native permission or flag names and generic
 * bits, as the macOS back end walks them: each row pairs a native value
 * with the generic bit it stands for, and a set of native values is turned
 * into a generic word by ORing in the bit of every row whose native value is
 * present, and back by collecting the native value of every row whose bit
 * is set.
 */
module Tables {
  import opened Bits

  /** A row of a translation table: a native value and the number of its generic bit. */
  datatype Row<T> = Row(native: T, bit: nat)

  /** No two rows share a native value or a generic bit. */
  predicate Injective<T(==)>(table: seq<Row<T>>) {
    forall i, j :: 0 <= i < j < |table| ==> table[i].native != table[j].native && table[i].bit != table[j].bit
  }

  /**
   * A table is injective when two index functions send every row's native
   * value and every row's bit back to that row.
   */
  lemma InjectiveByIndex<T>(table: seq<Row<T>>, nativeRow: T -> int, bitRow: nat -> int)
    requires forall i :: 0 <= i < |table| ==> nativeRow(table[i].native) == i && bitRow(table[i].bit) == i
    ensures Injective(table)
  {
  }

  /** The generic word built from the first n rows, for the native values in s. */
  function Collected<T(==)>(table: seq<Row<T>>, s: set<T>, n: nat): nat
    requires n <= |table|
  {
    if n == 0 then 0
    else if table[n - 1].native in s then Or(Collected(table, s, n - 1), Pow2(table[n - 1].bit))
    else Collected(table, s, n - 1)
  }

  /** The native values of the first n rows whose generic bit is set in w. */
  function Spread<T(==)>(table: seq<Row<T>>, w: nat, n: nat): set<T>
    requires n <= |table|
  {
    if n == 0 then {}
    else if HasBit(w, Pow2(table[n - 1].bit)) then Spread(table, w, n - 1) + {table[n - 1].native}
    else Spread(table, w, n - 1)
  }

  /** A collected word has bit k exactly when a row for a present native value has bit k. */
  lemma {:induction false} CollectedBit<T>(table: seq<Row<T>>, s: set<T>, n: nat, k: nat)
    requires n <= |table|
    ensures TestBit(Collected(table, s, n), k) <==> exists i :: 0 <= i < n && table[i].native in s && table[i].bit == k
  {
    if n == 0 {
      ZeroBit(k);
    } else {
      CollectedBit(table, s, n - 1, k);
      var r := table[n - 1];
      if r.native in s {
        OrBit(Collected(table, s, n - 1), Pow2(r.bit), k);
        Pow2Bit(r.bit, k);
      }
      if exists i :: 0 <= i < n && table[i].native in s && table[i].bit == k {
        var i :| 0 <= i < n && table[i].native in s && table[i].bit == k;
        if i < n - 1 {
          assert exists i :: 0 <= i < n - 1 && table[i].native in s && table[i].bit == k;
        }
      }
    }
  }

  /** A native value is spread from w exactly when one of its rows has its bit set in w. */
  lemma {:induction false} SpreadHas<T>(table: seq<Row<T>>, w: nat, n: nat, x: T)
    requires n <= |table|
    ensures x in Spread(table, w, n) <==> exists i :: 0 <= i < n && table[i].native == x && TestBit(w, table[i].bit)
  {
    if n > 0 {
      SpreadHas(table, w, n - 1, x);
      var r := table[n - 1];
      HasBitPow2(w, r.bit);
      if exists i :: 0 <= i < n && table[i].native == x && TestBit(w, table[i].bit) {
        var i :| 0 <= i < n && table[i].native == x && TestBit(w, table[i].bit);
        if i < n - 1 {
          assert exists i :: 0 <= i < n - 1 && table[i].native == x && TestBit(w, table[i].bit);
        }
      }
    }
  }

  /** Spreading a collected word gives back the present native values the table knows. */
  lemma SpreadOfCollected<T>(table: seq<Row<T>>, s: set<T>, x: T)
    requires Injective(table)
    ensures x in Spread(table, Collected(table, s, |table|), |table|)
      <==> x in s && exists i :: 0 <= i < |table| && table[i].native == x
  {
    var w := Collected(table, s, |table|);
    SpreadHas(table, w, |table|, x);
    if exists i :: 0 <= i < |table| && table[i].native == x && TestBit(w, table[i].bit) {
      var i :| 0 <= i < |table| && table[i].native == x && TestBit(w, table[i].bit);
      CollectedBit(table, s, |table|, table[i].bit);
      var j :| 0 <= j < |table| && table[j].native in s && table[j].bit == table[i].bit;
      assert i == j;
    }
    if x in s && exists i :: 0 <= i < |table| && table[i].native == x {
      var i :| 0 <= i < |table| && table[i].native == x;
      CollectedBit(table, s, |table|, table[i].bit);
    }
  }

  /** Collecting a spread word keeps exactly the bits of w that the table knows. */
  lemma CollectedOfSpread<T>(table: seq<Row<T>>, w: nat, k: nat)
    requires Injective(table)
    ensures TestBit(Collected(table, Spread(table, w, |table|), |table|), k)
      <==> TestBit(w, k) && exists i :: 0 <= i < |table| && table[i].bit == k
  {
    var s := Spread(table, w, |table|);
    CollectedBit(table, s, |table|, k);
    if exists i :: 0 <= i < |table| && table[i].native in s && table[i].bit == k {
      var i :| 0 <= i < |table| && table[i].native in s && table[i].bit == k;
      SpreadHas(table, w, |table|, table[i].native);
      var j :| 0 <= j < |table| && table[j].native == table[i].native && TestBit(w, table[j].bit);
      assert i == j;
    }
    if TestBit(w, k) && exists i :: 0 <= i < |table| && table[i].bit == k {
      var i :| 0 <= i < |table| && table[i].bit == k;
      SpreadHas(table, w, |table|, table[i].native);
    }
  }

  /** The generic bits the rows of a table stand for are exactly the bits of mask. */
  ghost predicate Covers<T>(table: seq<Row<T>>, mask: nat) {
    forall k: nat :: (exists i :: 0 <= i < |table| && table[i].bit == k) <==> TestBit(mask, k)
  }

  /** Spreading a word and collecting it again keeps exactly the bits of w that the table covers. */
  lemma ThroughNative<T>(table: seq<Row<T>>, w: nat, mask: nat)
    requires Injective(table) && Covers(table, mask)
    ensures Collected(table, Spread(table, w, |table|), |table|) == And(w, mask)
  {
    var back := Collected(table, Spread(table, w, |table|), |table|);
    forall k: nat ensures TestBit(back, k) == TestBit(And(w, mask), k) {
      CollectedOfSpread(table, w, k);
      AndBit(w, mask, k);
    }
    BitsEqual(back, And(w, mask));
  }

  /** A collected word stays below 2^m when every bit of the table does. */
  lemma {:induction false} CollectedBelow<T>(table: seq<Row<T>>, s: set<T>, n: nat, m: nat)
    requires n <= |table|
    requires forall i :: 0 <= i < |table| ==> table[i].bit < m
    ensures Collected(table, s, n) < Pow2(m)
  {
    if n > 0 {
      CollectedBelow(table, s, n - 1, m);
      var b := table[n - 1].bit;
      Pow2Mono(b + 1, m);
      if table[n - 1].native in s {
        OrBelow(Collected(table, s, n - 1), Pow2(b), m);
      }
    }
  }

  /** gacl_clear_perms followed by the loop of gacl_add_perm over the table rows. */
  method CollectBits<T(==)>(table: seq<Row<T>>, s: set<T>) returns (w: nat)
    ensures w == Collected(table, s, |table|)
  {
    w := 0;
    var i := 0;
    while i < |table|
      invariant 0 <= i <= |table|
      invariant w == Collected(table, s, i)
    {
      if table[i].native in s {
        w := Or(w, Pow2(table[i].bit));
      }
      i := i + 1;
    }
  }

  /** acl_clear_perms followed by the loop of acl_add_perm over the table rows. */
  method SpreadBits<T(==)>(table: seq<Row<T>>, w: nat) returns (s: set<T>)
    ensures s == Spread(table, w, |table|)
  {
    s := {};
    var i := 0;
    while i < |table|
      invariant 0 <= i <= |table|
      invariant s == Spread(table, w, i)
    {
      if HasBit(w, Pow2(table[i].bit)) {
        s := s + {table[i].native};
      }
      i := i + 1;
    }
  }
}
