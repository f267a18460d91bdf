/*
 * The directory walker: _ft_foreach reports a node to the visitor, and when
 * it is a directory below the depth limit it reads the directory once,
 * reporting every entry that is not a directory at once and queueing the
 * directories, then walks the queued directories in the order they were
 * read. The file system is a tree given as a value: every node is what lstat
 * says about it (a directory, anything else, or a failure), and a directory
 * holds its readdir entries in read order. The visitor is a function of the
 * path and the level; the walk yields the visits it makes and the return code.
 */
module Walker {
  import opened Bits

  /** A node as lstat sees it; symbolic links are not followed and count as non-directories. */
  datatype Node =
    | File(mode: nat)
    | Dir(mode: nat, opens: bool, entries: seq<DirEntry>)
    | Vanished

  /** A readdir entry: a name and the node lstat finds there. */
  datatype DirEntry = DirEntry(name: string, node: Node)

  /** One call of the visitor: the path, the level and the mode of what it reports. */
  datatype Visit = Visit(path: string, level: nat, mode: nat)

  datatype Outcome = Outcome(visits: seq<Visit>, rc: int)

  /** The visitor's result for a path and a level. */
  type Visitor = (string, nat) -> int

  /** The filetypes filter: 0 reports everything, otherwise the mode must share a bit with it. */
  predicate Reports(mode: nat, filetypes: nat) {
    filetypes == 0 || And(mode, filetypes) != 0
  }

  predicate IsDot(name: string) {
    name == "." || name == ".."
  }

  /** The entries that go into the queue: directories other than . and .. */
  predicate Queued(e: DirEntry) {
    !IsDot(e.name) && e.node.Dir?
  }

  /** The path of an entry of the directory at p. */
  function Child(p: string, name: string): string {
    p + "/" + name
  }

  // ----- reading a directory --------------------------------------------------------

  datatype ScanState = ScanState(visits: seq<Visit>, rc: int, aborted: bool)

  /** The scan of one more entry. */
  function ScanStep(s: ScanState, p: string, e: DirEntry, level: nat, ft: nat, cb: Visitor): ScanState {
    if IsDot(e.name) then s
    else match e.node
      case Vanished => ScanState(s.visits, -1, true)
      case Dir(_, _, _) => s
      case File(mode) =>
        if Reports(mode, ft) then
          var rc := cb(Child(p, e.name), level);
          ScanState(s.visits + [Visit(Child(p, e.name), level, mode)], rc, rc != 0)
        else ScanState(s.visits, 0, false)
  }

  /** The readdir loop over the first i entries, stopping at the first failure or non-zero result. */
  function Scan(p: string, es: seq<DirEntry>, i: nat, level: nat, ft: nat, cb: Visitor, rc0: int): ScanState
    requires i <= |es|
  {
    if i == 0 then ScanState([], rc0, false)
    else
      var s := Scan(p, es, i - 1, level, ft, cb, rc0);
      if s.aborted then s else ScanStep(s, p, es[i - 1], level, ft, cb)
  }

  /** The queue after the first i entries: the directories among them, in read order. */
  function QueueOf(es: seq<DirEntry>, i: nat): (q: seq<DirEntry>)
    requires i <= |es|
    ensures forall e :: e in q ==> e in es && Queued(e)
  {
    if i == 0 then []
    else QueueOf(es, i - 1) + (if Queued(es[i - 1]) then [es[i - 1]] else [])
  }

  // ----- the walk -------------------------------------------------------------------------

  datatype DescendState = DescendState(visits: seq<Visit>, rc: int, stopped: bool)

  /**
   * _ft_foreach on the node at path p and level `level`: report it, and
   * unless the visitor's result is negative, go on below it.
   */
  function Walk(p: string, n: Node, level: nat, maxlevel: nat, ft: nat, cb: Visitor): Outcome
    requires !n.Vanished?
    decreases n, 2
  {
    var rep := Reports(n.mode, ft);
    var self := if rep then [Visit(p, level, n.mode)] else [];
    var rc0 := if rep then cb(p, level) else 0;
    if rc0 < 0 then Outcome(self, rc0)
    else
      var b := Below(p, n, level, maxlevel, ft, cb, rc0);
      Outcome(self + b.visits, b.rc)
  }

  /**
   * What _ft_foreach does after reporting the node with result rc0: stop
   * with 0 at a non-directory or at the depth limit; fail with -1 when the
   * directory does not open; read it; and unless reading it aborted, walk
   * the queued directories. When nothing sets the code, rc0 is returned.
   */
  function Below(p: string, n: Node, level: nat, maxlevel: nat, ft: nat, cb: Visitor, rc0: int): Outcome
    requires !n.Vanished?
    decreases n, 1
  {
    if !n.Dir? || level == maxlevel then Outcome([], 0)
    else if !n.opens then Outcome([], -1)
    else
      var s := Scan(p, n.entries, |n.entries|, level + 1, ft, cb, rc0);
      if s.aborted then Outcome(s.visits, s.rc)
      else
        var q := QueueOf(n.entries, |n.entries|);
        var d := Descend(p, n, q, |q|, level + 1, maxlevel, ft, cb, s.rc);
        Outcome(s.visits + d.visits, d.rc)
  }

  /** The loop over the first j queued directories, stopping after the first non-zero result. */
  function Descend(p: string, n: Node, q: seq<DirEntry>, j: nat, level: nat, maxlevel: nat, ft: nat,
                   cb: Visitor, rc: int): DescendState
    requires n.Dir? && j <= |q|
    requires forall e :: e in q ==> e in n.entries && Queued(e)
    decreases n, 0, j
  {
    if j == 0 then DescendState([], rc, false)
    else
      var d := Descend(p, n, q, j - 1, level, maxlevel, ft, cb, rc);
      if d.stopped then d
      else
        var e := q[j - 1];
        assert e in q;
        var w := Walk(Child(p, e.name), e.node, level, maxlevel, ft, cb);
        DescendState(d.visits + w.visits, w.rc, w.rc != 0)
  }

  /** ft_foreach: lstat the starting path (a failure is -1) and walk from level 0. */
  function FtWalk(p: string, root: Node, maxlevel: nat, ft: nat, cb: Visitor): (r: Outcome)
    ensures root.Vanished? ==> r == Outcome([], -1)
  {
    if root.Vanished? then Outcome([], -1) else Walk(p, root, 0, maxlevel, ft, cb)
  }
  // ----- the walk as a loop -------------------------------------------------------------------

  lemma {:induction false} ScanAbortedStays(p: string, es: seq<DirEntry>, i: nat, k: nat, level: nat, ft: nat,
                                            cb: Visitor, rc0: int)
    requires i <= k <= |es| && Scan(p, es, i, level, ft, cb, rc0).aborted
    ensures Scan(p, es, k, level, ft, cb, rc0) == Scan(p, es, i, level, ft, cb, rc0)
    decreases k
  {
    if k > i {
      ScanAbortedStays(p, es, i, k - 1, level, ft, cb, rc0);
    }
  }

  lemma {:induction false} DescendStoppedStays(p: string, n: Node, q: seq<DirEntry>, j: nat, k: nat, level: nat,
                                               maxlevel: nat, ft: nat, cb: Visitor, rc: int)
    requires n.Dir? && j <= k <= |q|
    requires forall e :: e in q ==> e in n.entries && Queued(e)
    requires Descend(p, n, q, j, level, maxlevel, ft, cb, rc).stopped
    ensures Descend(p, n, q, k, level, maxlevel, ft, cb, rc) == Descend(p, n, q, j, level, maxlevel, ft, cb, rc)
    decreases k
  {
    if k > j {
      DescendStoppedStays(p, n, q, j, k - 1, level, maxlevel, ft, cb, rc);
    }
  }

  /**
   * The readdir loop of _ft_foreach: skips . and .., fails with -1 on an
   * entry lstat cannot stat, queues the directories and reports the rest,
   * stopping at the first non-zero result.
   */
  method ReadDir(p: string, es: seq<DirEntry>, level: nat, ft: nat, cb: Visitor, rc0: int)
    returns (found: seq<Visit>, rc: int, aborted: bool, queue: seq<DirEntry>)
    ensures ScanState(found, rc, aborted) == Scan(p, es, |es|, level, ft, cb, rc0)
    ensures !aborted ==> queue == QueueOf(es, |es|)
  {
    found, rc, aborted, queue := [], rc0, false, [];
    var i := 0;
    while i < |es|
      invariant i <= |es|
      invariant Scan(p, es, i, level, ft, cb, rc0) == ScanState(found, rc, false)
      invariant queue == QueueOf(es, i)
    {
      var e := es[i];
      if !IsDot(e.name) {
        var path := Child(p, e.name);
        match e.node {
          case Vanished =>
            rc, aborted := -1, true;
          case Dir(_, _, _) =>
            queue := queue + [e];
          case File(mode) =>
            if Reports(mode, ft) {
              rc := cb(path, level);
              found := found + [Visit(path, level, mode)];
            } else {
              rc := 0;
            }
            aborted := rc != 0;
        }
        if aborted {
          ScanAbortedStays(p, es, i + 1, |es|, level, ft, cb, rc0);
          return;
        }
      }
      i := i + 1;
    }
  }

  /**
   * _ft_foreach: the readdir loop queues the subdirectories in a FIFO and
   * reports everything else, then the queue is walked in order; the visits
   * and the return code are those of Walk.
   */
  method ForEach(p: string, n: Node, level: nat, maxlevel: nat, ft: nat, cb: Visitor) returns (visits: seq<Visit>, rc: int)
    requires !n.Vanished?
    ensures Outcome(visits, rc) == Walk(p, n, level, maxlevel, ft, cb)
    decreases n, 1
  {
    visits := [];
    rc := 0;
    if Reports(n.mode, ft) {
      visits := [Visit(p, level, n.mode)];
      rc := cb(p, level);
      if rc < 0 {
        return;
      }
    }
    ghost var self := visits;
    ghost var below := Below(p, n, level, maxlevel, ft, cb, rc);
    assert Walk(p, n, level, maxlevel, ft, cb) == Outcome(self + below.visits, below.rc);
    if !n.Dir? || level == maxlevel {
      rc := 0;
      assert below == Outcome([], 0);
      return;
    }
    if !n.opens {
      rc := -1;
      assert below == Outcome([], -1);
      return;
    }
    var curlevel := level + 1;
    var found, aborted, queue;
    found, rc, aborted, queue := ReadDir(p, n.entries, curlevel, ft, cb, rc);
    if aborted {
      visits := visits + found;
      assert below == Outcome(found, rc);
      return;
    }
    var walked;
    walked, rc := WalkQueue(p, n, queue, curlevel, maxlevel, ft, cb, rc);
    assert below == Outcome(found + walked, rc);
    visits := visits + (found + walked);
  }

  /**
   * The second half of _ft_foreach: walks the queued directories in order
   * and stops after the first one whose walk returns non-zero; with an
   * empty queue the code rc is returned as it is.
   */
  method WalkQueue(p: string, n: Node, queue: seq<DirEntry>, level: nat, maxlevel: nat, ft: nat, cb: Visitor, rc0: int)
    returns (walked: seq<Visit>, rc: int)
    requires n.Dir?
    requires forall e :: e in queue ==> e in n.entries && Queued(e)
    ensures var d := Descend(p, n, queue, |queue|, level, maxlevel, ft, cb, rc0); walked == d.visits && rc == d.rc
    decreases n, 0
  {
    walked, rc := [], rc0;
    var j := 0;
    while j < |queue|
      invariant j <= |queue|
      invariant Descend(p, n, queue, j, level, maxlevel, ft, cb, rc0) == DescendState(walked, rc, false)
    {
      var e := queue[j];
      assert e in queue;
      var sub, r := ForEach(Child(p, e.name), e.node, level, maxlevel, ft, cb);
      walked := walked + sub;
      rc := r;
      if rc != 0 {
        DescendStoppedStays(p, n, queue, j + 1, |queue|, level, maxlevel, ft, cb, rc0);
        return;
      }
      j := j + 1;
    }
  }

  /** ft_foreach: a starting path that lstat cannot stat fails with -1; otherwise the walk starts at level 0. */
  method FtForEach(p: string, root: Node, maxlevel: nat, ft: nat, cb: Visitor) returns (visits: seq<Visit>, rc: int)
    ensures Outcome(visits, rc) == FtWalk(p, root, maxlevel, ft, cb)
  {
    if root.Vanished? {
      return [], -1;
    }
    visits, rc := ForEach(p, root, 0, maxlevel, ft, cb);
  }
  // ----- visit order and depth ------------------------------------------------------------

  /** Every visit in vs lies strictly beneath p, at a level in lo..hi. */
  predicate Beneath(vs: seq<Visit>, p: string, lo: nat, hi: nat) {
    forall v :: v in vs ==> p + "/" <= v.path && lo <= v.level <= hi
  }

  lemma BeneathChild(vs: seq<Visit>, p: string, name: string, lo: nat, hi: nat)
    requires Beneath(vs, Child(p, name), lo, hi)
    ensures Beneath(vs, p, lo, hi)
  {
    forall v | v in vs
      ensures p + "/" <= v.path
    {
      var c := Child(p, name) + "/";
      assert c == v.path[..|c|];
      assert (p + "/") == c[..|p| + 1] == v.path[..|p| + 1];
    }
  }

  /** The entries reported while reading a directory are its children, one level down. */
  lemma {:induction false} ScanShape(p: string, es: seq<DirEntry>, i: nat, level: nat, ft: nat, cb: Visitor, rc0: int)
    requires i <= |es|
    ensures Beneath(Scan(p, es, i, level, ft, cb, rc0).visits, p, level, level)
    decreases i
  {
    if i > 0 {
      ScanShape(p, es, i - 1, level, ft, cb, rc0);
      assert (p + "/") == Child(p, es[i - 1].name)[..|p| + 1];
    }
  }

  /**
   * A node is reported before anything beneath it, everything else the walk
   * reports lies beneath it, and no visit is deeper than maxlevel: a
   * directory at maxlevel is not opened.
   */
  lemma {:induction false} WalkShape(p: string, n: Node, level: nat, maxlevel: nat, ft: nat, cb: Visitor)
    requires !n.Vanished? && level <= maxlevel
    ensures var vs := Walk(p, n, level, maxlevel, ft, cb).visits;
      if Reports(n.mode, ft) then |vs| > 0 && vs[0] == Visit(p, level, n.mode) && Beneath(vs[1..], p, level + 1, maxlevel)
      else Beneath(vs, p, level + 1, maxlevel)
    decreases n, 2
  {
    var rep := Reports(n.mode, ft);
    var self := if rep then [Visit(p, level, n.mode)] else [];
    var rc0 := if rep then cb(p, level) else 0;
    var rest: seq<Visit> := [];
    if rc0 >= 0 {
      rest := Below(p, n, level, maxlevel, ft, cb, rc0).visits;
      BelowShape(p, n, level, maxlevel, ft, cb, rc0);
    }
    assert Walk(p, n, level, maxlevel, ft, cb).visits == self + rest;
    if rep {
      assert (self + rest)[1..] == rest;
    }
  }

  lemma {:induction false} BelowShape(p: string, n: Node, level: nat, maxlevel: nat, ft: nat, cb: Visitor, rc0: int)
    requires !n.Vanished? && level <= maxlevel
    ensures Beneath(Below(p, n, level, maxlevel, ft, cb, rc0).visits, p, level + 1, maxlevel)
    decreases n, 1
  {
    if n.Dir? && level != maxlevel && n.opens {
      var s := Scan(p, n.entries, |n.entries|, level + 1, ft, cb, rc0);
      ScanShape(p, n.entries, |n.entries|, level + 1, ft, cb, rc0);
      if !s.aborted {
        var q := QueueOf(n.entries, |n.entries|);
        DescendShape(p, n, q, |q|, level + 1, maxlevel, ft, cb, s.rc);
      }
    }
  }

  lemma {:induction false} DescendShape(p: string, n: Node, q: seq<DirEntry>, j: nat, level: nat, maxlevel: nat,
                                        ft: nat, cb: Visitor, rc: int)
    requires n.Dir? && j <= |q| && 0 < level <= maxlevel
    requires forall e :: e in q ==> e in n.entries && Queued(e)
    ensures Beneath(Descend(p, n, q, j, level, maxlevel, ft, cb, rc).visits, p, level, maxlevel)
    decreases n, 0, j
  {
    if j > 0 {
      DescendShape(p, n, q, j - 1, level, maxlevel, ft, cb, rc);
      var d := Descend(p, n, q, j - 1, level, maxlevel, ft, cb, rc);
      if !d.stopped {
        var e := q[j - 1];
        assert e in q;
        var c := Child(p, e.name);
        var w := Walk(c, e.node, level, maxlevel, ft, cb);
        WalkShape(c, e.node, level, maxlevel, ft, cb);
        if Reports(e.node.mode, ft) {
          BeneathChild(w.visits[1..], p, e.name, level + 1, maxlevel);
          assert (p + "/") == c[..|p| + 1];
          assert w.visits == [w.visits[0]] + w.visits[1..];
        } else {
          BeneathChild(w.visits, p, e.name, level + 1, maxlevel);
        }
      }
    }
  }

  /** The non-directory entries of es that pass the filter, as visits at `level`, in read order. */
  function FileVisits(p: string, es: seq<DirEntry>, level: nat, ft: nat): seq<Visit>
    decreases |es|
  {
    if es == [] then []
    else
      var e := es[0];
      (if !IsDot(e.name) && e.node.File? && Reports(e.node.mode, ft) then [Visit(Child(p, e.name), level, e.node.mode)] else [])
      + FileVisits(p, es[1..], level, ft)
  }

  lemma {:induction false} FileVisitsSnoc(p: string, es: seq<DirEntry>, e: DirEntry, level: nat, ft: nat)
    ensures FileVisits(p, es + [e], level, ft) == FileVisits(p, es, level, ft) + FileVisits(p, [e], level, ft)
    decreases |es|
  {
    if es != [] {
      assert (es + [e])[1..] == es[1..] + [e];
      FileVisitsSnoc(p, es[1..], e, level, ft);
    }
  }

  /** A visitor that never asks the walk to stop. */
  ghost predicate Continues(cb: Visitor) {
    forall s, l :: cb(s, l) == 0
  }

  /**
   * Reading a directory whose entries all stat, with a visitor that never
   * stops, reports exactly its non-directory entries that pass the filter,
   * in read order; . and .. and the subdirectories are not reported then.
   */
  lemma {:induction false} ScanReportsFiles(p: string, es: seq<DirEntry>, i: nat, level: nat, ft: nat, cb: Visitor, rc0: int)
    requires i <= |es| && Continues(cb)
    requires forall k :: 0 <= k < i ==> !es[k].node.Vanished?
    ensures var s := Scan(p, es, i, level, ft, cb, rc0);
      !s.aborted && s.visits == FileVisits(p, es[..i], level, ft)
    decreases i
  {
    if i > 0 {
      ScanReportsFiles(p, es, i - 1, level, ft, cb, rc0);
      assert es[..i] == es[..i - 1] + [es[i - 1]];
      FileVisitsSnoc(p, es[..i - 1], es[i - 1], level, ft);
    }
  }

  // ----- the filter ------------------------------------------------------------------------

  /** The visits of vs that the filter lets through, in order. */
  function Filtered(vs: seq<Visit>, ft: nat): seq<Visit>
    decreases |vs|
  {
    if vs == [] then []
    else (if Reports(vs[0].mode, ft) then [vs[0]] else []) + Filtered(vs[1..], ft)
  }

  lemma {:induction false} FilteredConcat(a: seq<Visit>, b: seq<Visit>, ft: nat)
    ensures Filtered(a + b, ft) == Filtered(a, ft) + Filtered(b, ft)
    decreases |a|
  {
    if a != [] {
      assert (a + b)[1..] == a[1..] + b;
      FilteredConcat(a[1..], b, ft);
    } else {
      assert a + b == b;
    }
  }

  lemma {:induction false} ScanFilter(p: string, es: seq<DirEntry>, i: nat, level: nat, ft: nat, cb: Visitor, rc0: int)
    requires i <= |es| && Continues(cb)
    ensures var s := Scan(p, es, i, level, ft, cb, rc0);
      var all := Scan(p, es, i, level, 0, cb, rc0);
      s == ScanState(Filtered(all.visits, ft), all.rc, all.aborted)
    decreases i
  {
    if i > 0 {
      ScanFilter(p, es, i - 1, level, ft, cb, rc0);
      var all := Scan(p, es, i - 1, level, 0, cb, rc0);
      var e := es[i - 1];
      if !all.aborted && !IsDot(e.name) && e.node.File? {
        var v := Visit(Child(p, e.name), level, e.node.mode);
        FilteredConcat(all.visits, [v], ft);
        assert Filtered([v], ft) == if Reports(e.node.mode, ft) then [v] else [];
      }
    }
  }

  /**
   * The filter decides only what is reported, never what is walked: with a
   * visitor that never stops, the walk under a filter reports the visits of
   * the unfiltered walk that pass the filter, in the same order, and ends
   * with the same code.
   */
  lemma {:induction false} WalkFilter(p: string, n: Node, level: nat, maxlevel: nat, ft: nat, cb: Visitor)
    requires !n.Vanished? && Continues(cb)
    ensures var all := Walk(p, n, level, maxlevel, 0, cb);
      Walk(p, n, level, maxlevel, ft, cb) == Outcome(Filtered(all.visits, ft), all.rc)
    decreases n, 2
  {
    var self := [Visit(p, level, n.mode)];
    assert Filtered(self, ft) == if Reports(n.mode, ft) then self else [];
    var b := Below(p, n, level, maxlevel, 0, cb, 0);
    BelowFilter(p, n, level, maxlevel, ft, cb);
    FilteredConcat(self, b.visits, ft);
  }

  lemma {:induction false} BelowFilter(p: string, n: Node, level: nat, maxlevel: nat, ft: nat, cb: Visitor)
    requires !n.Vanished? && Continues(cb)
    ensures var all := Below(p, n, level, maxlevel, 0, cb, 0);
      Below(p, n, level, maxlevel, ft, cb, 0) == Outcome(Filtered(all.visits, ft), all.rc)
    decreases n, 1
  {
    if n.Dir? && level != maxlevel && n.opens {
      var es := n.entries;
      var sa := Scan(p, es, |es|, level + 1, 0, cb, 0);
      ScanFilter(p, es, |es|, level + 1, ft, cb, 0);
      if !sa.aborted {
        var q := QueueOf(es, |es|);
        var da := Descend(p, n, q, |q|, level + 1, maxlevel, 0, cb, sa.rc);
        DescendFilter(p, n, q, |q|, level + 1, maxlevel, ft, cb, sa.rc);
        FilteredConcat(sa.visits, da.visits, ft);
      }
    }
  }

  lemma {:induction false} DescendFilter(p: string, n: Node, q: seq<DirEntry>, j: nat, level: nat, maxlevel: nat,
                                         ft: nat, cb: Visitor, rc: int)
    requires n.Dir? && j <= |q| && Continues(cb)
    requires forall e :: e in q ==> e in n.entries && Queued(e)
    ensures var all := Descend(p, n, q, j, level, maxlevel, 0, cb, rc);
      Descend(p, n, q, j, level, maxlevel, ft, cb, rc) == DescendState(Filtered(all.visits, ft), all.rc, all.stopped)
    decreases n, 0, j
  {
    if j > 0 {
      DescendFilter(p, n, q, j - 1, level, maxlevel, ft, cb, rc);
      var all := Descend(p, n, q, j - 1, level, maxlevel, 0, cb, rc);
      if !all.stopped {
        var e := q[j - 1];
        assert e in q;
        var w := Walk(Child(p, e.name), e.node, level, maxlevel, 0, cb);
        WalkFilter(Child(p, e.name), e.node, level, maxlevel, ft, cb);
        FilteredConcat(all.visits, w.visits, ft);
      }
    }
  }

  // ----- the return code -------------------------------------------------------------------

  /** The visitor returned rc for the last visit of vs. */
  predicate LastReturned(vs: seq<Visit>, cb: Visitor, rc: int) {
    |vs| > 0 && cb(vs[|vs| - 1].path, vs[|vs| - 1].level) == rc
  }

  lemma {:induction false} ScanResult(p: string, es: seq<DirEntry>, i: nat, level: nat, ft: nat, cb: Visitor, rc0: int)
    requires i <= |es|
    ensures var s := Scan(p, es, i, level, ft, cb, rc0);
      (s.aborted ==> s.rc != 0 && (s.rc == -1 || LastReturned(s.visits, cb, s.rc))) &&
      (!s.aborted ==> s.rc == 0 || (s.rc == rc0 && s.visits == []))
    decreases i
  {
    if i > 0 {
      ScanResult(p, es, i - 1, level, ft, cb, rc0);
    }
  }

  /**
   * A walk ends with 0, with -1 for a failure, or with the non-zero result
   * the visitor gave for the last visit made: a non-zero result for an
   * entry, or a negative one for the node itself, stops the walk at once.
   */
  lemma {:induction false} WalkResult(p: string, n: Node, level: nat, maxlevel: nat, ft: nat, cb: Visitor)
    requires !n.Vanished?
    ensures var o := Walk(p, n, level, maxlevel, ft, cb);
      o.rc == 0 || o.rc == -1 || LastReturned(o.visits, cb, o.rc)
    decreases n, 2
  {
    var rep := Reports(n.mode, ft);
    var self := if rep then [Visit(p, level, n.mode)] else [];
    var rc0 := if rep then cb(p, level) else 0;
    if rc0 >= 0 {
      var b := Below(p, n, level, maxlevel, ft, cb, rc0);
      BelowResult(p, n, level, maxlevel, ft, cb, rc0);
      if b.rc == rc0 && b.visits == [] {
        assert self + b.visits == self;
      }
    }
  }

  /** Below ends with 0, -1, the result of its last visit, or the node's own result when it makes no visit. */
  lemma {:induction false} BelowResult(p: string, n: Node, level: nat, maxlevel: nat, ft: nat, cb: Visitor, rc0: int)
    requires !n.Vanished?
    ensures var b := Below(p, n, level, maxlevel, ft, cb, rc0);
      b.rc == 0 || b.rc == -1 || LastReturned(b.visits, cb, b.rc) || (b.rc == rc0 && b.visits == [])
    decreases n, 1
  {
    if n.Dir? && level != maxlevel && n.opens {
      var s := Scan(p, n.entries, |n.entries|, level + 1, ft, cb, rc0);
      ScanResult(p, n.entries, |n.entries|, level + 1, ft, cb, rc0);
      if !s.aborted {
        var q := QueueOf(n.entries, |n.entries|);
        var d := Descend(p, n, q, |q|, level + 1, maxlevel, ft, cb, s.rc);
        DescendResult(p, n, q, |q|, level + 1, maxlevel, ft, cb, s.rc);
        if d.visits == [] {
          assert s.visits + d.visits == s.visits;
        }
      }
    }
  }

  lemma {:induction false} DescendResult(p: string, n: Node, q: seq<DirEntry>, j: nat, level: nat, maxlevel: nat,
                                         ft: nat, cb: Visitor, rc: int)
    requires n.Dir? && j <= |q|
    requires forall e :: e in q ==> e in n.entries && Queued(e)
    ensures var d := Descend(p, n, q, j, level, maxlevel, ft, cb, rc);
      (d.stopped ==> d.rc != 0 && (d.rc == -1 || LastReturned(d.visits, cb, d.rc))) &&
      (!d.stopped ==> d.rc == 0 || (d.rc == rc && d.visits == []))
    decreases n, 0, j
  {
    if j > 0 {
      DescendResult(p, n, q, j - 1, level, maxlevel, ft, cb, rc);
      var d := Descend(p, n, q, j - 1, level, maxlevel, ft, cb, rc);
      if !d.stopped {
        var e := q[j - 1];
        assert e in q;
        WalkResult(Child(p, e.name), e.node, level, maxlevel, ft, cb);
      }
    }
  }

  /**
   * A positive result for the node itself does not stop the walk and is
   * dropped at a non-directory, but it is what the walk returns for a
   * directory with no entries besides . and ..
   */
  lemma PositiveOwnResult()
    ensures var cb: Visitor := (s, l) => 5;
      FtWalk("d", Dir(0, true, [DirEntry(".", Dir(0, true, []))]), 1, 0, cb) == Outcome([Visit("d", 0, 0)], 5) &&
      FtWalk("f", File(0), 1, 0, cb) == Outcome([Visit("f", 0, 0)], 0)
  {
  }
}
