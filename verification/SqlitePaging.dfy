/** The SQLite cursor's keyset paging: pages resume at an anchor, skip what they already have and drop what
    has been visited, and together they are the unpaged result. */
module SqlitePaging {
  import opened Bytes
  import opened Keys

  const PAGE_SIZE: nat := 128

  datatype Row = Row(key: Blob, pkey: Blob, value: Option<Blob>)

  /** Stores have unique keys, plain indexes (key, primary key) pairs, grouped indexes one row for each key. */
  datatype Shape = StoreRows | IndexRows | GroupRows

  function Pos(r: Row): Key {
    Key(0, r.key, r.pkey)
  }

  function KeyOnly(k: Blob): Key {
    Key(0, k, [])
  }

  // ---------------------------------------------------------------- the query

  /** Where a page starts: the seek predicates for the first one, the anchor for every later one. */
  datatype Resume = Start(key: Option<Blob>, pkey: Option<Blob>) | Anchor(lastKey: Blob, lastPkey: Blob)

  /** The `WHERE` clause beyond the range. */
  predicate Admits(shape: Shape, desc: bool, from: Resume, r: Row) {
    match from
    case Start(None, _) => true
    case Start(Some(k), p) =>
      if shape.GroupRows? || p.None? then AtOrBefore(desc, KeyOnly(k), KeyOnly(r.key))
      else AtOrBefore(desc, Key(0, k, p.value), Pos(r))
    case Anchor(k, p) =>
      match shape
      case StoreRows => AtOrBefore(desc, KeyOnly(k), KeyOnly(r.key))
      case IndexRows => AtOrBefore(desc, Key(0, k, p), Pos(r))
      case GroupRows => Before(desc, KeyOnly(k), KeyOnly(r.key))
  }

  /** The ordered result of the query without its limit. */
  function Select(shape: Shape, desc: bool, from: Resume, rows: seq<Row>): seq<Row> {
    if rows == [] then []
    else (if Admits(shape, desc, from, rows[0]) then [rows[0]] else []) + Select(shape, desc, from, rows[1..])
  }

  function Limited(rows: seq<Row>): seq<Row> {
    if |rows| <= PAGE_SIZE then rows else rows[..PAGE_SIZE]
  }

  /** `ORDER BY` in the direction of the walk, by what the shape keeps unique. */
  ghost predicate Ordered(shape: Shape, desc: bool, rows: seq<Row>) {
    forall i, j | 0 <= i < j < |rows| :: Follows(shape, desc, rows[i], rows[j])
  }

  ghost predicate Follows(shape: Shape, desc: bool, a: Row, b: Row) {
    && (shape.GroupRows? ==> Before(desc, KeyOnly(a.key), KeyOnly(b.key)))
    && (!shape.GroupRows? ==> AtOrBefore(desc, Pos(a), Pos(b)))
  }

  /** In a store the primary key is the key. */
  ghost predicate OfShape(shape: Shape, rows: seq<Row>) {
    shape.StoreRows? ==> forall i | 0 <= i < |rows| :: rows[i].pkey == rows[i].key
  }

  lemma {:induction false} SelectKeeps(shape: Shape, desc: bool, from: Resume, rows: seq<Row>)
    requires Ordered(shape, desc, rows) && OfShape(shape, rows)
    ensures Ordered(shape, desc, Select(shape, desc, from, rows)) && OfShape(shape, Select(shape, desc, from, rows))
    ensures forall r | r in Select(shape, desc, from, rows) :: r in rows && Admits(shape, desc, from, r)
    decreases |rows|
  {
    hide Admits, Follows;
    if rows != [] {
      var rest := Select(shape, desc, from, rows[1..]);
      SelectKeeps(shape, desc, from, rows[1..]);
      forall r | r in rest ensures Follows(shape, desc, rows[0], r) {
        assert r in rows[1..];
      }
    }
  }

  /** Which rows a seek is about: all of them; those at or past the key; or those at or past the pair. */
  lemma {:induction false} ResultHas(shape: Shape, desc: bool, seek: Resume, all: seq<Row>, r: Row)
    requires seek.Start?
    ensures r in Result(shape, desc, seek, all) <==>
            && r in all
            && (seek.key.Some? ==>
                  var k := seek.key.value;
                  if r.key != k then BytesLess(r.key, k) == desc
                  else shape.GroupRows? || seek.pkey.None? || r.pkey == seek.pkey.value || BytesLess(r.pkey, seek.pkey.value) == desc)
    decreases |all|
  {
    if seek.key.Some? {
      BytesTotal(r.key, seek.key.value);
      BytesIrreflexive(r.key);
      if seek.pkey.Some? {
        BytesTotal(r.pkey, seek.pkey.value);
      }
    }
    if all != [] {
      ResultHas(shape, desc, seek, all[1..], r);
    }
  }

  /** A page that is entirely further on selects the same from the narrowed result as from the whole. */
  lemma {:induction false} SelectTwice(shape: Shape, desc: bool, from: Resume, later: Resume, rows: seq<Row>)
    requires forall r | r in rows && Admits(shape, desc, later, r) :: Admits(shape, desc, from, r)
    ensures Select(shape, desc, later, Select(shape, desc, from, rows)) == Select(shape, desc, later, rows)
  {
    hide Admits;
    if rows != [] {
      SelectTwice(shape, desc, from, later, rows[1..]);
      assert rows[0] in rows;
      if Admits(shape, desc, from, rows[0]) {
        assert Select(shape, desc, from, rows)[1..] == Select(shape, desc, from, rows[1..]);
      } else {
        assert Select(shape, desc, from, rows) == Select(shape, desc, from, rows[1..]);
      }
    }
  }

  /** Selecting from a point on, when exactly the rows from there on qualify. */
  lemma {:induction false} SelectSuffix(shape: Shape, desc: bool, from: Resume, rows: seq<Row>, s: nat)
    requires s <= |rows|
    requires forall i | 0 <= i < |rows| :: Admits(shape, desc, from, rows[i]) <==> s <= i
    ensures Select(shape, desc, from, rows) == rows[s..]
  {
    hide Admits;
    if rows != [] {
      if s == 0 {
        SelectSuffix(shape, desc, from, rows[1..], 0);
      } else {
        SelectSuffix(shape, desc, from, rows[1..], s - 1);
      }
    }
  }

  /** What the seek admits, it admits from there on. */
  lemma StartIsUpward(shape: Shape, desc: bool, from: Resume, a: Row, b: Row)
    requires from.Start? && Admits(shape, desc, from, a) && (Follows(shape, desc, a, b) || Pos(a) == Pos(b))
    ensures Admits(shape, desc, from, b)
  {
    if from.key.Some? {
      var k := from.key.value;
      if shape.GroupRows? || from.pkey.None? {
        KeyFollows(shape, desc, a, b);
        AtOrBeforeChain(desc, KeyOnly(k), KeyOnly(a.key), KeyOnly(b.key));
      } else {
        AtOrBeforeChain(desc, Key(0, k, from.pkey.value), Pos(a), Pos(b));
      }
    }
  }

  lemma AtOrBeforeChain(desc: bool, a: Key, b: Key, c: Key)
    requires AtOrBefore(desc, a, b) && AtOrBefore(desc, b, c)
    ensures AtOrBefore(desc, a, c)
  {
    if a != b && b != c {
      BeforeTransitive(desc, a, b, c);
    }
  }

  lemma KeyFollows(shape: Shape, desc: bool, a: Row, b: Row)
    requires Follows(shape, desc, a, b) || Pos(a) == Pos(b)
    ensures AtOrBefore(desc, KeyOnly(a.key), KeyOnly(b.key))
  {
    BytesTotal(a.key, b.key);
  }

  // ---------------------------------------------------------------- runs of equal rows

  /** How many rows at the end of `rows` stand at the same place. */
  function Run(rows: seq<Row>): (n: nat)
    ensures n <= |rows| && (rows != [] ==> n > 0)
  {
    if rows == [] then 0
    else if |rows| > 1 && Pos(rows[|rows| - 2]) == Pos(rows[|rows| - 1]) then 1 + Run(rows[..|rows| - 1])
    else 1
  }

  lemma {:induction false} RunIs(rows: seq<Row>)
    requires rows != []
    ensures var s, n := |rows| - Run(rows), |rows| - 1;
            && (forall i | s <= i <= n :: Pos(rows[i]) == Pos(rows[n]))
            && (s > 0 ==> Pos(rows[s - 1]) != Pos(rows[n]))
  {
    if |rows| > 1 && Pos(rows[|rows| - 2]) == Pos(rows[|rows| - 1]) {
      RunIs(rows[..|rows| - 1]);
    }
  }

  /** A whole page of equal rows with more to come: the next page would hold nothing new. */
  predicate Clogged(shape: Shape, rows: seq<Row>, i: nat) {
    !shape.GroupRows? && i + PAGE_SIZE < |rows| && Pos(rows[i]) == Pos(rows[i + PAGE_SIZE - 1])
  }

  /** How many rows of the result paging can deliver. */
  function Reachable(shape: Shape, rows: seq<Row>, i: nat): nat
    requires i <= |rows|
    decreases |rows| - i
  {
    if i == |rows| then |rows| else if Clogged(shape, rows, i) then i + PAGE_SIZE else Reachable(shape, rows, i + 1)
  }

  lemma {:induction false} ReachableIs(shape: Shape, rows: seq<Row>, i: nat)
    requires i <= |rows|
    ensures var n := Reachable(shape, rows, i);
            && n <= |rows|
            && (n < |rows| ==> n >= i + PAGE_SIZE && Clogged(shape, rows, n - PAGE_SIZE))
            && (forall j | i <= j < n - PAGE_SIZE :: !Clogged(shape, rows, j))
            && (n == |rows| ==> forall j | i <= j < |rows| :: !Clogged(shape, rows, j))
    decreases |rows| - i
  {
    hide Clogged;
    if i < |rows| && !Clogged(shape, rows, i) {
      ReachableIs(shape, rows, i + 1);
    } else if i < |rows| {
      assert i + PAGE_SIZE < |rows| by { CloggedHasMore(shape, rows, i); }
    }
  }

  lemma CloggedHasMore(shape: Shape, rows: seq<Row>, i: nat)
    requires Clogged(shape, rows, i)
    ensures i + PAGE_SIZE < |rows|
  {
  }

  /** Exactly when paging delivers everything: no full page of equal rows has anything after it. With the
      unique keys of the schema that is always so. */
  lemma PagingIsComplete(shape: Shape, rows: seq<Row>)
    ensures Reachable(shape, rows, 0) == |rows| <==> forall i | 0 <= i < |rows| :: !Clogged(shape, rows, i)
  {
    hide Clogged;
    ReachableIs(shape, rows, 0);
  }

  lemma UniqueRowsPage(shape: Shape, rows: seq<Row>)
    requires forall i, j | 0 <= i < j < |rows| :: Pos(rows[i]) != Pos(rows[j])
    ensures Reachable(shape, rows, 0) == |rows|
  {
    PagingIsComplete(shape, rows);
  }

  /** Equal ends enclose equal rows. */
  lemma Between(shape: Shape, desc: bool, rows: seq<Row>, i: nat, j: nat, k: nat)
    requires Ordered(shape, desc, rows) && !shape.GroupRows? && i <= k <= j < |rows| && Pos(rows[i]) == Pos(rows[j])
    ensures Pos(rows[k]) == Pos(rows[i])
  {
    if i < k < j {
      assert Follows(shape, desc, rows[i], rows[k]) && Follows(shape, desc, rows[k], rows[j]);
      BeforeTotal(desc, Pos(rows[i]), Pos(rows[k]));
    }
  }

  /** Where the next page ends, from `m` rows already represented. */
  function NextEnd(shape: Shape, rows: seq<Row>, m: nat): nat
    requires m <= |rows|
  {
    var s := if shape.GroupRows? then m else m - Run(rows[..m]);
    var end := if s + PAGE_SIZE < |rows| then s + PAGE_SIZE else |rows|;
    if end < m then m else end
  }

  lemma ShortRun(shape: Shape, rows: seq<Row>, m: nat)
    requires 0 < m < |rows| && !shape.GroupRows?
    requires m >= PAGE_SIZE ==> !Clogged(shape, rows, m - PAGE_SIZE)
    ensures Run(rows[..m]) < PAGE_SIZE
  {
    hide Run;
    RunIs(rows[..m]);
    if m >= PAGE_SIZE {
      assert Pos(rows[..m][m - PAGE_SIZE]) != Pos(rows[..m][m - 1]);
    }
  }

  /** A run that is still within reach is shorter than a page, and none starts past the last clogged page. */
  lemma RunIsBounded(shape: Shape, desc: bool, rows: seq<Row>, m: nat)
    requires Ordered(shape, desc, rows) && 0 < m <= Reachable(shape, rows, 0) <= |rows| && !shape.GroupRows?
    ensures var n, run := Reachable(shape, rows, 0), Run(rows[..m]);
            && (m < n ==> run < PAGE_SIZE)
            && (n < |rows| ==> m - run <= n - PAGE_SIZE)
  {
    hide Ordered, Follows, Run, Reachable;
    ReachableIs(shape, rows, 0);
    var n := Reachable(shape, rows, 0);
    if m < n {
      assert m >= PAGE_SIZE ==> !Clogged(shape, rows, m - PAGE_SIZE);
      ShortRun(shape, rows, m);
    }
    if n < |rows| && m > n - PAGE_SIZE {
      Between(shape, desc, rows, n - PAGE_SIZE, n - 1, m - 1);
      OrderedPrefix(shape, desc, rows, m);
      RunReaches(shape, desc, rows[..m], n - PAGE_SIZE);
    }
  }

  /** The next page brings something new unless there is nothing left to reach, and never more than that. */
  lemma PageAdvances(shape: Shape, desc: bool, rows: seq<Row>, m: nat)
    requires Ordered(shape, desc, rows) && m <= Reachable(shape, rows, 0)
    ensures m <= |rows| && m <= NextEnd(shape, rows, m) <= Reachable(shape, rows, 0)
    ensures NextEnd(shape, rows, m) == m <==> m == Reachable(shape, rows, 0)
    ensures NextEnd(shape, rows, m) - m <= PAGE_SIZE
  {
    hide Ordered, Follows, Run, Reachable;
    ReachableIs(shape, rows, 0);
    if m > 0 && !shape.GroupRows? {
      RunIsBounded(shape, desc, rows, m);
    }
  }

  lemma OrderedPrefix(shape: Shape, desc: bool, rows: seq<Row>, m: nat)
    requires Ordered(shape, desc, rows) && m <= |rows|
    ensures Ordered(shape, desc, rows[..m])
  {
    hide Follows;
  }

  /** A row equal to the last one is in its run. */
  lemma {:induction false} RunReaches(shape: Shape, desc: bool, rows: seq<Row>, c: nat)
    requires Ordered(shape, desc, rows) && !shape.GroupRows? && c < |rows| && Pos(rows[c]) == Pos(rows[|rows| - 1])
    ensures |rows| - Run(rows) <= c
  {
    if c < |rows| - 1 {
      Between(shape, desc, rows, c, |rows| - 1, |rows| - 2);
      OrderedPrefix(shape, desc, rows, |rows| - 1);
      RunReaches(shape, desc, rows[..|rows| - 1], c);
    }
  }

  // ---------------------------------------------------------------- resuming

  /** The rows a walk from a seek is about. */
  function Result(shape: Shape, desc: bool, seek: Resume, all: seq<Row>): seq<Row> {
    Select(shape, desc, seek, all)
  }

  /** Rows equal to the anchor or beyond it; for groups, beyond it only. */
  lemma AnchorAdmits(shape: Shape, desc: bool, rows: seq<Row>, m: nat, i: nat)
    requires Ordered(shape, desc, rows) && OfShape(shape, rows) && 0 < m <= |rows| && i < |rows|
    ensures var a, s := rows[m - 1], if shape.GroupRows? then m else m - Run(rows[..m]);
            Admits(shape, desc, Anchor(a.key, a.pkey), rows[i]) <==> s <= i
  {
    var a, run := rows[m - 1], Run(rows[..m]);
    RunIs(rows[..m]);
    BeforeTotal(desc, Pos(a), Pos(rows[i]));
    BeforeTotal(desc, KeyOnly(a.key), KeyOnly(rows[i].key));
    BytesTotal(a.key, rows[i].key);
    if i < m - 1 {
      assert Follows(shape, desc, rows[i], a);
      if i < m - run && !shape.GroupRows? {
        assert rows[..m][m - run - 1] == rows[m - run - 1];
        if i < m - run - 1 {
          assert Follows(shape, desc, rows[i], rows[m - run - 1]) && Follows(shape, desc, rows[m - run - 1], a);
          BeforeTotal(desc, Pos(rows[m - run - 1]), Pos(rows[i]));
        }
      } else if !shape.GroupRows? {
        assert rows[..m][i] == rows[i];
      }
    } else if i > m - 1 {
      assert Follows(shape, desc, a, rows[i]);
    }
  }

  /** Resuming at the last represented row re-reads exactly its run, then continues. */
  lemma ResumesAt(shape: Shape, desc: bool, seek: Resume, all: seq<Row>, m: nat)
    requires Ordered(shape, desc, all) && OfShape(shape, all) && seek.Start?
    requires 0 < m <= |Result(shape, desc, seek, all)|
    ensures var rows := Result(shape, desc, seek, all);
            var a, s := rows[m - 1], if shape.GroupRows? then m else m - Run(rows[..m]);
            Select(shape, desc, Anchor(a.key, a.pkey), all) == rows[s..]
  {
    hide Admits, Ordered, Follows, Select, OfShape;
    var rows := Result(shape, desc, seek, all);
    var a, s := rows[m - 1], if shape.GroupRows? then m else m - Run(rows[..m]);
    var later := Anchor(a.key, a.pkey);
    SelectKeeps(shape, desc, seek, all);
    assert a in rows;
    forall r | r in all && Admits(shape, desc, later, r) ensures Admits(shape, desc, seek, r) {
      AnchorIsLater(shape, desc, seek, a, r, all);
    }
    SelectTwice(shape, desc, seek, later, all);
    forall i | 0 <= i < |rows| ensures Admits(shape, desc, later, rows[i]) <==> s <= i {
      AnchorAdmits(shape, desc, rows, m, i);
    }
    SelectSuffix(shape, desc, later, rows, s);
  }

  lemma AnchorIsLater(shape: Shape, desc: bool, seek: Resume, a: Row, r: Row, all: seq<Row>)
    requires seek.Start? && Admits(shape, desc, seek, a) && Admits(shape, desc, Anchor(a.key, a.pkey), r)
    requires OfShape(shape, all) && a in all && r in all
    ensures Admits(shape, desc, seek, r)
  {
    BytesTotal(a.key, r.key);
    BytesTotal(a.pkey, r.pkey);
    assert Follows(shape, desc, a, r) || Pos(a) == Pos(r);
    StartIsUpward(shape, desc, seek, a, r);
  }

  // ---------------------------------------------------------------- the cursor

  datatype Fetched = Added | NoneLeft | Panics

  datatype Stepped = Moved | AtEnd | Panicked

  /** The first page end beyond 512 rows, when pages are fetched without dropping any row from `start` on. */
  function FirstLong(shape: Shape, rows: seq<Row>, start: nat, end: nat): Option<nat>
    requires end <= |rows|
    decreases |rows| - end
  {
    var next := NextEnd(shape, rows, end);
    if next == end then None
    else if next > start + 512 then Some(next)
    else FirstLong(shape, rows, start, next)
  }

  /** There is such a page exactly when there are so many rows to reach, and it is at most 128 rows over. */
  lemma {:induction false} FirstLongWithin(shape: Shape, desc: bool, rows: seq<Row>, start: nat, end: nat)
    requires Ordered(shape, desc, rows) && end <= Reachable(shape, rows, 0) <= |rows| && end <= start + 512
    ensures var f := FirstLong(shape, rows, start, end);
            && (f.Some? <==> Reachable(shape, rows, 0) > start + 512)
            && (f.Some? ==> end < f.value && start + 512 < f.value <= start + 512 + PAGE_SIZE)
    decreases |rows| - end
  {
    hide Ordered, Reachable, NextEnd;
    PageAdvances(shape, desc, rows, end);
    var next := NextEnd(shape, rows, end);
    if end < next <= start + 512 {
      FirstLongWithin(shape, desc, rows, start, next);
    }
  }

  lemma FirstLongIs(c: SqliteCursor)
    requires c.Valid() && |c.buffer| <= 512
    ensures var f := FirstLong(c.shape, c.Rows(), c.bufStart, c.End());
            && (f.Some? <==> c.Reach() > c.bufStart + 512)
            && (f.Some? ==> c.End() < f.value && c.bufStart + 512 < f.value <= c.bufStart + 512 + PAGE_SIZE)
  {
    hide Result, Ordered, OfShape, Reachable, FirstLong;
    ReachableIs(c.shape, c.Rows(), 0);
    ResultIsOrdered(c.shape, c.desc, c.seek, c.all);
    FirstLongWithin(c.shape, c.desc, c.Rows(), c.bufStart, c.End());
  }

  lemma FirstPage(shape: Shape, rows: seq<Row>)
    ensures NextEnd(shape, rows, 0) == if |rows| < 128 then |rows| else 128
  {
  }

  class SqliteCursor {
    /** The whole range in the walk's order, as the database holds it. */
    const all: seq<Row>
    const shape: Shape
    const desc: bool
    var seek: Resume
    /** The buffered rows, and the position of the first of them in the result. */
    var buffer: seq<Row>
    var bufStart: nat
    var pos: u64
    var exhausted: bool
    /** The last represented row, and how many rows equal to it have been represented. */
    var anchor: Option<Key>
    var anchorEq: nat

    constructor (all: seq<Row>, shape: Shape, desc: bool)
      requires Ordered(shape, desc, all) && OfShape(shape, all)
      ensures Valid() && fresh(this) && this.all == all && this.shape == shape && this.desc == desc && seek == Start(None, None)
      ensures bufStart == pos == 0 && buffer == [] && !exhausted
    {
      this.all, this.shape, this.desc, seek := all, shape, desc, Start(None, None);
      buffer, bufStart, pos, exhausted, anchor, anchorEq := [], 0, 0, false, None, 0;
    }

    ghost function Rows(): seq<Row>
      reads this
    {
      Result(shape, desc, seek, all)
    }

    ghost function End(): nat
      reads this
    {
      bufStart + |buffer|
    }

    ghost function Reach(): nat
      reads this
    {
      Reachable(shape, Rows(), 0)
    }

    /** The buffer is a window of the result; the anchor is the end of what has been represented. */
    ghost predicate Valid()
      reads this
    {
      && Ordered(shape, desc, all) && OfShape(shape, all) && seek.Start?
      && End() <= |Rows()| && End() <= Reach() && buffer == Rows()[bufStart..End()]
      && anchor == (if End() == 0 then None else Some(Pos(Rows()[End() - 1])))
      && anchorEq == Run(Rows()[..End()])
    }

    /** The row the cursor stands on. */
    function Current(): Option<Row>
      reads this
    {
      if exhausted || pos < bufStart || pos >= bufStart + |buffer| then None else Some(buffer[pos - bufStart])
    }

    method NoteAppended(r: Row)
      requires anchorEq == 0 <==> anchor.None?
      modifies this`anchor, this`anchorEq
      ensures anchor == Some(Pos(r))
      ensures anchorEq == if old(anchor) == Some(Pos(r)) then old(anchorEq) + 1 else 1
    {
      if anchor.Some? && anchor.value.key == r.key && anchor.value.pkey == r.pkey && anchor.value.id == 0 {
        anchorEq := anchorEq + 1;
      } else {
        anchor, anchorEq := Some(Pos(r)), 1;
      }
    }

    /** Buffers the row after the last represented one. */
    method Push(r: Row)
      requires Valid() && End() < Reach() && End() < |Rows()| && r == Rows()[End()]
      modifies this`buffer, this`anchor, this`anchorEq
      ensures Valid() && End() == old(End()) + 1
    {
      hide Result, Ordered, OfShape, Reachable;
      RunNext(Rows(), End());
      NoteAppended(r);
      buffer := buffer + [r];
    }

    /** One page: the query at the anchor, without the rows already represented, then the visited rows
        dropped. It is asked for only when the position is past everything buffered; the drop panics when the
        position is past the new rows as well. */
    method FetchNextPage() returns (r: Fetched)
      requires Valid() && pos >= End() && |buffer| <= 512
      modifies this`buffer, this`bufStart, this`exhausted, this`anchor, this`anchorEq
      ensures Valid() && End() == NextEnd(shape, Rows(), old(End()))
      ensures r.NoneLeft? <==> old(End()) == Reach()
      ensures r.NoneLeft? ==> exhausted && End() == old(End())
      ensures !r.NoneLeft? ==> exhausted == old(exhausted) && End() > old(End())
      ensures r.Panics? <==> End() > old(bufStart) + 512 && pos > End()
      ensures r.Added? ==> |buffer| <= 512 && bufStart == (if End() > old(bufStart) + 512 then pos else old(bufStart)) <= pos
    {
      hide Result, Ordered, OfShape, Reachable, Select, Run, Query, NextEnd;
      var grouped := shape.GroupRows?;
      var was, start := anchor, End();
      var skip := if grouped then 0 else anchorEq;
      var page := Limited(Query(this));
      ghost var from := ResumePoint(this);
      PageIs(this, page);
      var added := false;
      var skipped := 0;
      for i := 0 to |page|
        invariant Valid() && bufStart == old(bufStart) && exhausted == old(exhausted)
        invariant skipped == if i < skip then i else skip
        invariant End() == if from + i < start then start else from + i
        invariant added == (End() > start)
      {
        var row := page[i];
        if skipped < skip && was == Some(Pos(row)) {
          skipped := skipped + 1;
          continue;
        }
        Push(row);
        added := true;
      }
      if !added {
        exhausted := true;
      }
      var dropped := DropVisited();
      return if !dropped then Panics else if added then Added else NoneLeft;
    }

    /** Forgets the rows before the position once the buffer is long; there must be that many in it. */
    method DropVisited() returns (ok: bool)
      requires Valid() && pos >= bufStart
      modifies this`buffer, this`bufStart
      ensures Valid() && End() == old(End())
      ensures var long := |old(buffer)| > 512 && pos > old(bufStart) + 256;
              && (ok <==> long ==> pos <= End())
              && bufStart == (if long && ok then pos else old(bufStart))
    {
      hide Result, Ordered, OfShape, Reachable, Run;
      ok := true;
      if |buffer| > 512 && pos > bufStart + 256 {
        var dropN := pos - bufStart;
        if dropN > |buffer| {
          return false;
        }
        buffer := buffer[dropN..];
        bufStart := pos;
      }
    }

    /** Standing on a row within what paging can reach. */
    ghost predicate OnRow()
      reads this
    {
      Valid() && !exhausted && bufStart <= pos < End() && |buffer| <= 512
    }

    method Seek(target: Resume) returns (ok: bool)
      requires Valid() && target.Start?
      modifies this
      ensures Valid() && seek == target && ok == (Reach() > 0)
      ensures ok ==> OnRow() && pos == bufStart == 0 && Current() == Some(Rows()[0])
      ensures exhausted == !ok && End() == NextEnd(shape, Rows(), 0) && |buffer| == (if |Rows()| < 128 then |Rows()| else 128)
    {
      hide Result, Ordered, OfShape, Reachable;
      seek, buffer, bufStart, pos, exhausted, anchor, anchorEq := target, [], 0, 0, false, None, 0;
      EmptyRun();
      FirstPage(shape, Rows());
      var fetched := FetchNextPage();
      ok := fetched.Added?;
    }

    /** Where a step leads; the addition saturates. */
    function Target(count: u32): u64
      reads this`pos
    {
      if pos + count > U64_MAX then U64_MAX else pos + count
    }

    /** A page on the way makes the buffer longer than its bound while the target is still further on. */
    ghost predicate Overshoots(to: nat)
      requires End() <= |Rows()|
      reads this
    {
      var end := FirstLong(shape, Rows(), bufStart, End());
      end.Some? && end.value < to
    }

    /** Moves on by any number of rows. It panics exactly when it overshoots, which it cannot within 512 rows
        of the first buffered one, nor by a single row. */
    method Step(count: u32) returns (r: Stepped)
      requires Valid() && (exhausted || OnRow())
      modifies this
      ensures Valid() && seek == old(seek) && pos == old(if exhausted then pos else Target(count))
      ensures r.Panicked? <==> old(!exhausted && Overshoots(Target(count)))
      ensures r.Panicked? ==> count > 1 && pos > old(bufStart) + 512
      ensures r.Moved? <==> old(!exhausted) && !r.Panicked? && pos < Reach()
      ensures r.Moved? ==> OnRow() && pos < |Rows()| && Current() == Some(Rows()[pos])
      ensures exhausted == r.AtEnd?
    {
      hide Result, Ordered, OfShape, Reachable, FirstLong;
      if exhausted {
        return AtEnd;
      }
      FirstLongIs(this);
      pos := Target(count);
      r := Ensure();
      if r.AtEnd? {
        exhausted := true;
      }
    }

    /** Makes the row at the position available, fetching pages while there are any. */
    method Ensure() returns (r: Stepped)
      requires Valid() && !exhausted && bufStart <= pos && |buffer| <= 512
      modifies this`buffer, this`bufStart, this`exhausted, this`anchor, this`anchorEq
      ensures Valid() && (r.Panicked? <==> old(Overshoots(pos)))
      ensures r.Moved? ==> OnRow() && pos < Reach()
      ensures (r.AtEnd? ==> pos >= Reach()) && (!r.AtEnd? ==> !exhausted)
    {
      hide Result, Ordered, OfShape, Reachable, NextEnd;
      while pos >= bufStart + |buffer|
        invariant Valid() && !exhausted && bufStart <= pos && |buffer| <= 512
        invariant Overshoots(pos) == old(Overshoots(pos))
        decreases Reach() - End()
      {
        ghost var end, start := End(), bufStart;
        var fetched := FetchNextPage();
        if fetched.NoneLeft? {
          return AtEnd;
        }
        if fetched.Panics? {
          return Panicked;
        }
        FirstLongIs(this);
      }
      FirstLongIs(this);
      return Moved;
    }
  }

  /** A whole walk by single steps: the rows the paging can reach, each once, in order, values included;
      `PagingIsComplete` says when that is all of them. */
  method Walk(c: SqliteCursor, target: Resume) returns (rows: seq<Row>)
    requires c.Valid() && target.Start? && |c.all| <= U64_MAX
    modifies c
    ensures c.seek == target
    ensures var result := Result(c.shape, c.desc, target, c.all);
            Reachable(c.shape, result, 0) <= |result| && rows == result[..Reachable(c.shape, result, 0)]
  {
    hide Result, Ordered, OfShape, Reachable, SqliteCursor.Valid, SqliteCursor.OnRow, SqliteCursor.Current;
    rows := [];
    var active := c.Seek(target);
    ReachableIs(c.shape, c.Rows(), 0);
    ResultIsShorter(c.shape, c.desc, target, c.all);
    while active
      invariant c.Valid() && c.seek == target
      invariant active ==> c.OnRow() && !c.exhausted && c.pos == |rows| < |c.Rows()| && c.Current() == Some(c.Rows()[c.pos]) && |rows| < c.Reach()
      invariant !active ==> |rows| == c.Reach()
      invariant |rows| <= |c.Rows()| && rows == c.Rows()[..|rows|]
      decreases c.Reach() - |rows|, active
    {
      rows := rows + [c.Current().value];
      var stepped := c.Step(1);
      active := stepped.Moved?;
    }
  }

  /** Right after a seek, with more than 512 unique rows to come, a jump over more than 640 panics. */
  method LongJump(all: seq<Row>, shape: Shape, desc: bool, count: u32) returns (c: SqliteCursor, r: Stepped)
    requires Ordered(shape, desc, all) && OfShape(shape, all) && |all| > 512 && count > 640
    requires forall i, j | 0 <= i < j < |all| :: Pos(all[i]) != Pos(all[j])
    ensures fresh(c) && c.Rows() == all && c.seek == Start(None, None) && r.Panicked?
  {
    hide Ordered, OfShape, Reachable, FirstLong;
    c := new SqliteCursor(all, shape, desc);
    AllSelected(shape, desc, all);
    UniqueRowsPage(shape, all);
    var _ := c.Seek(Start(None, None));
    FirstLongIs(c);
    r := c.Step(count);
  }

  lemma {:induction false} AllSelected(shape: Shape, desc: bool, all: seq<Row>)
    ensures Result(shape, desc, Start(None, None), all) == all
  {
    if all != [] {
      AllSelected(shape, desc, all[1..]);
      assert Select(shape, desc, Start(None, None), all[1..]) == all[1..];
    }
  }

  /** Two thousand records, and a jump over a thousand of them. */
  method JumpOverAThousand() returns (c: SqliteCursor, r: Stepped)
    ensures fresh(c) && |c.Rows()| == 2000 && r.Panicked?
  {
    NumberedRows(2000);
    c, r := LongJump(Numbered(2000), StoreRows, false, 1000);
  }

  function Numbered(n: nat): seq<Row>
    requires n <= 0x1_0000
  {
    seq(n, i requires 0 <= i < n => Row([i / 0x100, i % 0x100], [i / 0x100, i % 0x100], None))
  }

  lemma NumberedRows(n: nat)
    requires n <= 0x1_0000
    ensures |Numbered(n)| == n && Ordered(StoreRows, false, Numbered(n)) && OfShape(StoreRows, Numbered(n))
    ensures forall i, j | 0 <= i < j < n :: Pos(Numbered(n)[i]) != Pos(Numbered(n)[j])
  {
    var rows := Numbered(n);
    forall i, j | 0 <= i < j < n ensures Follows(StoreRows, false, rows[i], rows[j]) && Pos(rows[i]) != Pos(rows[j]) {
      var a, b := rows[i].key, rows[j].key;
      assert a[1..] == [a[1]] && b[1..] == [b[1]];
      assert a[0] < b[0] || (a[0] == b[0] && BytesLess(a[1..], b[1..]));
      assert BytesLess(a, b);
      assert Less(Pos(rows[i]), Pos(rows[j]));
    }
  }

  lemma RunNext(rows: seq<Row>, m: nat)
    requires m < |rows|
    ensures Run(rows[..m + 1]) == if m > 0 && Pos(rows[m - 1]) == Pos(rows[m]) then Run(rows[..m]) + 1 else 1
    ensures m > 0 ==> Run(rows[..m]) > 0
    ensures m == 0 ==> Run(rows[..m]) == 0
  {
    assert rows[..m + 1][..m] == rows[..m];
  }

  lemma EmptyRun()
    ensures Run([]) == 0
  {
  }

  lemma ResultIs(shape: Shape, desc: bool, seek: Resume, all: seq<Row>)
    ensures Result(shape, desc, seek, all) == Select(shape, desc, seek, all)
  {
  }

  lemma {:induction false} ResultIsShorter(shape: Shape, desc: bool, seek: Resume, all: seq<Row>)
    ensures |Result(shape, desc, seek, all)| <= |all|
  {
    if all != [] {
      ResultIsShorter(shape, desc, seek, all[1..]);
    }
  }

  lemma ResultIsOrdered(shape: Shape, desc: bool, seek: Resume, all: seq<Row>)
    requires Ordered(shape, desc, all) && OfShape(shape, all)
    ensures Ordered(shape, desc, Result(shape, desc, seek, all))
  {
    SelectKeeps(shape, desc, seek, all);
  }

  /** The unlimited query of a page. */
  function Query(c: SqliteCursor): seq<Row>
    reads c
  {
    Select(c.shape, c.desc, if c.anchor.None? then c.seek else Anchor(c.anchor.value.key, c.anchor.value.pkey), c.all)
  }

  ghost function ResumePoint(c: SqliteCursor): int
    reads c
  {
    c.End() - if c.shape.GroupRows? then 0 else c.anchorEq
  }

  lemma QueryIs(c: SqliteCursor)
    requires c.Valid()
    ensures 0 <= ResumePoint(c) <= c.End() && Query(c) == c.Rows()[ResumePoint(c)..]
  {
    hide Ordered, OfShape, Reachable, Select, Result, Run;
    if c.End() > 0 {
      ResumesAt(c.shape, c.desc, c.seek, c.all, c.End());
    } else {
      EmptyRun();
      ResultIs(c.shape, c.desc, c.seek, c.all);
    }
  }

  /** The rows before the end of what is represented are those equal to the anchor. */
  lemma ReReadIsAnchor(c: SqliteCursor, i: nat)
    requires c.Valid() && ResumePoint(c) <= i < c.End()
    ensures c.anchor == Some(Pos(c.Rows()[i]))
  {
    hide Ordered, OfShape, Reachable, Select, Result, Run;
    var rows, m := c.Rows(), c.End();
    RunIs(rows[..m]);
    assert Pos(rows[..m][i]) == Pos(rows[..m][m - 1]);
  }

  lemma LimitedAt(rows: seq<Row>, from: nat)
    requires from <= |rows|
    ensures var page := Limited(rows[from..]);
            && |page| == (if |rows| - from <= PAGE_SIZE then |rows| - from else PAGE_SIZE)
            && forall i | 0 <= i < |page| :: page[i] == rows[from + i]
  {
  }

  /** What a page holds: the rows from the anchor's run on, the represented ones equal to the anchor. */
  lemma PageIs(c: SqliteCursor, page: seq<Row>)
    requires c.Valid() && page == Limited(Query(c))
    ensures var from, m := ResumePoint(c), c.End();
            && 0 <= from <= m && (from + |page| <= m ==> m == c.Reach())
            && (from + |page| > m ==> from + |page| <= c.Reach() && m < c.Reach())
            && NextEnd(c.shape, c.Rows(), m) == (if from + |page| > m then from + |page| else m)
            && |page| <= PAGE_SIZE && from + |page| <= |c.Rows()|
            && (forall i | 0 <= i < |page| :: page[i] == c.Rows()[from + i])
            && (forall i | 0 <= i < |page| && from + i < m :: c.anchor == Some(Pos(page[i])))
  {
    hide Ordered, OfShape, Reachable, Select, Result, Run, Query, Limited;
    var rows, m, from := c.Rows(), c.End(), ResumePoint(c);
    ResultIsOrdered(c.shape, c.desc, c.seek, c.all);
    PageAdvances(c.shape, c.desc, rows, m);
    QueryIs(c);
    LimitedAt(rows, from);
    forall i | 0 <= i < |page| && from + i < m ensures c.anchor == Some(Pos(page[i])) {
      ReReadIsAnchor(c, from + i);
    }
  }
}
