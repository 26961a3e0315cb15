/** The merge of a committed ordered map with a transaction's overlay, as a walk sees it. */
module MergeWalk {
  import opened Bytes
  import opened Keys

  /** A source whose first unexamined key belongs to another store or index: its peek answers nothing. */
  predicate Blocked(desc: bool, s: set<Key>, b: Bound, id: u64) {
    exists k :: k in s && Beyond(desc, b, k) && (if desc then id < k.id else k.id < id)
  }

  /** The keys one source can still deliver. */
  function Reach(desc: bool, s: set<Key>, b: Bound, id: u64): set<Key> {
    if Blocked(desc, s, b, id) then {} else set k | k in s && k.id == id && Beyond(desc, b, k)
  }

  lemma PeekIsNearest(desc: bool, s: set<Key>, b: Bound, id: u64)
    ensures var r := Reach(desc, s, b, id);
            Peek(desc, s, b, id) == if r == {} then None else Some(Nearest(desc, r))
  {
    hide Beyond;
    var ahead, r := Ahead(desc, s, b), Reach(desc, s, b, id);
    if Blocked(desc, s, b, id) {
      var k :| k in s && Beyond(desc, b, k) && (if desc then id < k.id else k.id < id);
      assert k in ahead && AtOrBefore(desc, Nearest(desc, ahead), k);
    } else if ahead != {} {
      var n := Nearest(desc, ahead);
      assert !(if desc then id < n.id else n.id < id);
      if r != {} {
        var k := Nearest(desc, r);
        assert k in ahead && AtOrBefore(desc, n, k);
        assert n in r;
        NearestIsUnique(desc, r, n, k);
      } else {
        assert n.id == id ==> n in r;
      }
    } else {
      assert forall k | k in r :: k in ahead;
    }
  }

  /** Moving a source past its nearest key takes exactly that key away. */
  lemma ReachStep(desc: bool, s: set<Key>, b: Bound, id: u64, n: Key)
    requires IsNearest(desc, Reach(desc, s, b, id), n)
    ensures Reach(desc, s, Excluded(n), id) == Reach(desc, s, b, id) - {n}
    ensures !Blocked(desc, s, Excluded(n), id)
  {
    var r := Reach(desc, s, b, id);
    forall k | k in s && k.id == id ensures Before(desc, n, k) <==> Beyond(desc, b, k) && k != n {
      BeforeTotal(desc, n, k);
      if Before(desc, n, k) {
        BeyondFollows(desc, b, n, k);
      } else if Beyond(desc, b, k) {
        assert k in r;
      }
    }
  }

  lemma BeyondFollows(desc: bool, b: Bound, n: Key, k: Key)
    requires Beyond(desc, b, n) && Before(desc, n, k)
    ensures Beyond(desc, b, k)
  {
    if !b.Unbounded? && b.k != n {
      BeforeTransitive(desc, b.k, n, k);
    }
  }

  /** Whether a key is past the far end of the range for the direction. */
  predicate PastEnd(desc: bool, range: EncodedRange, key: Blob) {
    if desc then
      range.lower.Some? && (BytesLess(key, range.lower.value.key) || (key == range.lower.value.key && range.lower.value.open))
    else
      range.upper.Some? && (BytesLess(range.upper.value.key, key) || (key == range.upper.value.key && range.upper.value.open))
  }

  lemma PastEndForGood(desc: bool, range: EncodedRange, x: Key, k: Key)
    requires PastEnd(desc, range, x.key) && AtOrBefore(desc, x, k) && x.id == k.id
    ensures !range.Contains(k.key)
  {
    var end := if desc then range.lower.value.key else range.upper.value.key;
    BytesTotal(k.key, end);
    BytesTotal(x.key, end);
    BytesTotal(x.key, k.key);
    if desc && BytesLess(k.key, x.key) && BytesLess(x.key, end) { BytesTransitive(k.key, x.key, end); }
    if !desc && BytesLess(x.key, k.key) && BytesLess(end, x.key) { BytesTransitive(end, x.key, k.key); }
  }

  /** One walk: its direction, its scope, the two sources and how far each has been examined. */
  datatype Merge = Merge(desc: bool, id: u64, range: EncodedRange, committed: set<Key>, pending: map<Key, bool>,
                         cBound: Bound, pBound: Bound) {
    /** The overlay decides; a key it does not mention keeps its committed state. */
    predicate Live(k: Key) {
      if k in pending then pending[k] else k in committed
    }

    /** The merged entries of the scope within the range. */
    function All(): set<Key> {
      set k | k in committed + pending.Keys && k.id == id && Live(k) && range.Contains(k.key)
    }

    function CReach(): set<Key> {
      Reach(desc, committed, cBound, id)
    }

    function PReach(): set<Key> {
      Reach(desc, pending.Keys, pBound, id)
    }

    /** The entries the walk has still to deliver. */
    function Rows(): set<Key> {
      set k | k in CReach() + PReach() && Live(k) && range.Contains(k.key)
    }

    /** Neither source has run ahead of the other on a key they share. */
    predicate Aligned() {
      && (!Blocked(desc, pending.Keys, pBound, id) ==> forall k | k in CReach() && k in pending :: k in PReach())
      && (!Blocked(desc, committed, cBound, id) ==> forall k | k in PReach() && k in committed :: k in CReach())
    }

    function Measure(): nat {
      |CReach()| + |PReach()|
    }
  }

  /** A walk that has just been positioned: both sources start at the same bound. */
  lemma StartsAligned(m: Merge)
    requires m.cBound == m.pBound
    ensures m.Aligned()
  {
  }

  /** The key a pass examines, and the walk after the sources have moved past it. */
  predicate Examines(m: Merge, x: Key, m': Merge) {
    && m' == m.(cBound := if x in m.CReach() then Excluded(x) else m.cBound,
                pBound := if x in m.PReach() then Excluded(x) else m.pBound)
    && IsNearest(m.desc, m.CReach() + m.PReach(), x)
  }

  lemma ExamineReach(m: Merge, x: Key, m': Merge)
    requires m.Aligned() && Examines(m, x, m')
    ensures m'.Aligned()
    ensures m'.CReach() == m.CReach() - {x} && m'.PReach() == m.PReach() - {x}
    ensures IsNearest(m.desc, m.CReach() + m.PReach(), x) && x.id == m.id
    ensures m' == m.(cBound := m'.cBound, pBound := m'.pBound)
  {
    hide Before, Beyond, Blocked, AtOrBefore, Merge.Live;
    assert IsNearest(m.desc, m.CReach() + m.PReach(), x);
    if x in m.CReach() {
      assert IsNearest(m.desc, m.CReach(), x);
      ReachStep(m.desc, m.committed, m.cBound, m.id, x);
    }
    if x in m.PReach() {
      assert IsNearest(m.desc, m.PReach(), x);
      ReachStep(m.desc, m.pending.Keys, m.pBound, m.id, x);
    }
  }

  /** Every pass leaves the sources aligned, takes one key out of reach and loses no row but that key. */
  lemma ExamineStep(m: Merge, x: Key, m': Merge)
    requires m.Aligned() && Examines(m, x, m')
    ensures m'.Aligned()
    ensures m'.Rows() == Without(m.Rows(), x)
    ensures m'.Measure() < m.Measure()
    ensures x in m.Rows() <==> m.Live(x) && m.range.Contains(x.key)
    ensures x in m.Rows() ==> IsNearest(m.desc, m.Rows(), x)
    ensures x.id == m.id
    ensures PastEnd(m.desc, m.range, x.key) ==> m.Rows() == {}
  {
    hide Before, PastEnd, Examines, AtOrBefore, EncodedRange.Contains, Merge.Aligned, Merge.CReach, Merge.PReach;
    ExamineReach(m, x, m');
    ShrinkCards(m.CReach(), m.PReach(), x);
    if PastEnd(m.desc, m.range, x.key) {
      forall k | k in m.Rows() ensures false {
        RowsInScope(m, k);
        PastEndForGood(m.desc, m.range, x, k);
      }
    }
  }

  lemma ShrinkCards(a: set<Key>, b: set<Key>, x: Key)
    requires x in a + b
    ensures |a - {x}| + |b - {x}| < |a| + |b|
  {
  }

  lemma RowsInScope(m: Merge, k: Key)
    requires k in m.Rows()
    ensures k.id == m.id
  {
  }

  /** Which source the two peeks select. */
  lemma PickIsNearest(m: Merge, x: Key)
    requires m.CReach() + m.PReach() != {}
    requires var c, p := m.CReach(), m.PReach();
             x == if p == {} then Nearest(m.desc, c)
                  else if c == {} || AtOrBefore(m.desc, Nearest(m.desc, p), Nearest(m.desc, c)) then Nearest(m.desc, p)
                  else Nearest(m.desc, c)
    ensures IsNearest(m.desc, m.CReach() + m.PReach(), x)
  {
    hide Before;
    var c, p := m.CReach(), m.PReach();
    forall k | k in c + p ensures AtOrBefore(m.desc, x, k) {
      if c != {} && p != {} {
        var a, b := Nearest(m.desc, c), Nearest(m.desc, p);
        BeforeTotal(m.desc, a, b);
        if Before(m.desc, x, a) && Before(m.desc, a, k) { BeforeTransitive(m.desc, x, a, k); }
        if Before(m.desc, x, b) && Before(m.desc, b, k) { BeforeTransitive(m.desc, x, b, k); }
      }
    }
  }

  // ---------------------------------------------------------------- unique walks

  /** The least entry of every key group among `s`. */
  function Least(s: set<Key>): set<Key> {
    set k | k in s && forall x | x in s && x.key == k.key :: !Less(x, k)
  }

  /** What a walk has still to yield, from the rows left and all rows of the scope. */
  function YieldsOf(desc: bool, unique: bool, last: Option<Blob>, rows: set<Key>, all: set<Key>): set<Key> {
    if !unique then rows
    else if !desc then set k | k in Least(rows) && last != Some(k.key)
    else set k | k in Least(all) && exists x :: x in rows && !BytesLess(x.key, k.key)
  }

  /** What the cursor has still to yield: every row; or one row per key group, always the least. */
  function Yields(m: Merge, unique: bool, last: Option<Blob>): set<Key> {
    YieldsOf(m.desc, unique, last, m.Rows(), m.All())
  }

  /** The rows left lie at or past the group yielded last. */
  predicate LastBehind(desc: bool, rows: set<Key>, last: Option<Blob>) {
    last.Some? ==>
      forall k | k in rows :: if desc then BytesLess(k.key, last.value) else !BytesLess(k.key, last.value)
  }

  /** An entry of the group yielded last owes nothing to an ascending unique walk. */
  lemma SkipStep(rows: set<Key>, x: Key, last: Option<Blob>, all: set<Key>)
    requires x in rows && last == Some(x.key)
    ensures YieldsOf(false, true, last, Without(rows, x), all) == YieldsOf(false, true, last, rows, all)
  {
  }

  /** The first entry of a new group is the next yield of an ascending unique walk. */
  lemma UniqueStep(id: u64, rows: set<Key>, x: Key, last: Option<Blob>, all: set<Key>)
    requires IsNearest(false, rows, x) && LastBehind(false, rows, last) && last != Some(x.key)
    requires forall k | k in rows :: k.id == id
    ensures IsNearest(false, YieldsOf(false, true, last, rows, all), x)
    ensures YieldsOf(false, true, Some(x.key), Without(rows, x), all) == Without(YieldsOf(false, true, last, rows, all), x)
    ensures LastBehind(false, Without(rows, x), Some(x.key))
  {
    forall k | k in rows
      ensures !Less(k, x) && !BytesLess(k.key, x.key) && last != Some(k.key) {
      assert AtOrBefore(false, x, k);
      BeforeTotal(false, x, k);
      BytesTotal(k.key, x.key);
      if last.Some? {
        BytesTotal(x.key, last.value);
        BytesTotal(k.key, last.value);
      }
    }
  }

  function Below(s: set<Key>, min: Key): set<Key> {
    set k | k in s && Less(k, min)
  }

  /** The least entry of the last group is the next yield of a descending unique walk, which then jumps
      below it in both sources. */
  lemma JumpStep(id: u64, rows: set<Key>, all: set<Key>, x: Key, min: Key, last: Option<Blob>)
    requires IsNearest(true, rows, x) && rows <= all && forall k | k in all :: k.id == id
    requires min in Least(all) && min.key == x.key
    ensures var rows' := Below(all, min);
            && IsNearest(true, YieldsOf(true, true, last, rows, all), min)
            && YieldsOf(true, true, Some(x.key), rows', all) == Without(YieldsOf(true, true, last, rows, all), min)
            && LastBehind(true, rows', Some(x.key))
  {
    var y, rows' := YieldsOf(true, true, last, rows, all), Below(all, min);
    BytesIrreflexive(x.key);
    forall k | k in rows ensures !BytesLess(x.key, k.key) {
      assert AtOrBefore(true, x, k);
      BeforeTotal(true, x, k);
      BytesTotal(k.key, x.key);
    }
    forall k | k in rows' ensures BytesLess(k.key, x.key) {
      BytesTotal(k.key, x.key);
    }
    forall k | k in Least(all) && k != min
      ensures k in y <==> BytesLess(k.key, x.key)
      ensures BytesLess(k.key, x.key) ==> k in rows' && Less(k, min) {
      BytesTotal(k.key, x.key);
      if k.key == x.key {
        BeforeTotal(false, k, min);
      }
      if k in y {
        var r :| r in rows && !BytesLess(r.key, k.key);
        BytesTotal(r.key, k.key);
        BytesTotal(r.key, x.key);
        if BytesLess(x.key, k.key) && BytesLess(k.key, r.key) { BytesTransitive(x.key, k.key, r.key); }
      }
    }
    forall k | k in YieldsOf(true, true, Some(x.key), rows', all) ensures k != min && k in y {
      var r :| r in rows' && !BytesLess(r.key, k.key);
      BytesTotal(r.key, k.key);
      BytesTotal(k.key, x.key);
      if BytesLess(k.key, r.key) { BytesTransitive(k.key, r.key, x.key); }
    }
    forall k | k in y - {min} ensures k in YieldsOf(true, true, Some(x.key), rows', all) {
      BytesIrreflexive(k.key);
      assert k in rows';
    }
  }
}
