/** The lazy cursor: one buffered row over a frozen snapshot merged with the pending overlay. */
module Cursor {
  import opened Bytes
  import opened Keys
  import opened MergeWalk

  datatype CursorKind = Store(store: u64) | Index(store: u64, index: u64, unique: bool)
  datatype CursorSeek = First | ToKey(key: Blob) | ToPair(key: Blob, pkey: Blob)
  datatype Row = Row(key: Blob, pkey: Blob, value: Option<Blob>)

  /** Which record slots of an overlay hold a value. */
  function SlotLive(p: map<RecordKey, Option<Blob>>): map<RecordKey, bool> {
    map k | k in p :: p[k].Some?
  }

  /** Byte order of (key, primary key) pairs inside one store or index. */
  predicate PairLess(a: Key, b: Key) {
    BytesLess(a.key, b.key) || (a.key == b.key && BytesLess(a.pkey, b.pkey))
  }

  lemma SortedHead(desc: bool, s: set<Key>, x: Key)
    requires IsNearest(desc, s, x)
    ensures Sorted(desc, s) == [x] + Sorted(desc, Without(s, x))
  {
    NearestIsUnique(desc, s, x, Nearest(desc, s));
  }

  // ---------------------------------------------------------------- start bounds

  function StoreLower(store: u64, range: EncodedRange, floor: Option<Key>): Bound {
    var key := if range.lower.Some? then RecKey(store, range.lower.value.key) else RecKey(store, []);
    var inclusive := range.lower.Some? ==> !range.lower.value.open;
    if floor.Some? && BytesLess(key.key, floor.value.key) then Included(floor.value)
    else if inclusive then Included(key) else Excluded(key)
  }

  function StoreUpper(store: u64, range: EncodedRange, floor: Option<Key>): Bound {
    if range.upper.None? then (if floor.Some? then Included(floor.value) else Unbounded)
    else
      var key := RecKey(store, range.upper.value.key);
      if floor.Some? && BytesLess(floor.value.key, key.key) then Included(floor.value)
      else if range.upper.value.open then Excluded(key) else Included(key)
  }

  function IndexLower(index: u64, range: EncodedRange, floor: Option<Key>): Bound {
    var key := if range.lower.Some? then Key(index, range.lower.value.key, []) else Key(index, [], []);
    var inclusive := range.lower.Some? ==> !range.lower.value.open;
    if floor.Some? && PairLess(key, floor.value) then Included(floor.value)
    else if inclusive then Included(key) else Excluded(key)
  }

  function IndexUpper(index: u64, range: EncodedRange, floor: Option<Key>): Bound {
    if floor.Some? then Included(floor.value)
    else if range.upper.Some? && range.upper.value.open then Excluded(Key(index, range.upper.value.key, []))
    else Unbounded
  }

  /** Where both sources start after a seek. */
  function StartBound(kind: CursorKind, desc: bool, range: EncodedRange, floor: Option<Key>): Bound {
    match kind
    case Store(store) => if desc then StoreUpper(store, range, floor) else StoreLower(store, range, floor)
    case Index(_, index, _) => if desc then IndexUpper(index, range, floor) else IndexLower(index, range, floor)
  }

  /** The floor a seek target leaves. */
  function Floor(kind: CursorKind, target: CursorSeek): Option<Key> {
    match (kind, target)
    case (_, First) => None
    case (Store(store), ToKey(key)) => Some(RecKey(store, key))
    case (Store(store), ToPair(key, _)) => Some(RecKey(store, key))
    case (Index(_, index, _), ToKey(key)) => Some(Key(index, key, []))
    case (Index(_, index, _), ToPair(key, pkey)) => Some(Key(index, key, pkey))
  }

  /** The maps a cursor reads, frozen when it is opened. */
  datatype CursorMaps = CursorMaps(records: map<RecordKey, Blob>, index: set<Key>,
                                   pendingRecords: map<RecordKey, Option<Blob>>, pendingIndex: map<Key, bool>) {
    /** A pending deletion of a record. */
    predicate Tombstone(k: RecordKey) {
      k in pendingRecords && pendingRecords[k].None?
    }

    /** The merged value of a record: the overlay first, then the snapshot. */
    function ReadMerged(k: RecordKey): Option<Blob> {
      if k in pendingRecords then pendingRecords[k] else if k in records then Some(records[k]) else None
    }
  }

  /** The walk over the source `kind` names, with both sources at the given bounds. */
  function WalkOf(maps: CursorMaps, kind: CursorKind, desc: bool, range: EncodedRange, cBound: Bound, pBound: Bound): Merge {
    match kind
    case Store(store) => Merge(desc, store, range, maps.records.Keys, SlotLive(maps.pendingRecords), cBound, pBound)
    case Index(_, index, _) => Merge(desc, index, range, maps.index, maps.pendingIndex, cBound, pBound)
  }

  /** The walk right after a seek. */
  function StartOf(maps: CursorMaps, kind: CursorKind, desc: bool, range: EncodedRange, target: CursorSeek): Merge {
    var b := StartBound(kind, desc, range, Floor(kind, target));
    WalkOf(maps, kind, desc, range, b, b)
  }

  /** The row the cursor shows at an entry. */
  function RowOf(maps: CursorMaps, kind: CursorKind, keyOnly: bool, k: Key): Row {
    match kind
    case Store(store) => Row(k.key, k.key, if keyOnly then None else maps.ReadMerged(RecKey(store, k.key)))
    case Index(store, _, _) => Row(k.key, k.pkey, if keyOnly then None else maps.ReadMerged(RecKey(store, k.pkey)))
  }

  class FsCursor {
    const maps: CursorMaps
    const kind: CursorKind
    const range: EncodedRange
    const desc: bool
    const keyOnly: bool
    /** Last examined keys: exclusive resume points of the two sources. */
    var committedPos: Option<Key>
    var pendingPos: Option<Key>
    /** Inclusive seek floor, clamped with the range. */
    var floor: Option<Key>
    /** Last yielded index key of a unique walk. */
    var lastIndexKey: Option<Blob>
    var current: Option<Row>
    var exhausted: bool

    constructor Open(maps: CursorMaps, kind: CursorKind, range: EncodedRange, desc: bool, keyOnly: bool)
      ensures this.maps == maps && this.kind == kind && this.range == range && this.desc == desc
      ensures this.keyOnly == keyOnly && exhausted && current == None && Valid()
    {
      this.maps, this.kind, this.range, this.desc, this.keyOnly := maps, kind, range, desc, keyOnly;
      committedPos, pendingPos, floor, lastIndexKey := None, None, None, None;
      current, exhausted := None, true;
    }

    function Unique(): bool {
      kind.Index? && kind.unique
    }

    function CommittedBound(): Bound
      reads this
    {
      if committedPos.Some? then Excluded(committedPos.value) else StartBound(kind, desc, range, floor)
    }

    function PendingBound(): Bound
      reads this
    {
      if pendingPos.Some? then Excluded(pendingPos.value) else StartBound(kind, desc, range, floor)
    }

    /** The abstract walk this cursor is on. */
    function M(): Merge
      reads this
    {
      WalkOf(maps, kind, desc, range, CommittedBound(), PendingBound())
    }

    ghost predicate Valid()
      reads this
    {
      M().Aligned() && (Unique() ==> LastBehind(desc, M().Rows(), lastIndexKey))
    }

    ghost function Left(): set<Key>
      reads this
    {
      Yields(M(), Unique(), lastIndexKey)
    }

    /** The entries still to be yielded, in order. */
    ghost function Remaining(): seq<Key>
      reads this
    {
      if exhausted then [] else Sorted(desc, Left())
    }

    function PeekCommitted(): Option<Key>
      reads this
    {
      var m := M();
      Peek(desc, m.committed, m.cBound, m.id)
    }

    function PeekPending(): Option<Key>
      reads this
    {
      var m := M();
      Peek(desc, m.pending.Keys, m.pBound, m.id)
    }

    /** The merge of the two peeks: the key to examine, or nothing left. Both sources move past it. */
    method Examine() returns (x: Option<Key>)
      requires M().Aligned()
      modifies this`committedPos, this`pendingPos
      ensures x.None? ==> unchanged(this) && M().Rows() == {}
      ensures x.Some? ==> Examines(old(M()), x.value, M()) && x.value in old(M().CReach() + M().PReach())
    {
      var committed, pending := PeekCommitted(), PeekPending();
      ghost var m := M();
      PeekIsNearest(desc, m.committed, m.cBound, m.id);
      PeekIsNearest(desc, m.pending.Keys, m.pBound, m.id);
      hide Reach, Peek, Beyond, StartBound;
      match (committed, pending) {
        case (None, None) =>
          return None;
        case (Some(ckey), None) =>
          x := Some(ckey);
          PickIsNearest(m, ckey);
          committedPos := x;
        case (None, Some(pkey)) =>
          x := Some(pkey);
          PickIsNearest(m, pkey);
          pendingPos := x;
        case (Some(ckey), Some(pkey)) =>
          assert ckey.id == m.id && pkey.id == m.id by { InReach(m, ckey); InReach(m, pkey); }
          BeforeTotal(desc, ckey, pkey);
          if (!desc && PairLess(pkey, ckey)) || (desc && PairLess(ckey, pkey)) {
            x := Some(pkey);
            PickIsNearest(m, pkey);
            pendingPos := x;
          } else if (pkey.key, pkey.pkey) == (ckey.key, ckey.pkey) {
            assert pkey == ckey;
            x := Some(pkey);
            PickIsNearest(m, pkey);
            committedPos, pendingPos := x, x;
          } else {
            x := Some(ckey);
            PickIsNearest(m, ckey);
            committedPos := x;
          }
      }
    }
  
    /** A pending deletion of the examined key. */
    predicate Tombstoned(x: Key) {
      match kind
      case Store(store) => maps.Tombstone(RecKey(store, x.key))
      case Index(_, _, _) => x in maps.pendingIndex && !maps.pendingIndex[x]
    }

    /** Moves on to the next live entry within the range; every pass takes a key out of reach of a source. */
    method NextRow() returns (x: Option<Key>)
      requires M().Aligned() && !exhausted
      modifies this`committedPos, this`pendingPos
      ensures M().Aligned() && M() == old(M()).(cBound := M().cBound, pBound := M().pBound)
      ensures x.None? ==> old(M().Rows()) == {} && M().Rows() == {}
      ensures x.Some? ==> IsNearest(desc, old(M().Rows()), x.value) && M().Rows() == Without(old(M().Rows()), x.value)
      ensures x.Some? ==> M().Measure() < old(M().Measure())
    {
      hide IsNearest, Reach, Beyond;
      while true
        invariant M().Aligned() && M() == old(M()).(cBound := M().cBound, pBound := M().pBound)
        invariant M().Rows() == old(M().Rows()) && M().Measure() <= old(M().Measure())
        decreases M().Measure()
      {
        hide Examines, Merge.Aligned, Merge.Rows, Merge.Measure, StartBound, PastEnd, EncodedRange.Contains;
        ghost var m := M();
        x := Examine();
        if x.None? {
          return None;
        }
        ExamineStep(m, x.value, M());
        LiveEntry(m, x.value, this);
        assert x.value !in m.Rows() ==> Without(m.Rows(), x.value) == m.Rows();
        if Tombstoned(x.value) {
          continue;
        }
        if !range.Contains(x.value.key) {
          if PastEnd(desc, range, x.value.key) {
            assert M().Rows() == {};
            return None;
          }
          continue;
        }
        return x;
      }
    }

    /** The next entry of `left` is buffered and no longer owed. */
    ghost predicate Yielded(k: Key, left: set<Key>)
      reads this
    {
      IsNearest(desc, left, k) && Left() == Without(left, k) && current == Some(RowOf(maps, kind, keyOnly, k))
    }

    /** Advances a store cursor, buffering the next row. */
    method AdvanceStore() returns (ok: bool, ghost k: Key)
      requires Valid() && !exhausted && kind.Store?
      modifies this
      ensures Valid() && exhausted == !ok && (!ok ==> current == None && old(Left()) == {})
      ensures ok ==> Yielded(k, old(Left()))
    {
      hide Merge.Aligned, Merge.Rows, StartBound;
      var x := NextRow();
      if x.None? {
        exhausted, current := true, None;
        return false, Key(0, [], []);
      }
      var value := if keyOnly then None else maps.ReadMerged(RecKey(kind.store, x.value.key));
      current := Some(Row(x.value.key, x.value.key, value));
      return true, x.value;
    }
  
    /** The next row that does not repeat the group a unique walk yielded last; `m` is the walk before it. */
    method NextNewRow() returns (x: Option<Key>, ghost m: Merge)
      requires Valid() && !exhausted && kind.Index?
      modifies this`committedPos, this`pendingPos
      ensures m == old(M()).(cBound := m.cBound, pBound := m.pBound)
      ensures Yields(m, kind.unique, lastIndexKey) == old(Left()) && (kind.unique ==> LastBehind(desc, m.Rows(), lastIndexKey))
      ensures M() == m.(cBound := M().cBound, pBound := M().pBound) && M().Aligned()
      ensures x.None? ==> m.Rows() == {} && M().Rows() == {}
      ensures x.Some? ==> && IsNearest(desc, m.Rows(), x.value) && M().Rows() == Without(m.Rows(), x.value)
                          && (kind.unique ==> lastIndexKey != Some(x.value.key))
    {
      hide StartBound, EncodedRange.Contains, YieldsOf, Less;
      hide Merge.Aligned, Merge.Rows, Merge.All, Merge.Measure, LastBehind, Without, IsNearest;
      while true
        invariant Valid() && M() == old(M()).(cBound := M().cBound, pBound := M().pBound)
        invariant Left() == old(Left())
        decreases M().Measure()
      {
        m := M();
        x := NextRow();
        if x.None? {
          return;
        }
        if kind.unique && lastIndexKey == Some(x.value.key) {
          NearestIsIn(desc, m.Rows(), x.value);
          RepeatOnlyAscending(desc, m.Rows(), x.value, lastIndexKey);
          SkipStep(m.Rows(), x.value, lastIndexKey, m.All());
          SameScope(m, M());
          continue;
        }
        return;
      }
    }

    /** Advances an index cursor: one row per key group when the walk is unique. */
    method AdvanceIndex() returns (ok: bool, ghost k: Key)
      requires Valid() && !exhausted && kind.Index?
      modifies this
      ensures Valid() && exhausted == !ok && (!ok ==> current == None && old(Left()) == {})
      ensures ok ==> Yielded(k, old(Left()))
    {
      hide StartBound, EncodedRange.Contains, YieldsOf, Less;
      hide Merge.Aligned, Merge.Rows, Merge.All, Merge.Measure, LastBehind, Without, IsNearest, Least, Below;
      var unique := kind.unique;
      ghost var last := lastIndexKey;
      var x, m := NextNewRow();
      SameScope(m, M());
      if x.None? {
        NoYields(m, unique, lastIndexKey);
        NoYields(M(), unique, lastIndexKey);
        exhausted, current := true, None;
        return false, Key(0, [], []);
      }
      RowsScoped(m);
      if unique && desc {
        NearestIsIn(desc, m.Rows(), x.value);
        k := YieldUniqueDescGroup(m, x.value);
        JumpStep(m.id, m.Rows(), m.All(), x.value, k, last);
        SameScope(m, M());
        return true, k;
      }
      if unique {
        UniqueStep(m.id, m.Rows(), x.value, last, m.All());
        lastIndexKey := Some(x.value.key);
      } else {
        PlainYields(m, last);
        PlainYields(M(), last);
      }
      var value := if keyOnly then None else maps.ReadMerged(RecKey(kind.store, x.value.pkey));
      current := Some(Row(x.value.key, x.value.pkey, value));
      return true, x.value;
    }

    /** Buffers the least entry of the group of `x` and jumps both sources below the whole group. */
    method YieldUniqueDescGroup(ghost m: Merge, x: Key) returns (ghost min: Key)
      requires kind.Index? && kind.unique && desc && x in m.Rows()
      requires M() == m.(cBound := M().cBound, pBound := M().pBound)
      modifies this`committedPos, this`pendingPos, this`lastIndexKey, this`current
      ensures min in Least(m.All()) && min.key == x.key
      ensures current == Some(RowOf(maps, kind, keyOnly, min)) && lastIndexKey == Some(x.key)
      ensures M() == m.(cBound := M().cBound, pBound := M().pBound) && M().Aligned()
      ensures M().Rows() == Below(m.All(), min)
    {
      hide Merge.Aligned, StartBound;
      var minPkey := GroupMin(m, x);
      var jump := Key(kind.index, x.key, minPkey);
      min := jump;
      lastIndexKey := Some(x.key);
      committedPos, pendingPos := Some(jump), Some(jump);
      JumpRows(m, M(), min);
      var value := if keyOnly then None else maps.ReadMerged(RecKey(kind.store, minPkey));
      current := Some(Row(x.key, minPkey, value));
    }

    /** Smallest primary key of an index-key group, by a forward sub-seek across both sources. */
    method GroupMin(ghost m: Merge, x: Key) returns (minPkey: Blob)
      requires kind.Index? && x in m.Rows()
      requires M() == m.(cBound := M().cBound, pBound := M().pBound)
      ensures Key(kind.index, x.key, minPkey) in Least(m.All())
    {
      var snapshotMin := GroupFirst(maps.index, x.key);
      var pendingMin := GroupFirst(maps.pendingIndex.Keys, x.key);
      LiveInGroup(m, x, this);
      match (snapshotMin, pendingMin) {
        case (Some(c), Some(p)) =>
          BytesTotal(p.pkey, c.pkey);
          forall k ensures !Less(k, c) && !Less(c, p) ==> !Less(k, p)
                   ensures !Less(k, p) && !Less(p, c) ==> !Less(k, c) {
            if !Less(k, c) && !Less(c, p) { AtMostChain(p, c, k); }
            if !Less(k, p) && !Less(p, c) { AtMostChain(c, p, k); }
          }
          hide Less;
          if BytesLess(p.pkey, c.pkey) {
            LeastOfBoth(m, x, p, this);
            minPkey := p.pkey;
          } else {
            LeastOfBoth(m, x, c, this);
            minPkey := c.pkey;
          }
        case (Some(c), None) =>
          LeastOfBoth(m, x, c, this);
          minPkey := c.pkey;
        case (None, Some(p)) =>
          LeastOfBoth(m, x, p, this);
          minPkey := p.pkey;
      }
    }

    predicate InGroup(k: Key, idxKey: Blob)
      requires kind.Index?
    {
      k.id == kind.index && k.key == idxKey
    }

    /** The first entry of a key group in one source that carries no tombstone. */
    method GroupFirst(s: set<Key>, idxKey: Blob) returns (r: Option<Key>)
      requires kind.Index?
      ensures r.Some? ==> r.value in s && InGroup(r.value, idxKey) && !Tombstoned(r.value)
      ensures forall k | k in s && InGroup(k, idxKey) && !Tombstoned(k) :: r.Some? && !Less(k, r.value)
    {
      hide Less, Beyond, InOrder, Tombstoned, Sorted, Ahead;
      var start := Key(kind.index, idxKey, []);
      var entries := Sorted(false, Ahead(false, s, Included(start)));
      SortedLists(false, Ahead(false, s, Included(start)));
      for i := 0 to |entries|
        invariant forall j | 0 <= j < i :: Tombstoned(entries[j])
      {
        var key := entries[i];
        forall k | k in s && InGroup(k, idxKey) && !Tombstoned(k)
          ensures InGroup(key, idxKey) && !Less(k, key) {
          var j := EntryOf(start, s, entries, k);
          FirstInGroup(start, s, entries, i, j);
        }
        if !InGroup(key, idxKey) {
          return None;
        }
        if Tombstoned(key) {
          continue;
        }
        IsEntry(start, s, entries, i);
        return Some(key);
      }
      forall k | k in s && InGroup(k, idxKey) ensures Tombstoned(k) {
        var j := EntryOf(start, s, entries, k);
      }
      return None;
    }
  
    method Advance() returns (ok: bool)
      requires Valid() && !exhausted
      modifies this
      ensures Valid() && exhausted == !ok
      ensures ok == (old(Remaining()) != [])
      ensures ok ==> Shows(old(Remaining())[0]) && Remaining() == old(Remaining())[1..]
      ensures !ok ==> current == None
    {
      hide Valid, Left, RowOf, IsNearest, Without, StartBound;
      ghost var k: Key;
      match kind {
        case Store(_) => ok, k := AdvanceStore();
        case Index(_, _, _) => ok, k := AdvanceIndex();
      }
      if ok {
        SortedHead(desc, old(Left()), k);
      }
    }

    /** The buffered row is the one of entry `k`. */
    ghost predicate Shows(k: Key)
      reads this
    {
      !exhausted && current == Some(RowOf(maps, kind, keyOnly, k))
    }

    /** What a walk positioned at `target` yields, in order. */
    ghost function WalkFrom(target: CursorSeek): seq<Key> {
      Sorted(desc, Yields(StartOf(maps, kind, desc, range, target), Unique(), None))
    }

    /** An entry at or past a key. */
    predicate AtTarget(key: Blob, k: Key) {
      k in Entries(maps, kind, range) && if desc then !BytesLess(key, k.key) else !BytesLess(k.key, key)
    }

    predicate AnyAt(key: Blob) {
      exists k :: k in Entries(maps, kind, range) && AtTarget(key, k)
    }

    /** The nearest entry at or past a key. */
    predicate FirstAt(key: Blob, k: Key) {
      AtTarget(key, k) && forall x | x in Entries(maps, kind, range) && AtTarget(key, x) :: AtOrBefore(desc, k, x)
    }

    /** Positions the cursor on the first row at the target; every earlier position is forgotten. */
    method Seek(target: CursorSeek) returns (ok: bool)
      modifies this
      ensures Valid() && exhausted == !ok
      ensures ok == (WalkFrom(target) != [])
      ensures ok ==> Shows(WalkFrom(target)[0]) && Remaining() == WalkFrom(target)[1..]
      ensures kind.Store? && !target.First? ==> ok == AnyAt(target.key) && (ok ==> FirstAt(target.key, WalkFrom(target)[0]))
    {
      SeekFindsRecord(this, target);
      hide AnyAt, FirstAt;
      committedPos, pendingPos, lastIndexKey := None, None, None;
      floor := Floor(kind, target);
      exhausted := false;
      StartsAligned(M());
      ok := Advance();
    }

    /** Steps `count` rows on; a step past the last row exhausts the cursor. */
    method Step(count: nat) returns (ok: bool)
      requires Valid()
      modifies this
      ensures Valid()
      ensures ok == (!old(exhausted) && count <= |old(Remaining())|)
      ensures ok ==> !exhausted && Remaining() == old(Remaining())[count..]
      ensures ok && count > 0 ==> Shows(old(Remaining())[count - 1])
      ensures ok && count == 0 ==> current == old(current)
      ensures !ok ==> exhausted
    {
      hide Valid, Left, Shows;
      if exhausted {
        return false;
      }
      ghost var start := Remaining();
      for i := 0 to count
        invariant Valid() && !exhausted && i <= |start| && Remaining() == start[i..]
        invariant i > 0 ==> Shows(start[i - 1])
        invariant i == 0 ==> current == old(current)
      {
        var more := Advance();
        if !more {
          return false;
        }
      }
      return true;
    }
  }

  /** The engine's way of reading a whole range: seek first, then single steps until there is no more. */
  method CollectRange(c: FsCursor) returns (rows: seq<Row>)
    modifies c
    ensures |rows| == |c.WalkFrom(First)|
    ensures forall i | 0 <= i < |rows| :: rows[i] == RowOf(c.maps, c.kind, c.keyOnly, c.WalkFrom(First)[i])
  {
    hide RowOf, FsCursor.Valid, FsCursor.WalkFrom, FsCursor.Left, FsCursor.Remaining, Sorted;
    rows := [];
    var active := c.Seek(First);
    ghost var all := c.WalkFrom(First);
    while active
      invariant active ==> c.Valid() && !c.exhausted
      invariant active ==> |rows| < |all| && c.Shows(all[|rows|]) && c.Remaining() == all[|rows| + 1..]
      invariant !active ==> |rows| == |all|
      invariant |rows| <= |all| && forall i | 0 <= i < |rows| :: rows[i] == RowOf(c.maps, c.kind, c.keyOnly, all[i])
      decreases |all| - |rows|, active
    {
      RestOf(all, |rows| + 1);
      rows := rows + [c.current.value];
      active := c.Step(1);
    }
  }

  lemma RestOf(all: seq<Key>, n: nat)
    requires n <= |all|
    ensures |all[n..]| == |all| - n
    ensures n < |all| ==> all[n..][0] == all[n] && all[n..][1..] == all[n + 1..]
  {
  }

  lemma IsEntry(start: Key, s: set<Key>, entries: seq<Key>, i: nat)
    requires i < |entries|
    requires forall x :: x in entries <==> x in Ahead(false, s, Included(start))
    ensures entries[i] in s && AtOrBefore(false, start, entries[i])
  {
    assert entries[i] in entries;
  }

  lemma EntryOf(start: Key, s: set<Key>, entries: seq<Key>, k: Key) returns (j: nat)
    requires start.pkey == [] && k in s && k.id == start.id && k.key == start.key
    requires forall x :: x in entries <==> x in Ahead(false, s, Included(start))
    ensures j < |entries| && entries[j] == k
  {
    GroupIsAhead(start, k);
    assert k in Ahead(false, s, Included(start));
    assert k in entries;
    j :| 0 <= j < |entries| && entries[j] == k;
  }

  /** In a listing from the bottom of a group, what comes before a member of the group is a member. */
  lemma FirstInGroup(start: Key, s: set<Key>, entries: seq<Key>, i: nat, j: nat)
    requires InOrder(false, entries) && i <= j < |entries|
    requires forall x :: x in entries <==> x in Ahead(false, s, Included(start))
    requires entries[j].id == start.id && entries[j].key == start.key
    ensures entries[i].id == start.id && entries[i].key == start.key && !Less(entries[j], entries[i])
  {
    hide InOrder, Ahead, Beyond, BytesLess;
    IsEntry(start, s, entries, i);
    if i < j { InOrderAt(false, entries, i, j); }
    BeforeTotal(false, entries[i], entries[j]);
    GroupIsContiguous(start, entries[i], entries[j]);
  }

  lemma AtMostChain(a: Key, b: Key, k: Key)
    requires !Less(b, a) && !Less(k, b)
    ensures !Less(k, a)
  {
    BeforeTotal(false, a, b);
    BeforeTotal(false, b, k);
    BeforeTotal(false, a, k);
    if Less(a, b) && Less(b, k) {
      BeforeTransitive(false, a, b, k);
    }
  }

  /** The empty primary key is the bottom of a group. */
  lemma GroupIsAhead(start: Key, k: Key)
    requires start.pkey == [] && k.id == start.id && k.key == start.key
    ensures Beyond(false, Included(start), k)
  {
    BytesTotal(start.pkey, k.pkey);
  }

  lemma GroupIsContiguous(start: Key, key: Key, k: Key)
    requires AtOrBefore(false, start, key) && AtOrBefore(false, key, k)
    requires k.id == start.id && k.key == start.key
    ensures key.id == start.id && key.key == start.key
  {
    BytesTotal(start.key, key.key);
    BytesTotal(key.key, k.key);
  }

  /** Inside one source, carrying no tombstone is being live. */
  lemma LiveInGroup(m: Merge, x: Key, c: FsCursor)
    requires c.kind.Index? && m == WalkOf(c.maps, c.kind, c.desc, c.range, m.cBound, m.pBound) && x in m.Rows()
    ensures (x in c.maps.index || x in c.maps.pendingIndex) && !c.Tombstoned(x) && c.InGroup(x, x.key)
  {
  }

  lemma LeastOfBoth(m: Merge, x: Key, min: Key, c: FsCursor)
    requires c.kind.Index? && m == WalkOf(c.maps, c.kind, c.desc, c.range, m.cBound, m.pBound) && x in m.Rows()
    requires min in c.maps.index + c.maps.pendingIndex.Keys && c.InGroup(min, x.key) && !c.Tombstoned(min)
    requires forall k | k in c.maps.index + c.maps.pendingIndex.Keys && c.InGroup(k, x.key) && !c.Tombstoned(k) :: !Less(k, min)
    ensures min in Least(m.All())
  {
    hide Less;
    assert m.Live(min) && m.range.Contains(min.key);
  }

  /** Below a jump, everything live in the scope is a row again. */
  lemma JumpRows(m: Merge, m': Merge, min: Key)
    requires m' == m.(cBound := Excluded(min), pBound := Excluded(min)) && m.desc && min.id == m.id
    ensures m'.Rows() == Below(m.All(), min)
    ensures m'.Aligned()
  {
    StartsAligned(m');
  }

  lemma NearestIsIn(desc: bool, s: set<Key>, k: Key)
    requires IsNearest(desc, s, k)
    ensures k in s
  {
  }

  lemma SameScope(m: Merge, m': Merge)
    requires m' == m.(cBound := m'.cBound, pBound := m'.pBound)
    ensures m'.All() == m.All()
  {
  }

  lemma RowsScoped(m: Merge)
    ensures m.Rows() <= m.All() && forall k | k in m.All() :: k.id == m.id
  {
  }

  lemma NoYields(m: Merge, unique: bool, last: Option<Blob>)
    requires m.Rows() == {}
    ensures Yields(m, unique, last) == {} && LastBehind(m.desc, m.Rows(), last)
  {
  }

  lemma PlainYields(m: Merge, last: Option<Blob>)
    ensures Yields(m, false, last) == m.Rows()
  {
  }

  /** A descending walk never meets the group it yielded last. */
  lemma RepeatOnlyAscending(desc: bool, rows: set<Key>, x: Key, last: Option<Blob>)
    requires x in rows && last == Some(x.key) && LastBehind(desc, rows, last)
    ensures !desc && LastBehind(desc, Without(rows, x), last)
  {
    BytesIrreflexive(x.key);
  }

  lemma LiveEntry(m: Merge, x: Key, c: FsCursor)
    requires m == WalkOf(c.maps, c.kind, c.desc, c.range, m.cBound, m.pBound)
    requires x in m.CReach() + m.PReach()
    ensures m.Live(x) <==> !c.Tombstoned(x)
  {
    if c.kind.Store? {
      LiveRecord(m, x, c.maps);
    }
  }

  /** An examined record key is live exactly when it carries no tombstone. */
  lemma LiveRecord(m: Merge, x: Key, maps: CursorMaps)
    requires m.committed == maps.records.Keys && m.pending == SlotLive(maps.pendingRecords)
    requires x in m.CReach() + m.PReach()
    ensures x == RecKey(m.id, x.key)
    ensures m.Live(x) <==> !maps.Tombstone(RecKey(m.id, x.key))
  {
    if x in m.CReach() {
      assert x in maps.records;
    } else {
      assert x in maps.pendingRecords;
    }
  }

  lemma InReach(m: Merge, x: Key)
    requires x in m.CReach() || x in m.PReach()
    ensures x.id == m.id
  {
  }

  // ---------------------------------------------------------------- what a walk yields

  /** The entries of a source within a range: what any walk over it is about. */
  function Entries(maps: CursorMaps, kind: CursorKind, range: EncodedRange): set<Key> {
    WalkOf(maps, kind, false, range, Unbounded, Unbounded).All()
  }

  /** A source with a higher store or index id in it hides itself from an unbounded backward start. */
  predicate Hidden(kind: CursorKind, desc: bool, range: EncodedRange, s: set<Key>) {
    && desc
    && (match kind case Store(_) => range.upper.None? case Index(_, _, _) => range.upper.None? || !range.upper.value.open)
    && exists k :: k in s && ScopeOf(kind) < k.id
  }

  function ScopeOf(kind: CursorKind): u64 {
    match kind case Store(store) => store case Index(_, index, _) => index
  }

  lemma HiddenIsBlocked(kind: CursorKind, desc: bool, range: EncodedRange, s: set<Key>)
    ensures Blocked(desc, s, StartBound(kind, desc, range, None), ScopeOf(kind)) <==> Hidden(kind, desc, range, s)
  {
    var b := StartBound(kind, desc, range, None);
    if Hidden(kind, desc, range, s) {
      var k :| k in s && ScopeOf(kind) < k.id;
      assert Beyond(desc, b, k);
    }
  }

  /** Every entry within the range lies beyond the start of a walk over the whole range. */
  lemma FirstIsBefore(kind: CursorKind, desc: bool, range: EncodedRange, k: Key)
    requires k.id == ScopeOf(kind) && range.Contains(k.key) && (kind.Store? ==> k.pkey == [])
    ensures Beyond(desc, StartBound(kind, desc, range, None), k)
  {
    BytesTotal([], k.key);
    BytesTotal([], k.pkey);
  }

  /** Some source that is not hidden holds the entry. */
  predicate Visible(maps: CursorMaps, kind: CursorKind, desc: bool, range: EncodedRange, k: Key) {
    match kind
    case Store(_) => || (k in maps.records.Keys && !Hidden(kind, desc, range, maps.records.Keys))
                     || (k in maps.pendingRecords.Keys && !Hidden(kind, desc, range, maps.pendingRecords.Keys))
    case Index(_, _, _) => || (k in maps.index && !Hidden(kind, desc, range, maps.index))
                           || (k in maps.pendingIndex.Keys && !Hidden(kind, desc, range, maps.pendingIndex.Keys))
  }

  /** The rows of a walk over the whole range: the visible entries. */
  lemma FirstRows(maps: CursorMaps, kind: CursorKind, desc: bool, range: EncodedRange)
    ensures StartOf(maps, kind, desc, range, First).Rows() ==
            set k | k in Entries(maps, kind, range) && Visible(maps, kind, desc, range, k)
  {
    hide StartBound, Beyond, Hidden, Blocked, EncodedRange.Contains, Merge.Rows, Merge.All, SlotLive;
    var m := StartOf(maps, kind, desc, range, First);
    StartRows(maps, kind, desc, range, First);
    HiddenIsBlocked(kind, desc, range, m.committed);
    HiddenIsBlocked(kind, desc, range, m.pending.Keys);
    SlotKeys(maps.pendingRecords);
    forall k | k in Entries(maps, kind, range) ensures Beyond(desc, m.cBound, k) {
      EntryShape(maps, kind, range, k);
      FirstIsBefore(kind, desc, range, k);
    }
  }

  lemma SlotKeys(p: map<RecordKey, Option<Blob>>)
    ensures SlotLive(p).Keys == p.Keys
  {
  }

  /** The rows right after a seek: the entries beyond its bound, from sources that are not blocked there. */
  lemma StartRows(maps: CursorMaps, kind: CursorKind, desc: bool, range: EncodedRange, target: CursorSeek)
    ensures var m := StartOf(maps, kind, desc, range, target);
            m.Rows() == set k | k in Entries(maps, kind, range) && Beyond(desc, m.cBound, k) &&
                                ((k in m.committed && !Blocked(desc, m.committed, m.cBound, m.id))
                                 || (k in m.pending.Keys && !Blocked(desc, m.pending.Keys, m.cBound, m.id)))
  {
    hide StartBound, Beyond, Blocked, EncodedRange.Contains, SlotLive;
  }

  lemma EntryShape(maps: CursorMaps, kind: CursorKind, range: EncodedRange, k: Key)
    requires k in Entries(maps, kind, range)
    ensures k.id == ScopeOf(kind) && range.Contains(k.key) && (kind.Store? ==> k.pkey == [])
  {
    if kind.Store? && k !in maps.records {
      assert k in maps.pendingRecords;
    }
  }

  /** Exactly when a plain walk over the whole range delivers every entry of it. */
  lemma PlainWalkIsComplete(maps: CursorMaps, kind: CursorKind, desc: bool, range: EncodedRange)
    requires kind.Index? ==> !kind.unique
    ensures Yields(StartOf(maps, kind, desc, range, First), false, None) == Entries(maps, kind, range) <==>
            forall k | k in Entries(maps, kind, range) :: Visible(maps, kind, desc, range, k)
  {
    hide Visible, StartOf, Entries, Merge.Rows;
    FirstRows(maps, kind, desc, range);
  }

  /** Neither source hides: every forward walk, and every backward walk whose start is bounded or whose
      scope is the last one. */
  predicate Unhidden(maps: CursorMaps, kind: CursorKind, desc: bool, range: EncodedRange) {
    match kind
    case Store(_) => !Hidden(kind, desc, range, maps.records.Keys) && !Hidden(kind, desc, range, maps.pendingRecords.Keys)
    case Index(_, _, _) => !Hidden(kind, desc, range, maps.index) && !Hidden(kind, desc, range, maps.pendingIndex.Keys)
  }

  /** What every unhidden walk over the whole range yields: each entry, or the least one of each group. */
  lemma WalkYields(maps: CursorMaps, kind: CursorKind, desc: bool, range: EncodedRange)
    requires Unhidden(maps, kind, desc, range)
    ensures var m := StartOf(maps, kind, desc, range, First);
            Yields(m, kind.Index? && kind.unique, None) ==
            if kind.Index? && kind.unique then Least(Entries(maps, kind, range)) else Entries(maps, kind, range)
  {
    var m, all := StartOf(maps, kind, desc, range, First), Entries(maps, kind, range);
    FirstRows(maps, kind, desc, range);
    assert m.All() == all;
    assert m.Rows() == all by { hide StartBound, EncodedRange.Contains; }
    forall k | k in all ensures !BytesLess(k.key, k.key) {
      BytesIrreflexive(k.key);
    }
  }

  /** Forward walks see everything, whatever other stores and indexes hold. */
  lemma ForwardIsUnhidden(maps: CursorMaps, kind: CursorKind, range: EncodedRange)
    ensures Unhidden(maps, kind, false, range)
  {
  }

  /** A plain forward walk has one row for each entry of the range: what a count over it returns. */
  lemma ForwardWalkCounts(c: FsCursor)
    requires !c.desc && !c.Unique()
    ensures |c.WalkFrom(First)| == |Entries(c.maps, c.kind, c.range)|
  {
    hide StartOf, Entries, Unhidden, Yields, Least, Sorted;
    ForwardIsUnhidden(c.maps, c.kind, c.range);
    WalkYields(c.maps, c.kind, false, c.range);
  }

  /** Backward walks list what forward walks list, in reverse: plain or unique, always the same pairs. */
  lemma BackwardIsReverseOfForward(maps: CursorMaps, kind: CursorKind, range: EncodedRange, up: FsCursor, down: FsCursor)
    requires up.maps == maps && up.kind == kind && up.range == range && !up.desc
    requires down.maps == maps && down.kind == kind && down.range == range && down.desc
    requires Unhidden(maps, kind, true, range)
    ensures down.WalkFrom(First) == Reverse(up.WalkFrom(First))
  {
    hide StartOf, Entries, Unhidden, Yields, Least, Sorted;
    ForwardIsUnhidden(maps, kind, range);
    WalkYields(maps, kind, false, range);
    WalkYields(maps, kind, true, range);
    DescendingIsReverse(Yields(StartOf(maps, kind, false, range, First), kind.Index? && kind.unique, None));
  }

  /** Exactly when a backward unique walk delivers one row for every key group: some visible entry lies in
      or above each group. */
  lemma BackwardUniqueIsComplete(maps: CursorMaps, kind: CursorKind, range: EncodedRange)
    requires kind.Index? && kind.unique
    ensures Yields(StartOf(maps, kind, true, range, First), true, None) == Least(Entries(maps, kind, range)) <==>
            forall k | k in Least(Entries(maps, kind, range)) ::
              exists x :: x in Entries(maps, kind, range) && Visible(maps, kind, true, range, x) && !BytesLess(x.key, k.key)
  {
    var m := StartOf(maps, kind, true, range, First);
    assert m.All() == Entries(maps, kind, range);
    FirstRows(maps, kind, true, range);
    hide StartOf, Entries, Visible, Least, Merge.Rows, Merge.All, BytesLess;
    var y, least := Yields(m, true, None), Least(m.All());
    assert forall k :: k in y <==> k in least && exists x :: x in m.Rows() && !BytesLess(x.key, k.key);
  }

  /** A store with records behind it is invisible to an unbounded backward walk. */
  lemma HiddenStoreCounterexample()
    ensures var maps := CursorMaps(map[RecKey(1, [1]) := [7], RecKey(2, [1]) := [7]], {}, map[], map[]);
            var all := EncodedRange(None, None);
            && Entries(maps, Store(1), all) == {RecKey(1, [1])}
            && Yields(StartOf(maps, Store(1), true, all, First), false, None) == {}
  {
    var maps := CursorMaps(map[RecKey(1, [1]) := [7], RecKey(2, [1]) := [7]], {}, map[], map[]);
    var all := EncodedRange(None, None);
    FirstRows(maps, Store(1), true, all);
    assert RecKey(2, [1]) in maps.records.Keys && ScopeOf(Store(1)) < RecKey(2, [1]).id;
  }

  /** The rows of a walk from a floor: the entries at or past it, in pair order. */
  lemma FloorRows(maps: CursorMaps, kind: CursorKind, desc: bool, range: EncodedRange, target: CursorSeek)
    requires !target.First?
    ensures var f := Floor(kind, target).value;
            StartOf(maps, kind, desc, range, target).Rows() ==
            set k | k in Entries(maps, kind, range) && (if desc then !PairLess(f, k) else !PairLess(k, f))
  {
    hide StartBound, Beyond, Blocked, EncodedRange.Contains, PairLess, Merge.Rows, Floor, SlotLive;
    FloorShape(kind, target);
    var f, m := Floor(kind, target).value, StartOf(maps, kind, desc, range, target);
    StartRows(maps, kind, desc, range, target);
    FloorIsOpen(kind, desc, range, target, m.committed);
    FloorIsOpen(kind, desc, range, target, m.pending.Keys);
    forall k | k in Entries(maps, kind, range)
      ensures Beyond(desc, m.cBound, k) <==> (if desc then !PairLess(f, k) else !PairLess(k, f)) {
      EntryShape(maps, kind, range, k);
      SeekBound(kind, desc, range, f, k);
    }
  }

  lemma FloorShape(kind: CursorKind, target: CursorSeek)
    requires !target.First?
    ensures Floor(kind, target).Some? && Floor(kind, target).value.id == ScopeOf(kind)
    ensures kind.Store? ==> Floor(kind, target).value.pkey == []
  {
  }

  /** No source is blocked at a floor. */
  lemma FloorIsOpen(kind: CursorKind, desc: bool, range: EncodedRange, target: CursorSeek, s: set<Key>)
    requires !target.First?
    ensures !Blocked(desc, s, StartBound(kind, desc, range, Floor(kind, target)), ScopeOf(kind))
  {
    hide EncodedRange.Contains, BytesLess;
  }

  /** The rows of a walk from a seek target. In a store: the records at or past the key. In an index: the entries
      at or past the pair; and for a key alone, forward the entries at or past it, but backward only those before
      it and the one with an empty primary key. */
  lemma SeekRows(maps: CursorMaps, kind: CursorKind, desc: bool, range: EncodedRange, target: CursorSeek)
    requires !target.First?
    ensures kind.Store? ==>
              StartOf(maps, kind, desc, range, target).Rows() ==
              set k | k in Entries(maps, kind, range) && (if desc then !BytesLess(target.key, k.key) else !BytesLess(k.key, target.key))
    ensures kind.Index? && target.ToPair? ==>
              StartOf(maps, kind, desc, range, target).Rows() ==
              set k | k in Entries(maps, kind, range) &&
                      if k.key == target.key then (if desc then !BytesLess(target.pkey, k.pkey) else !BytesLess(k.pkey, target.pkey))
                      else BytesLess(k.key, target.key) == desc
    ensures kind.Index? && target.ToKey? ==>
              StartOf(maps, kind, desc, range, target).Rows() ==
              set k | k in Entries(maps, kind, range) &&
                      if k.key == target.key then !desc || k.pkey == [] else BytesLess(k.key, target.key) == desc
  {
    hide StartOf, Entries, Merge.Rows;
    FloorRows(maps, kind, desc, range, target);
    forall k | k in Entries(maps, kind, range) ensures kind.Store? ==> k.pkey == [] {
      EntryShape(maps, kind, range, k);
    }
    forall k: Key ensures BytesLess(k.key, target.key) || BytesLess(target.key, k.key) || k.key == target.key {
      BytesTotal(k.key, target.key);
    }
    forall k: Key ensures !(BytesLess(k.key, target.key) && BytesLess(target.key, k.key)) && !BytesLess(k.key, k.key) {
      BytesTotal(k.key, target.key);
      BytesIrreflexive(k.key);
    }
    forall k: Key ensures !BytesLess(k.pkey, []) && (BytesLess([], k.pkey) <==> k.pkey != []) {
      BytesTotal([], k.pkey);
    }
    hide BytesLess;
  }

  /** A walk from a key of a store starts at the nearest record at or past it. */
  lemma SeekFindsRecord(c: FsCursor, target: CursorSeek)
    ensures c.kind.Store? && !target.First? ==>
      (c.WalkFrom(target) != []) == c.AnyAt(target.key)
      && (c.WalkFrom(target) != [] ==> c.FirstAt(target.key, c.WalkFrom(target)[0]))
  {
    hide StartOf, Entries, Merge.Rows, Sorted, BytesLess, Before;
    if c.kind.Store? && !target.First? {
      var rows := StartOf(c.maps, c.kind, c.desc, c.range, target).Rows();
      SeekRows(c.maps, c.kind, c.desc, c.range, target);
      SortedLists(c.desc, rows);
      FirstIsNearest(c.desc, rows);
      if rows != {} {
        var k :| k in rows;
        assert c.AtTarget(target.key, k);
      }
      if c.AnyAt(target.key) {
        var k :| k in Entries(c.maps, c.kind, c.range) && c.AtTarget(target.key, k);
        assert k in rows;
      }
      assert rows == set k | k in Entries(c.maps, c.kind, c.range) && c.AtTarget(target.key, k);
      assert Yields(StartOf(c.maps, c.kind, c.desc, c.range, target), false, None) == rows;
    }
  }

  lemma FirstIsNearest(desc: bool, s: set<Key>)
    ensures Sorted(desc, s) == [] <==> s == {}
    ensures s != {} ==> IsNearest(desc, s, Sorted(desc, s)[0])
  {
  }

  /** What a walk over a source is about: the merged records of a store, or entries of an index, within the range. */
  lemma EntriesAre(maps: CursorMaps, kind: CursorKind, range: EncodedRange, k: Key)
    ensures kind.Store? ==>
              (k in Entries(maps, kind, range) <==>
                 k.pkey == [] && k.id == kind.store && range.Contains(k.key) && maps.ReadMerged(RecKey(kind.store, k.key)).Some?)
    ensures kind.Index? ==>
              (k in Entries(maps, kind, range) <==>
                 k.id == kind.index && range.Contains(k.key) && if k in maps.pendingIndex then maps.pendingIndex[k] else k in maps.index)
  {
    hide EncodedRange.Contains;
  }

  lemma SeekBound(kind: CursorKind, desc: bool, range: EncodedRange, f: Key, k: Key)
    requires k.id == f.id == ScopeOf(kind) && range.Contains(k.key) && (kind.Store? ==> k.pkey == [] && f.pkey == [])
    ensures Beyond(desc, StartBound(kind, desc, range, Some(f)), k) <==> (if desc then !PairLess(f, k) else !PairLess(k, f))
  {
    BeforeTotal(false, f, k);
    BytesTotal([], k.key);
    BytesTotal([], f.key);
    BytesTotal([], k.pkey);
    BytesTotal([], f.pkey);
    var low := if range.lower.Some? then Key(k.id, range.lower.value.key, []) else Key(k.id, [], []);
    BeforeTotal(false, low, f);
    BeforeTotal(false, low, k);
    if Less(f, low) && Less(low, k) { BeforeTransitive(false, f, low, k); }
    if range.upper.Some? {
      var high := Key(k.id, range.upper.value.key, []);
      BeforeTotal(false, high, f);
      BeforeTotal(false, high, k);
      if Less(k, high) && Less(high, f) { BeforeTransitive(false, k, high, f); }
    }
  }

  /** A backward seek to an index key leaves out the group it names, but for an empty primary key. */
  lemma BackwardIndexSeekSkipsGroup(maps: CursorMaps, kind: CursorKind, range: EncodedRange, key: Blob, k: Key)
    requires kind.Index? && k in Entries(maps, kind, range) && k.key == key
    ensures k in StartOf(maps, kind, true, range, ToKey(key)).Rows() <==> k.pkey == []
  {
    hide StartOf, Entries;
    FloorRows(maps, kind, true, range, ToKey(key));
    BytesTotal([], k.pkey);
    BytesIrreflexive(key);
  }

  /** One index entry, and a backward seek to its own key that does not find it. */
  lemma SkippedGroupExample()
    ensures var maps, all := CursorMaps(map[], {Key(2, [5], [7])}, map[], map[]), EncodedRange(None, None);
            && Entries(maps, Index(1, 2, false), all) == {Key(2, [5], [7])}
            && StartOf(maps, Index(1, 2, false), true, all, ToKey([5])).Rows() == {}
  {
    var maps, all := CursorMaps(map[], {Key(2, [5], [7])}, map[], map[]), EncodedRange(None, None);
    assert Entries(maps, Index(1, 2, false), all) == {Key(2, [5], [7])};
    SeekRows(maps, Index(1, 2, false), true, all, ToKey([5]));
    BackwardIndexSeekSkipsGroup(maps, Index(1, 2, false), all, [5], Key(2, [5], [7]));
  }
}
