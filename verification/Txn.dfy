/** The transaction object: pending changes, an undo log per open request, and a running key count. */
module Txn {
  import opened Bytes
  import opened Keys
  import opened Meta
  import opened State
  import opened Savepoints
  import opened Plain
  import opened Cursor
  import opened MergeWalk

  datatype Outcome<+T> = Done(value: T) | Refusal(error: TxnError)
  datatype Durability = Default | Strict | Relaxed

  class FsTxn {
    const mode: TxnMode
    const scope: seq<u64>
    const state: DbState
    const durability: Durability
    const maxKeys: u64

    var meta: DatabaseMeta
    var schemaDirty: bool
    var pendingRecords: Slots
    var pendingIndex: Flags
    var pendingKeyGens: map<u64, u64>
    /** One log per open request, and the key count's offset when it was opened. */
    var undoStack: seq<seq<UndoOp>>
    var keyDelta: int
    var keyDeltaStack: seq<int>
    /** The full view as it was when each open request began. */
    ghost var snaps: seq<View>

    constructor (mode: TxnMode, scope: seq<u64>, meta: DatabaseMeta, state: DbState, durability: Durability, maxKeys: u64)
      ensures Valid() && this.state == state && this.mode == mode && this.scope == scope && this.maxKeys == maxKeys
      ensures this.durability == durability && this.meta == meta && !schemaDirty
      ensures pendingRecords == map[] && pendingIndex == map[] && pendingKeyGens == map[] && snaps == []
    {
      this.mode, this.scope, this.state, this.durability, this.maxKeys := mode, scope, state, durability, maxKeys;
      this.meta, schemaDirty := meta, false;
      pendingRecords, pendingIndex, pendingKeyGens := map[], map[], map[];
      undoStack, keyDelta, keyDeltaStack, snaps := [], 0, [], [];
      new;
      assert EffectiveKeys(map[], state.records) == state.records.Keys;
    }

    ghost function Now(): View
      reads this, state
    {
      View(pendingRecords, pendingIndex, KeyGenView(pendingKeyGens, state.keyGens))
    }

    /** The model this transaction refines. */
    ghost function Abs(): Model
      reads this, state
    {
      Model(Now(), snaps)
    }

    function Ctx(): Context
      reads state
    {
      Context(mode, scope, maxKeys, state.Val())
    }

    /** Records, entries and generators as this transaction reads them. */
    ghost function Sees(): Plain
      reads this, state
    {
      ReadsAs(Ctx(), Now())
    }

    ghost predicate Valid()
      reads this, state
    {
      && Unwinds(undoStack, snaps, Now()) && LogsWithin(undoStack, pendingKeyGens.Keys)
      && keyDelta == Delta(pendingRecords, state.records)
      && |keyDeltaStack| == |snaps|
      && forall i | 0 <= i < |snaps| :: keyDeltaStack[i] == Delta(snaps[i].records, state.records)
    }

    /** The transaction's metadata is the database's until the schema is changed, and shows no key
        generator value but those of `stored`. */
    ghost predicate MetaSound(stored: set<u64>)
      reads this, state
    {
      (!schemaDirty ==> state.meta == Some(meta)) && Covered(meta, stored)
    }

    /** What every accepted or refused operation owes: the model's step, and a pending generator for exactly
        the stores that had one or were given one. */
    twostate predicate Stepped(op: Op)
      reads this, state
    {
      && Valid() && unchanged(this`meta, this`schemaDirty, state) && Abs() == Step(Ctx(), old(Abs()), op)
      && pendingKeyGens.Keys == old(pendingKeyGens.Keys) + StoresSet(Ctx(), [op])
    }

    function ErrorOf(op: Op): Option<TxnError>
      reads this, state
    {
      Check(Ctx(), |undoStack|, pendingRecords, pendingIndex, op)
    }

    lemma SeesRecord(k: RecordKey)
      ensures k in Sees().records <==> HasRecord(pendingRecords, state.records, k)
    {
      MergedHas(state.records, pendingRecords, state.index, pendingIndex);
    }

    /** What a data operation means to the transaction's reads. */
    twostate lemma ReadsAfter(op: Op)
      requires old(Valid()) && Stepped(op) && !op.Begin? && !op.CommitRequest? && !op.RollbackRequest?
      ensures old(ErrorOf(op)) == PlainCheck(Ctx(), old(|undoStack|), old(Sees()), op)
      ensures Sees() == if old(ErrorOf(op)).Some? then old(Sees()) else PlainEffect(old(Sees()), op)
    {
      hide ReadsAs, Step, Check, PlainCheck, PlainEffect, Unwinds, UndoAll, Delta, LogsWithin, KeyGenView, StoresSet;
      UnwindsLevels(old(undoStack), old(snaps), old(Now()));
      DataReads(Ctx(), old(Abs()), op);
    }

    // -------------------------------------------------------------- requests

    method BeginRequest()
      requires Valid()
      modifies this
      ensures Stepped(Begin)
    {
      hide Unwinds, UndoAll, Delta, Effect, KeyGenView, LogsWithin, StoresSet;
      NoStoreSet(Ctx(), Begin, pendingKeyGens.Keys);
      UnwindsLevels(undoStack, snaps, Now());
      LogsGrow(undoStack, pendingKeyGens.Keys, pendingKeyGens.Keys);
      undoStack := undoStack + [[]];
      keyDeltaStack := keyDeltaStack + [keyDelta];
      snaps := snaps + [Now()];
    }

    method CommitRequest() returns (r: Outcome<()>)
      requires Valid()
      modifies this
      ensures Stepped(Op.CommitRequest)
      ensures r == Verdict(old(ErrorOf(Op.CommitRequest)), ())
    {
      hide Unwinds, UndoAll, Delta, Effect, KeyGenView, LogsWithin, StoresSet, Step, Check;
      NoStoreSet(Ctx(), Op.CommitRequest, pendingKeyGens.Keys);
      CloseStep(Ctx(), Abs(), |undoStack|, pendingRecords, pendingIndex);
      UnwindsLevels(undoStack, snaps, Now());
      if |undoStack| == 0 {
        return Refusal(NoOpenRequest);
      }
      LogsClose(undoStack, pendingKeyGens.Keys);
      var n := |undoStack| - 1;
      var ops := undoStack[n];
      if n > 0 {
        UnwindsAfterMerge(undoStack, snaps, Now());
        undoStack := undoStack[..n - 1] + [undoStack[n - 1] + ops];
      } else {
        undoStack := [];
      }
      keyDeltaStack := keyDeltaStack[..n];
      snaps := snaps[..n];
      return Done(());
    }

    method RollbackRequest() returns (r: Outcome<()>)
      requires Valid()
      modifies this
      ensures Stepped(Op.RollbackRequest)
      ensures r == Verdict(old(ErrorOf(Op.RollbackRequest)), ())
    {
      hide Unwinds, UndoAll, Delta, Effect, KeyGenView, Undo, LogsWithin, OpsWithin, StoresSet, Step, Check;
      NoStoreSet(Ctx(), Op.RollbackRequest, pendingKeyGens.Keys);
      CloseStep(Ctx(), Abs(), |undoStack|, pendingRecords, pendingIndex);
      UnwindsLevels(undoStack, snaps, Now());
      if |undoStack| == 0 {
        return Refusal(NoOpenRequest);
      }
      LogsClose(undoStack, pendingKeyGens.Keys);
      var n := |undoStack| - 1;
      var ops := undoStack[n];
      undoStack, keyDelta := undoStack[..n], keyDeltaStack[n];
      keyDeltaStack, snaps := keyDeltaStack[..n], snaps[..n];
      Replay(ops);
      return Done(());
    }

    /** The rollback loop: the log is undone from its end. */
    method Replay(ops: seq<UndoOp>)
      requires OpsWithin(ops, pendingKeyGens.Keys)
      modifies this`pendingRecords, this`pendingIndex, this`pendingKeyGens
      ensures Now() == UndoAll(ops, old(Now())) && pendingKeyGens.Keys == old(pendingKeyGens.Keys)
    {
      hide UndoAll;
      var i := |ops|;
      assert ops[..i] == ops;
      while i > 0
        invariant 0 <= i <= |ops|
        invariant UndoAll(ops[..i], Now()) == UndoAll(ops, old(Now())) && pendingKeyGens.Keys == old(pendingKeyGens.Keys)
      {
        i := i - 1;
        UndoLast(ops, i, Now());
        ghost var before := Now();
        match ops[i] {
          case RestoreRecord(key, slot) => pendingRecords := RestoreSlot(pendingRecords, key, slot);
          case RestoreIndex(key, flag) => pendingIndex := RestoreFlag(pendingIndex, key, flag);
          case RestoreKeyGen(store, bits) => pendingKeyGens := pendingKeyGens[store := bits];
        }
        assert Now() == Undo(ops[i], before);
      }
      EmptyLog(ops, Now());
    }
  
    // -------------------------------------------------------------- logged writes

    /** Sets a record's slot, logging the old one at the innermost request and keeping the key count. */
    method WriteRecord(k: RecordKey, slot: Option<Blob>)
      requires Valid()
      modifies this`pendingRecords, this`undoStack, this`keyDelta
      ensures Valid() && |undoStack| == old(|undoStack|)
      ensures pendingRecords == old(pendingRecords)[k := slot]
    {
      hide Unwinds, UndoAll, Delta, KeyGenView, LogsWithin;
      var existed := HasRecord(pendingRecords, state.records, k);
      EffectiveAfterWrite(pendingRecords, state.records, k, slot);
      SlotRestores(pendingRecords, k, slot);
      LogUndo(RestoreRecord(k, SlotOf(pendingRecords, k)), Now().(records := pendingRecords[k := slot]), pendingKeyGens.Keys);
      pendingRecords := pendingRecords[k := slot];
      keyDelta := keyDelta + (if slot.Some? then 1 else 0) - (if existed then 1 else 0);
    }

    /** Drops a live record that only this transaction holds. */
    method RemoveRecord(k: RecordKey)
      requires Valid() && k in pendingRecords && pendingRecords[k].Some? && k !in state.records
      modifies this`pendingRecords, this`undoStack, this`keyDelta
      ensures Valid() && |undoStack| == old(|undoStack|)
      ensures pendingRecords == old(pendingRecords) - {k}
    {
      hide Unwinds, UndoAll, Delta, KeyGenView, LogsWithin;
      EffectiveAfterRemove(pendingRecords, state.records, k);
      SlotRestores(pendingRecords, k, None);
      LogUndo(RestoreRecord(k, SlotOf(pendingRecords, k)), Now().(records := pendingRecords - {k}), pendingKeyGens.Keys);
      pendingRecords := pendingRecords - {k};
      keyDelta := keyDelta - 1;
    }

    method WriteEntry(k: Key, flag: bool)
      requires Valid()
      modifies this`pendingIndex, this`undoStack
      ensures Valid() && |undoStack| == old(|undoStack|)
      ensures pendingIndex == old(pendingIndex)[k := flag]
    {
      hide Unwinds, UndoAll, Delta, KeyGenView, LogsWithin;
      FlagRestores(pendingIndex, k, flag);
      LogUndo(RestoreIndex(k, FlagOf(pendingIndex, k)), Now().(index := pendingIndex[k := flag]), pendingKeyGens.Keys);
      pendingIndex := pendingIndex[k := flag];
    }

    /** Pushes an undo operation that takes the coming view back to the present one. */
    method LogUndo(op: UndoOp, ghost after: View, ghost stores: set<u64>)
      requires Unwinds(undoStack, snaps, Now()) && Undo(op, after) == Now()
      requires LogsWithin(undoStack, stores) && (op.RestoreKeyGen? ==> op.store in stores)
      modifies this`undoStack
      ensures Unwinds(undoStack, snaps, after) && |undoStack| == old(|undoStack|) && LogsWithin(undoStack, stores)
    {
      hide UndoAll, Undo, KeyGenView, LogsWithin;
      if undoStack != [] {
        LogMore(undoStack, stores, op);
        UnwindsAfterLog(undoStack, snaps, Now(), op, after);
        var n := |undoStack| - 1;
        undoStack := undoStack[..n] + [undoStack[n] + [op]];
      }
    }

    // -------------------------------------------------------------- data operations

    function CheckScope(store: u64): Option<TxnError> {
      if mode.VersionChange? || store in scope then None else Some(NotInScope(store))
    }

    method Put(store: u64, key: Blob, value: Blob, noOverwrite: bool) returns (r: Outcome<()>)
      requires Valid()
      modifies this
      ensures Stepped(Op.Put(store, key, value, noOverwrite))
      ensures r == Verdict(old(ErrorOf(Op.Put(store, key, value, noOverwrite))), ())
      ensures var k, s := RecKey(store, key), old(Sees()).records;
              && r == (if !mode.VersionChange? && store !in scope then Refusal(NotInScope(store))
                       else if mode.ReadOnly? then Refusal(ReadOnlyTransaction)
                       else if k in s && noOverwrite then Refusal(ConstraintViolated)
                       else if k !in s && |s| + 1 > maxKeys then Refusal(QuotaExceeded(|s| + 1, maxKeys))
                       else Done(()))
              && Sees() == if r.Done? then old(Sees()).(records := s[k := value]) else old(Sees())
    {
      hide Sees, Unwinds, UndoAll, LogsWithin, KeyGenView, EffectiveKeys;
      if CheckScope(store).Some? {
        ReadsAfter(Op.Put(store, key, value, noOverwrite));
        return Refusal(CheckScope(store).value);
      }
      if mode.ReadOnly? {
        ReadsAfter(Op.Put(store, key, value, noOverwrite));
        return Refusal(ReadOnlyTransaction);
      }
      var k := RecKey(store, key);
      var existed := HasRecord(pendingRecords, state.records, k);
      if noOverwrite && existed {
        ReadsAfter(Op.Put(store, key, value, noOverwrite));
        return Refusal(ConstraintViolated);
      }
      if !existed {
        var projected := |state.records| + keyDelta + 1;
        if projected > maxKeys {
          ReadsAfter(Op.Put(store, key, value, noOverwrite));
          return Refusal(QuotaExceeded(projected, maxKeys));
        }
      }
      WriteRecord(k, Some(value));
      ReadsAfter(Op.Put(store, key, value, noOverwrite));
      return Done(());
    }

    method DeleteRecord(store: u64, key: Blob) returns (r: Outcome<bool>)
      requires Valid()
      modifies this
      ensures Stepped(Op.DeleteRecord(store, key))
      ensures r == Verdict(old(ErrorOf(Op.DeleteRecord(store, key))), old(HasRecord(pendingRecords, state.records, RecKey(store, key))))
      ensures var k, s := RecKey(store, key), old(Sees()).records;
              && r == (if !mode.VersionChange? && store !in scope then Refusal(NotInScope(store))
                       else if mode.ReadOnly? then Refusal(ReadOnlyTransaction)
                       else Done(k in s))
              && Sees() == if r.Done? then old(Sees()).(records := s - {k}) else old(Sees())
    {
      hide Sees, Unwinds, UndoAll, LogsWithin, KeyGenView, EffectiveKeys;
      if CheckScope(store).Some? {
        ReadsAfter(Op.DeleteRecord(store, key));
        return Refusal(CheckScope(store).value);
      }
      if mode.ReadOnly? {
        ReadsAfter(Op.DeleteRecord(store, key));
        return Refusal(ReadOnlyTransaction);
      }
      var k := RecKey(store, key);
      var existed := HasRecord(pendingRecords, state.records, k);
      SeesRecord(k);
      WriteRecord(k, None);
      ReadsAfter(Op.DeleteRecord(store, key));
      return Done(existed);
    }

    /** The effective records of a range. */
    ghost function LiveIn(store: u64, range: EncodedRange): set<RecordKey>
      reads this, state
    {
      KeysIn(EffectiveKeys(pendingRecords, state.records), store, range)
    }

    method DeleteRange(store: u64, range: EncodedRange) returns (r: Outcome<nat>)
      requires Valid()
      modifies this
      ensures Stepped(Op.DeleteRange(store, range))
      ensures r == Verdict(old(ErrorOf(Op.DeleteRange(store, range))), old(|LiveIn(store, range)|))
      ensures r == if !mode.VersionChange? && store !in scope then Refusal(NotInScope(store))
                   else if mode.ReadOnly? then Refusal(ReadOnlyTransaction)
                   else Done(|KeysIn(old(Sees()).records.Keys, store, range)|)
      ensures r.Done? ==> Sees() == old(Sees()).(records := old(Sees()).records - KeysIn(old(Sees()).records.Keys, store, range))
      ensures r.Refusal? ==> Sees() == old(Sees())
    {
      hide Unwinds, UndoAll, LogsWithin, KeyGenView, EffectiveKeys, Delta, RangeDeleted, StoresSet, Valid;
      hide KeysIn, EncodedRange.Contains, ReadsAs;
      NoStoreSet(Ctx(), Op.DeleteRange(store, range), pendingKeyGens.Keys);
      if CheckScope(store).Some? {
        return Refusal(CheckScope(store).value);
      }
      if mode.ReadOnly? {
        return Refusal(ReadOnlyTransaction);
      }
      RangeSees(Ctx(), Now(), store, range);
      var count := SweepRange(store, range);
      return Done(count);
    }

    /** Tombstones for the committed records of the range, removal of the ones only this transaction has. */
    method SweepRange(store: u64, range: EncodedRange) returns (count: nat)
      requires Valid()
      modifies this`pendingRecords, this`undoStack, this`keyDelta
      ensures Valid() && |undoStack| == old(|undoStack|)
      ensures pendingRecords == RangeDeleted(old(pendingRecords), state.records, store, range)
      ensures count == old(|LiveIn(store, range)|)
    {
      hide Unwinds, UndoAll, LogsWithin, KeyGenView, EffectiveKeys, Delta, Valid, Tombstoned, RangeDeleted, EncodedRange.Contains, HasRecord;
      hide PendingOnly, LiveAmong;
      ghost var p, c := pendingRecords, state.records;
      var keysInRange := KeysIn(state.records.Keys, store, range);
      var pendingKeys := KeysIn(pendingRecords.Keys, store, range);
      count := EntombAll(keysInRange);
      var more := RemovePendingOnly(pendingKeys, keysInRange, p);
      RangeDeletedInSteps(p, c, store, range);
      count := count + more;
    }

    /** Tombstones every key of a set, in any order; counts those that held a record. */
    method EntombAll(keys: set<RecordKey>) returns (count: nat)
      requires Valid()
      modifies this`pendingRecords, this`undoStack, this`keyDelta
      ensures Valid() && |undoStack| == old(|undoStack|)
      ensures pendingRecords == Tombstoned(old(pendingRecords), keys)
      ensures count == |LiveAmong(old(pendingRecords), state.records, keys)|
    {
      hide Unwinds, UndoAll, LogsWithin, KeyGenView, EffectiveKeys, Delta, HasRecord, Tombstoned, FsTxn.Valid;
      count := 0;
      var left := keys;
      ghost var done: set<RecordKey> := {};
      ghost var p, c := pendingRecords, state.records;
      ghost var live: set<RecordKey> := {};
      NoTombstones(p);
      while left != {}
        invariant Valid() && |undoStack| == old(|undoStack|)
        invariant left <= keys && done == keys - left && pendingRecords == Tombstoned(p, done)
        invariant live == LiveAmong(p, c, done) && count == |live|
        decreases left
      {
        var k :| k in left;
        TombstoneOne(p, c, done, k);
        var before := HasRecord(pendingRecords, state.records, k);
        if before {
          count := count + 1;
        }
        WriteRecord(k, None);
        left, done := left - {k}, done + {k};
        live := if before then live + {k} else live;
      }
      assert done == keys;
    }

    /** Removes the live records among `keys` that are not committed; `p` is the map before the sweep. */
    method RemovePendingOnly(keys: set<RecordKey>, committedKeys: set<RecordKey>, ghost p: Slots) returns (count: nat)
      requires Valid() && keys <= p.Keys
      requires forall k | k in keys && k !in committedKeys :: k !in state.records
      requires pendingRecords == Tombstoned(p, committedKeys)
      modifies this`pendingRecords, this`undoStack, this`keyDelta
      ensures Valid() && |undoStack| == old(|undoStack|)
      ensures pendingRecords == Tombstoned(p, committedKeys) - PendingOnly(p, keys, committedKeys)
      ensures count == |PendingOnly(p, keys, committedKeys)|
    {
      hide Unwinds, UndoAll, LogsWithin, KeyGenView, EffectiveKeys, Delta, FsTxn.Valid;
      count := 0;
      var left := keys;
      ghost var gone: set<RecordKey> := {};
      while left != {}
        invariant Valid() && |undoStack| == old(|undoStack|)
        invariant left <= keys && gone == PendingOnly(p, keys - left, committedKeys)
        invariant pendingRecords == Tombstoned(p, committedKeys) - gone && count == |gone|
        decreases left
      {
        var k :| k in left;
        left := left - {k};
        if k in committedKeys {
          continue;
        }
        if k in pendingRecords && pendingRecords[k].Some? {
          RemoveRecord(k);
          gone := gone + {k};
          count := count + 1;
        }
      }
      assert keys - left == keys;
    }

    method Clear(store: u64) returns (r: Outcome<()>)
      requires Valid()
      modifies this
      ensures Stepped(Op.Clear(store))
      ensures r == Verdict(old(ErrorOf(Op.Clear(store))), ())
      ensures var s := old(Sees()).records;
              && r == (if !mode.VersionChange? && store !in scope then Refusal(NotInScope(store))
                       else if mode.ReadOnly? then Refusal(ReadOnlyTransaction)
                       else Done(()))
              && Sees() == if r.Done? then old(Sees()).(records := map k | k in s && k.id != store :: s[k]) else old(Sees())
    {
      hide Sees, Unwinds, UndoAll, LogsWithin, KeyGenView, EffectiveKeys, Delta;
      if CheckScope(store).Some? {
        ReadsAfter(Op.Clear(store));
        return Refusal(CheckScope(store).value);
      }
      if mode.ReadOnly? {
        ReadsAfter(Op.Clear(store));
        return Refusal(ReadOnlyTransaction);
      }
      var keys := set k | k in pendingRecords.Keys + state.records.Keys && k.id == store;
      ClearedInSteps(pendingRecords, state.records, store, keys);
      var _ := EntombAll(keys);
      ReadsAfter(Op.Clear(store));
      return Done(());
    }

    function KeyGenCurrent(store: u64): u64
      reads this, state
    {
      if store in pendingKeyGens then pendingKeyGens[store]
      else if store in state.keyGens then state.keyGens[store] else KEY_GEN_START
    }

    method KeyGenSet(store: u64, bits: u64) returns (r: Outcome<()>)
      requires Valid()
      modifies this
      ensures Stepped(Op.KeyGenSet(store, bits))
      ensures r == Verdict(old(ErrorOf(Op.KeyGenSet(store, bits))), ())
      ensures r == if mode.ReadOnly? then Refusal(ReadOnlyTransaction) else Done(())
      ensures Sees() == if r.Done? then old(Sees()).(keyGens := old(Sees()).keyGens[store := bits]) else old(Sees())
    {
      hide Sees, Unwinds, UndoAll, EffectiveKeys, Delta, LogsWithin, StoresSet;
      NothingMayBeSet(Ctx(), Op.KeyGenSet(store, bits), pendingKeyGens.Keys);
      if mode.ReadOnly? {
        ReadsAfter(Op.KeyGenSet(store, bits));
        return Refusal(ReadOnlyTransaction);
      }
      KeyGenViewSet(pendingKeyGens, state.keyGens, store, bits);
      ghost var after := Now().(keyGens := KeyGenView(pendingKeyGens[store := bits], state.keyGens));
      hide KeyGenView;
      LoneStoreSet(Ctx(), store, bits);
      LogsGrow(undoStack, pendingKeyGens.Keys, pendingKeyGens.Keys + {store});
      LogUndo(RestoreKeyGen(store, KeyGenCurrent(store)), after, pendingKeyGens.Keys + {store});
      pendingKeyGens := pendingKeyGens[store := bits];
      assert pendingKeyGens.Keys == old(pendingKeyGens.Keys) + {store};
      ReadsAfter(Op.KeyGenSet(store, bits));
      return Done(());
    }

    // -------------------------------------------------------------- index entries

    /** The primary keys of the live entries under an index key; only membership matters to the caller. */
    method FindIndexEntries(index: u64, idxKey: Blob) returns (found: seq<Blob>)
      ensures forall pk: Blob :: pk in found <==> HasEntry(pendingIndex, state.index, Key(index, idxKey, pk))
    {
      found := [];
      var left := state.index;
      while left != {}
        invariant left <= state.index
        invariant forall pk: Blob :: pk in found <==>
          var e := Key(index, idxKey, pk); e in state.index && e !in left && HasEntry(pendingIndex, state.index, e)
        decreases left
      {
        var k :| k in left;
        left := left - {k};
        if k.id == index && k.key == idxKey && (k in pendingIndex ==> pendingIndex[k]) {
          found := found + [k.pkey];
        }
      }
      left := pendingIndex.Keys;
      while left != {}
        invariant left <= pendingIndex.Keys
        invariant forall pk: Blob :: pk in found <==>
          var e := Key(index, idxKey, pk);
          HasEntry(pendingIndex, state.index, e) && (e in state.index || e !in left)
        decreases left
      {
        var k :| k in left;
        left := left - {k};
        if k.id == index && k.key == idxKey && pendingIndex[k] && k.pkey !in found {
          found := found + [k.pkey];
        }
      }
    }

    /** The index keys under which a primary key is live. */
    method FindIndexEntriesByPrimary(index: u64, pkey: Blob) returns (found: seq<Blob>)
      ensures forall ik: Blob :: ik in found <==> HasEntry(pendingIndex, state.index, Key(index, ik, pkey))
    {
      found := [];
      var left := state.index;
      while left != {}
        invariant left <= state.index
        invariant forall ik: Blob :: ik in found <==>
          var e := Key(index, ik, pkey); e in state.index && e !in left && HasEntry(pendingIndex, state.index, e)
        decreases left
      {
        var k :| k in left;
        left := left - {k};
        if k.id == index && k.pkey == pkey && (k in pendingIndex ==> pendingIndex[k]) {
          found := found + [k.key];
        }
      }
      left := pendingIndex.Keys;
      while left != {}
        invariant left <= pendingIndex.Keys
        invariant forall ik: Blob :: ik in found <==>
          var e := Key(index, ik, pkey);
          HasEntry(pendingIndex, state.index, e) && (e in state.index || e !in left)
        decreases left
      {
        var k :| k in left;
        left := left - {k};
        if k.id == index && k.pkey == pkey && pendingIndex[k] && k.key !in found {
          found := found + [k.key];
        }
      }
    }

    method IndexPut(index: u64, idxKey: Blob, pkey: Blob, unique: bool) returns (r: Outcome<()>)
      requires Valid()
      modifies this
      ensures Stepped(Op.IndexPut(index, idxKey, pkey, unique))
      ensures r == Verdict(old(ErrorOf(Op.IndexPut(index, idxKey, pkey, unique))), ())
      ensures var e, s := Key(index, idxKey, pkey), old(Sees()).index;
              && r == (if mode.ReadOnly? then Refusal(ReadOnlyTransaction)
                       else if unique && e !in s && exists k :: k in s && k.id == index && k.key == idxKey then Refusal(ConstraintViolated)
                       else Done(()))
              && Sees() == if r.Done? then old(Sees()).(index := s + {e}) else old(Sees())
    {
      hide Sees, Unwinds, UndoAll, LogsWithin, KeyGenView, EffectiveKeys, Delta;
      if mode.ReadOnly? {
        ReadsAfter(Op.IndexPut(index, idxKey, pkey, unique));
        return Refusal(ReadOnlyTransaction);
      }
      var k := Key(index, idxKey, pkey);
      var existed := HasEntry(pendingIndex, state.index, k);
      if unique && !existed {
        var existing := FindIndexEntries(index, idxKey);
        TakenMeans(pendingIndex, state.index, k, existing);
        if existing != [] {
          ReadsAfter(Op.IndexPut(index, idxKey, pkey, unique));
          return Refusal(ConstraintViolated);
        }
      }
      WriteEntry(k, true);
      ReadsAfter(Op.IndexPut(index, idxKey, pkey, unique));
      return Done(());
    }

    method IndexDelete(index: u64, idxKey: Blob, pkey: Blob) returns (r: Outcome<()>)
      requires Valid()
      modifies this
      ensures Stepped(Op.IndexDelete(index, idxKey, pkey))
      ensures r == Verdict(old(ErrorOf(Op.IndexDelete(index, idxKey, pkey))), ())
      ensures r == if mode.ReadOnly? then Refusal(ReadOnlyTransaction) else Done(())
      ensures Sees() == if r.Done? then old(Sees()).(index := old(Sees()).index - {Key(index, idxKey, pkey)}) else old(Sees())
    {
      hide Sees, Unwinds, UndoAll, LogsWithin, KeyGenView, EffectiveKeys, Delta;
      if mode.ReadOnly? {
        ReadsAfter(Op.IndexDelete(index, idxKey, pkey));
        return Refusal(ReadOnlyTransaction);
      }
      WriteEntry(Key(index, idxKey, pkey), false);
      ReadsAfter(Op.IndexDelete(index, idxKey, pkey));
      return Done(());
    }

    method IndexDeleteByPrimary(index: u64, pkey: Blob) returns (r: Outcome<()>)
      requires Valid()
      modifies this
      ensures Stepped(Op.IndexDeleteByPrimary(index, pkey))
      ensures r == Verdict(old(ErrorOf(Op.IndexDeleteByPrimary(index, pkey))), ())
      ensures r == if mode.ReadOnly? then Refusal(ReadOnlyTransaction) else Done(())
      ensures Sees() == if r.Done? then old(Sees()).(index := set k | k in old(Sees()).index && !(k.id == index && k.pkey == pkey))
                         else old(Sees())
    {
      hide Sees, Unwinds, UndoAll, LogsWithin, KeyGenView, EffectiveKeys, Delta, StoresSet, Valid, PrimaryDeleted;
      NoStoreSet(Ctx(), Op.IndexDeleteByPrimary(index, pkey), pendingKeyGens.Keys);
      if mode.ReadOnly? {
        ReadsAfter(Op.IndexDeleteByPrimary(index, pkey));
        return Refusal(ReadOnlyTransaction);
      }
      UnflagPrimary(index, pkey);
      ReadsAfter(Op.IndexDeleteByPrimary(index, pkey));
      return Done(());
    }

    /** Marks every live entry of a primary key deleted. */
    method UnflagPrimary(index: u64, pkey: Blob)
      requires Valid()
      modifies this`pendingIndex, this`undoStack
      ensures Valid() && |undoStack| == old(|undoStack|)
      ensures pendingIndex == PrimaryDeleted(old(pendingIndex), state.index, index, pkey)
    {
      hide Unwinds, UndoAll, LogsWithin, KeyGenView, EffectiveKeys, Delta, PrimaryDeleted, Unflagged, Valid;
      var idxKeys := FindIndexEntriesByPrimary(index, pkey);
      ghost var p := pendingIndex;
      UnflagNone(p, index, pkey, idxKeys);
      for i := 0 to |idxKeys|
        invariant Valid() && |undoStack| == old(|undoStack|)
        invariant pendingIndex == Unflagged(p, index, pkey, idxKeys[..i])
      {
        UnflagOne(p, index, pkey, idxKeys, i);
        WriteEntry(Key(index, idxKeys[i], pkey), false);
      }
      assert idxKeys[..|idxKeys|] == idxKeys;
      PrimaryDeletedInSteps(p, state.index, index, pkey, idxKeys);
    }

    // -------------------------------------------------------------- reads

    /** The maps a cursor opened now reads. */
    function Maps(): CursorMaps
      reads this, state
    {
      CursorMaps(state.records, state.index, pendingRecords, pendingIndex)
    }

    /** Reads the records as they would be after a commit, which is what a cursor shows. */
    method Get(store: u64, key: Blob) returns (r: Outcome<Option<Blob>>)
      ensures CheckScope(store).Some? ==> r == Refusal(CheckScope(store).value)
      ensures CheckScope(store).None? ==>
                var k, merged := RecKey(store, key), MergedRecords(state.records, pendingRecords);
                r == Done(if k in merged then Some(merged[k]) else None) && r == Done(Maps().ReadMerged(k))
    {
      if CheckScope(store).Some? {
        return Refusal(CheckScope(store).value);
      }
      var k := RecKey(store, key);
      return Done(if k in pendingRecords then pendingRecords[k]
                  else if k in state.records then Some(state.records[k]) else None);
    }

    /** The number of rows a walk over the same source and range has. */
    method Count(kind: CursorKind, range: EncodedRange) returns (r: Outcome<nat>)
      requires kind.Index? ==> !kind.unique
      ensures r == if CheckScope(kind.store).Some? then Refusal(CheckScope(kind.store).value) else Done(|Entries(Maps(), kind, range)|)
    {
      if CheckScope(kind.store).Some? {
        return Refusal(CheckScope(kind.store).value);
      }
      var count := CountLive(WalkOf(Maps(), kind, false, range, Unbounded, Unbounded));
      return Done(count);
    }

    // -------------------------------------------------------------- schema changes

    method SetVersion(version: u64) returns (ok: bool)
      requires Valid()
      modifies this`meta, this`schemaDirty
      ensures Valid() && (forall stored: set<u64> | old(MetaSound(stored)) :: MetaSound(stored))
      ensures ok == mode.VersionChange?
      ensures !ok ==> meta == old(meta) && schemaDirty == old(schemaDirty)
      ensures ok ==> schemaDirty && meta == old(meta).(version := version)
    {
      if !mode.VersionChange? {
        return false;
      }
      meta, schemaDirty := meta.(version := version), true;
      return true;
    }

    /** Adds a store under the next id; the counter wraps as unchecked 64-bit arithmetic does. */
    method CreateStore(name: Utf16, keyPath: KeyPath, autoIncrement: bool) returns (id: Option<u64>)
      requires Valid()
      modifies this`meta, this`schemaDirty
      ensures Valid() && (forall stored: set<u64> | old(MetaSound(stored)) :: MetaSound(stored))
      ensures id.Some? == mode.VersionChange?
      ensures id.None? ==> meta == old(meta) && schemaDirty == old(schemaDirty)
      ensures id.Some? ==>
        && schemaDirty && id.value == old(meta.nextStoreId) && meta.nextStoreId == (if id.value == U64_MAX then 0 else id.value + 1)
        && meta.stores == old(meta.stores) + [StoreMeta(id.value, name, keyPath, autoIncrement, KEY_GEN_START, [], false)]
        && meta.name == old(meta.name) && meta.version == old(meta.version) && meta.nextIndexId == old(meta.nextIndexId)
    {
      hide Unwinds, UndoAll, Delta, LogsWithin, KeyGenView;
      if !mode.VersionChange? {
        return None;
      }
      id := Some(meta.nextStoreId);
      var store := StoreMeta(meta.nextStoreId, name, keyPath, autoIncrement, KEY_GEN_START, [], false);
      meta := meta.(nextStoreId := (meta.nextStoreId + 1) % U64_LIMIT, stores := meta.stores + [store]);
      schemaDirty := true;
    }

    // -------------------------------------------------------------- scripts

    /** Performs one operation, discarding what it returns. */
    method Perform(op: Op)
      requires Valid()
      modifies this
      ensures Stepped(op)
    {
      match op
      case Begin => BeginRequest();
      case CommitRequest => var _ := CommitRequest();
      case RollbackRequest => var _ := RollbackRequest();
      case Put(store, key, value, noOverwrite) => var _ := Put(store, key, value, noOverwrite);
      case DeleteRecord(store, key) => var _ := DeleteRecord(store, key);
      case DeleteRange(store, range) => var _ := DeleteRange(store, range);
      case Clear(store) => var _ := Clear(store);
      case KeyGenSet(store, bits) => var _ := KeyGenSet(store, bits);
      case IndexPut(index, ik, pk, unique) => var _ := IndexPut(index, ik, pk, unique);
      case IndexDelete(index, ik, pk) => var _ := IndexDelete(index, ik, pk);
      case IndexDeleteByPrimary(index, pk) => var _ := IndexDeleteByPrimary(index, pk);
    }

    /** The undo log refines the snapshot stack: any script of operations, in any order, leaves this object
        standing for what the model says, operation by operation. */
    method RunScript(ops: seq<Op>)
      requires Valid()
      modifies this
      ensures Valid() && meta == old(meta) && schemaDirty == old(schemaDirty) && unchanged(state)
      ensures forall stored: set<u64> | old(MetaSound(stored)) :: MetaSound(stored)
      ensures Abs() == Run(Ctx(), old(Abs()), ops)
      ensures pendingKeyGens.Keys == old(pendingKeyGens.Keys) + StoresSet(Ctx(), ops)
    {
      hide Valid, Abs, Run, Step, StoresSet;
      NoStoresSet(Ctx());
      assert ops[..0] == [];
      RunEnd(Ctx(), Abs());
      for i := 0 to |ops|
        invariant Valid() && meta == old(meta) && schemaDirty == old(schemaDirty) && unchanged(state)
        invariant Abs() == Run(Ctx(), old(Abs()), ops[..i])
        invariant pendingKeyGens.Keys == old(pendingKeyGens.Keys) + StoresSet(Ctx(), ops[..i])
      {
        StoresSetSnoc(Ctx(), ops, i);
        RunSnoc(Ctx(), old(Abs()), ops, i);
        Perform(ops[i]);
      }
      assert ops[..|ops|] == ops;
    }

    /** A request that is rolled back leaves pending records and entries exactly, the key count, and the
        generators as they read, the way they were, whatever it did and however many inner requests it
        committed. Pending generators it leaves only when every store it set one for had one before: the others
        now have their old reading as a pending value. */
    method AbandonRequest(ops: seq<Op>)
      requires Valid() && WellNested(ops, 0)
      modifies this
      ensures Valid() && Abs() == old(Abs()) && meta == old(meta) && schemaDirty == old(schemaDirty) && unchanged(state)
      ensures forall stored: set<u64> | old(MetaSound(stored)) :: MetaSound(stored)
      ensures pendingRecords == old(pendingRecords) && pendingIndex == old(pendingIndex) && keyDelta == old(keyDelta)
      ensures forall s: u64 :: KeyGenCurrent(s) == old(KeyGenCurrent(s))
      ensures pendingKeyGens == old(pendingKeyGens) + map s | s in StoresSet(Ctx(), ops) :: old(KeyGenCurrent(s))
      ensures pendingKeyGens == old(pendingKeyGens) <==>
              mode.ReadOnly? || forall op | op in ops && op.KeyGenSet? :: op.store in old(pendingKeyGens)
    {
      hide Run, Unwinds, Delta, UndoAll, LogsWithin;
      ghost var keyGens, before := Now().keyGens, pendingKeyGens;
      var script := [Begin] + ops + [Op.RollbackRequest];
      RunScript(script);
      RollbackRestores(Ctx(), old(Abs()), ops);
      forall s: u64 ensures KeyGenCurrent(s) == old(KeyGenCurrent(s)) {
        assert Now().keyGens[s] == keyGens[s];
      }
      assert StoresSet(Ctx(), script) == StoresSet(Ctx(), ops);
      forall s | s in pendingKeyGens ensures pendingKeyGens[s] == old(KeyGenCurrent(s)) {
        assert KeyGenCurrent(s) == pendingKeyGens[s];
      }
      forall op | op in ops && op.KeyGenSet? ensures !mode.ReadOnly? ==> op.store in StoresSet(Ctx(), ops) {
      }
    }
  }

  /** Counts committed entries the overlay keeps, then entries only the overlay has. */
  method CountLive(m: Merge) returns (count: nat)
    ensures count == |m.All()|
  {
    hide AmongAll, AmongCommitted, Merge.All;
    CountedEnds(m);
    count := CountKept(m);
    var more := CountAdded(m, count);
    count := count + more;
  }

  method CountKept(m: Merge) returns (count: nat)
    ensures count == |AmongCommitted(m, {})|
  {
    hide EncodedRange.Contains, AmongCommitted, Merge.All;
    CountedEnds(m);
    count := 0;
    var left := m.committed;
    ghost var counted: set<Key> := {};
    while left != {}
      invariant left <= m.committed && count == |counted|
      invariant counted == AmongCommitted(m, left)
      decreases left
    {
      var k :| k in left;
      CountedOne(m, left, k);
      left := left - {k};
      if k.id == m.id && m.range.Contains(k.key) && (k in m.pending ==> m.pending[k]) {
        counted, count := counted + {k}, count + 1;
      }
    }
  }

  method CountAdded(m: Merge, ghost kept: nat) returns (count: nat)
    requires kept == |AmongAll(m, m.pending.Keys)|
    ensures kept + count == |AmongAll(m, {})|
  {
    hide EncodedRange.Contains, AmongAll, Merge.All;
    count := 0;
    var left := m.pending.Keys;
    ghost var counted := AmongAll(m, left);
    while left != {}
      invariant left <= m.pending.Keys && kept + count == |counted|
      invariant counted == AmongAll(m, left)
      decreases left
    {
      var k :| k in left;
      CountedOneMore(m, left, k);
      left := left - {k};
      if k.id == m.id && m.pending[k] && m.range.Contains(k.key) && k !in m.committed {
        counted, count := counted + {k}, count + 1;
      }
    }
  }

  lemma CountedEnds(m: Merge)
    ensures AmongCommitted(m, m.committed) == {} && AmongCommitted(m, {}) == AmongAll(m, m.pending.Keys) && AmongAll(m, {}) == m.All()
  {
    hide EncodedRange.Contains;
  }

  ghost function AmongCommitted(m: Merge, left: set<Key>): set<Key> {
    set k | k in m.All() && k in m.committed && k !in left
  }

  ghost function AmongAll(m: Merge, left: set<Key>): set<Key> {
    set k | k in m.All() && (k in m.committed || k !in left)
  }

  lemma CountedOne(m: Merge, left: set<Key>, k: Key)
    requires k in left && left <= m.committed
    ensures k !in AmongCommitted(m, left)
    ensures AmongCommitted(m, left - {k}) == AmongCommitted(m, left) +
            if k.id == m.id && m.range.Contains(k.key) && (k in m.pending ==> m.pending[k]) then {k} else {}
  {
    hide EncodedRange.Contains;
  }

  lemma CountedOneMore(m: Merge, left: set<Key>, k: Key)
    requires k in left && left <= m.pending.Keys
    ensures k !in m.committed ==> k !in AmongAll(m, left)
    ensures AmongAll(m, left - {k}) == AmongAll(m, left) +
            if k.id == m.id && m.range.Contains(k.key) && m.pending[k] && k !in m.committed then {k} else {}
  {
    hide EncodedRange.Contains;
  }

  lemma NoStoresSet(x: Context)
    ensures StoresSet(x, []) == {}
  {
  }

  lemma RunEnd(x: Context, m: Model)
    ensures Run(x, m, []) == m
  {
  }

  lemma RunSnoc(x: Context, m: Model, ops: seq<Op>, i: nat)
    requires i < |ops|
    ensures Run(x, m, ops[..i + 1]) == Step(x, Run(x, m, ops[..i]), ops[i])
  {
    hide Step;
    assert ops[..i + 1] == ops[..i] + [ops[i]];
    RunAppend(x, m, ops[..i], [ops[i]]);
    assert [ops[i]][1..] == [];
  }

  lemma NoTombstones(p: Slots)
    ensures Tombstoned(p, {}) == p
  {
  }

  function Verdict<T>(e: Option<TxnError>, v: T): Outcome<T> {
    if e.Some? then Refusal(e.value) else Done(v)
  }

  lemma EmptyLog(ops: seq<UndoOp>, v: View)
    ensures UndoAll(ops[..0], v) == v
  {
  }

  lemma KeyGenViewSet(pending: map<u64, u64>, committed: map<u64, u64>, store: u64, bits: u64)
    ensures KeyGenView(pending[store := bits], committed) == KeyGenView(pending, committed)[store := bits]
    ensures var v := KeyGenView(pending, committed);
            KeyGenView(pending[store := bits], committed)[store := v[store]] == v
  {
  }

  lemma TakenMeans(p: Flags, c: set<Key>, e: Key, existing: seq<Blob>)
    requires !HasEntry(p, c, e)
    requires forall pk: Blob :: pk in existing <==> HasEntry(p, c, Key(e.id, e.key, pk))
    ensures TakenByAnother(p, c, e) <==> existing != []
  {
    if existing != [] {
      var k := Key(e.id, e.key, existing[0]);
      assert existing[0] in existing;
      assert HasEntry(p, c, k) && k in p.Keys + c;
    } else {
      forall k | k in p.Keys + c && k.id == e.id && k.key == e.key ensures !HasEntry(p, c, k) {
        assert k == Key(e.id, e.key, k.pkey) && k.pkey !in existing;
      }
    }
  }

  /** The overlay after a primary key has been flagged deleted under some index keys. */
  function Unflagged(p: Flags, index: u64, pkey: Blob, keys: seq<Blob>): Flags {
    if keys == [] then p
    else Unflagged(p, index, pkey, keys[..|keys| - 1])[Key(index, keys[|keys| - 1], pkey) := false]
  }

  lemma UnflagNone(p: Flags, index: u64, pkey: Blob, keys: seq<Blob>)
    ensures Unflagged(p, index, pkey, keys[..0]) == p
  {
  }

  lemma UnflagOne(p: Flags, index: u64, pkey: Blob, keys: seq<Blob>, i: nat)
    requires i < |keys|
    ensures Unflagged(p, index, pkey, keys[..i + 1]) == Unflagged(p, index, pkey, keys[..i])[Key(index, keys[i], pkey) := false]
  {
    assert keys[..i + 1][..i] == keys[..i];
  }

  lemma {:induction false} UnflaggedAt(p: Flags, index: u64, pkey: Blob, keys: seq<Blob>, k: Key)
    ensures var q := Unflagged(p, index, pkey, keys);
            if k.id == index && k.pkey == pkey && k.key in keys then k in q && !q[k]
            else (k in q <==> k in p) && (k in p ==> q[k] == p[k])
  {
    if keys != [] {
      UnflaggedAt(p, index, pkey, keys[..|keys| - 1], k);
      assert keys == keys[..|keys| - 1] + [keys[|keys| - 1]];
    }
  }

  lemma PrimaryDeletedInSteps(p: Flags, c: set<Key>, index: u64, pkey: Blob, keys: seq<Blob>)
    requires forall ik: Blob :: ik in keys <==> HasEntry(p, c, Key(index, ik, pkey))
    ensures Unflagged(p, index, pkey, keys) == PrimaryDeleted(p, c, index, pkey)
  {
    var q, r := Unflagged(p, index, pkey, keys), PrimaryDeleted(p, c, index, pkey);
    forall k ensures (k in q <==> k in r) && (k in q ==> q[k] == r[k]) {
      UnflaggedAt(p, index, pkey, keys, k);
      if k.id == index && k.pkey == pkey {
        assert k == Key(index, k.key, pkey);
        assert k.key in keys <==> HasEntry(p, c, k);
      }
    }
  }

  /** What a cursor over a transaction walks is what the transaction sees. */
  lemma WalksWhatItSees(t: FsTxn, kind: CursorKind, range: EncodedRange, k: Key)
    ensures k in Entries(t.Maps(), kind, range) <==>
            && range.Contains(k.key)
            && match kind
               case Store(store) => k.id == store && k.pkey == [] && RecKey(store, k.key) in t.Sees().records
               case Index(_, index, _) => k.id == index && k in t.Sees().index
  {
    hide EncodedRange.Contains, Entries;
    EntriesAre(t.Maps(), kind, range, k);
    MergedHas(t.state.records, t.pendingRecords, t.state.index, t.pendingIndex);
  }

  /** A store's row is the record itself; an index's row has the entry's keys and the value of the record that the
      primary key names, if there is one. */
  lemma RowIsWhatItSees(t: FsTxn, kind: CursorKind, k: Key)
    ensures var row, records := RowOf(t.Maps(), kind, false, k), t.Sees().records;
            && row.key == k.key && row.pkey == (if kind.Store? then k.key else k.pkey)
            && row.value == if RecKey(kind.store, row.pkey) in records then Some(records[RecKey(kind.store, row.pkey)]) else None
    ensures RowOf(t.Maps(), kind, true, k) == RowOf(t.Maps(), kind, false, k).(value := None)
  {
    MergedHas(t.state.records, t.pendingRecords, t.state.index, t.pendingIndex);
  }
}
