/** The logical content of a database and the object that holds it while the database is open. */
module State {
  import opened Bytes
  import opened Keys
  import opened Meta

  /** What is durable about a database, apart from which files hold it. */
  datatype DbVal = DbVal(meta: Option<DatabaseMeta>, records: map<RecordKey, Blob>, index: set<Key>,
                         keyGens: map<u64, u64>, nextTxnSeq: u64)

  const EMPTY: DbVal := DbVal(None, map[], {}, map[], 1)

  /** The bits of 1.0, a key generator's first value. */
  const KEY_GEN_START: u64 := 0x3FF0_0000_0000_0000

  /** A store that has never set its key generator still shows the first value. */
  predicate Covered(m: DatabaseMeta, stored: set<u64>) {
    forall s | s in m.stores :: s.id in stored || s.keyGen == KEY_GEN_START
  }

  class DbState {
    var meta: Option<DatabaseMeta>
    var records: map<RecordKey, Blob>
    var index: set<Key>
    var keyGens: map<u64, u64>
    var nextTxnSeq: u64
    var manifestSeq: u64
    var walSeq: u64
    var walBytesSinceCompact: nat
    var walFramesSinceCompact: nat
    /** Sequence numbers of the live segments. */
    var segments: seq<u64>

    constructor ()
      ensures Val() == EMPTY && manifestSeq == 1 && walSeq == 1 && segments == []
      ensures walBytesSinceCompact == walFramesSinceCompact == 0
    {
      meta, records, index, keyGens, nextTxnSeq := None, map[], {}, map[], 1;
      manifestSeq, walSeq, segments := 1, 1, [];
      walBytesSinceCompact, walFramesSinceCompact := 0, 0;
    }

    /** Content may have changed, where it is kept has not. */
    twostate predicate KeepsFiles()
      reads this
    {
      unchanged(`manifestSeq, `walSeq, `walBytesSinceCompact, `walFramesSinceCompact, `segments)
    }

    function Val(): DbVal
      reads this
    {
      DbVal(meta, records, index, keyGens, nextTxnSeq)
    }
  }
}
