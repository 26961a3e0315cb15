/** Storage keys, their byte order in both directions, ranges and bounds. */
module Keys {
  import opened Bytes

  /** An index entry's key; a record's key is one with an empty primary-key part. */
  datatype Key = Key(id: u64, key: Blob, pkey: Blob)
  type RecordKey = k: Key | k.pkey == [] witness Key(0, [], [])

  function RecKey(store: u64, key: Blob): RecordKey {
    Key(store, key, [])
  }

  // ---------------------------------------------------------------- order

  predicate BytesLess(a: seq<byte>, b: seq<byte>) {
    b != [] && (a == [] || a[0] < b[0] || (a[0] == b[0] && BytesLess(a[1..], b[1..])))
  }

  /** One string is before another when, after some common bytes, it ends or has the smaller byte. */
  lemma BytesLessMeans(a: seq<byte>, b: seq<byte>)
    ensures BytesLess(a, b) <==> exists n: nat :: PartsAt(a, b, n)
  {
    if BytesLess(a, b) {
      var n := WhereParted(a, b);
    }
    forall n: nat | PartsAt(a, b, n) ensures BytesLess(a, b) {
      PartedIsLess(a, b, n);
    }
  }

  predicate PartsAt(a: seq<byte>, b: seq<byte>, n: nat) {
    n <= |a| && n < |b| && a[..n] == b[..n] && (n < |a| ==> a[n] < b[n])
  }

  lemma {:induction false} WhereParted(a: seq<byte>, b: seq<byte>) returns (n: nat)
    requires BytesLess(a, b)
    ensures PartsAt(a, b, n)
  {
    n := 0;
    if a != [] && a[0] == b[0] {
      n := WhereParted(a[1..], b[1..]);
      assert a[..n + 1] == [a[0]] + a[1..][..n] && b[..n + 1] == [b[0]] + b[1..][..n];
      n := n + 1;
    }
  }

  lemma {:induction false} PartedIsLess(a: seq<byte>, b: seq<byte>, n: nat)
    requires PartsAt(a, b, n)
    ensures BytesLess(a, b)
    decreases n
  {
    if n > 0 {
      assert a[..n][0] == b[..n][0];
      assert a[1..][..n - 1] == a[..n][1..] && b[1..][..n - 1] == b[..n][1..];
      PartedIsLess(a[1..], b[1..], n - 1);
    }
  }

  lemma {:induction false} BytesIrreflexive(a: seq<byte>)
    ensures !BytesLess(a, a)
  {
    if a != [] {
      BytesIrreflexive(a[1..]);
    }
  }

  lemma {:induction false} BytesTotal(a: seq<byte>, b: seq<byte>)
    ensures BytesLess(a, b) || BytesLess(b, a) || a == b
    ensures !(BytesLess(a, b) && BytesLess(b, a))
    ensures !BytesLess(a, a)
    decreases |a| + |b|
  {
    BytesIrreflexive(a);
    if a != [] && b != [] {
      BytesTotal(a[1..], b[1..]);
      assert a == [a[0]] + a[1..] && b == [b[0]] + b[1..];
    }
  }

  lemma {:induction false} BytesTransitive(a: seq<byte>, b: seq<byte>, c: seq<byte>)
    requires BytesLess(a, b) && BytesLess(b, c)
    ensures BytesLess(a, c)
  {
    if a != [] && a[0] == b[0] && b[0] == c[0] {
      BytesTransitive(a[1..], b[1..], c[1..]);
    }
  }

  predicate Less(a: Key, b: Key) {
    a.id < b.id ||
    (a.id == b.id && (BytesLess(a.key, b.key) || (a.key == b.key && BytesLess(a.pkey, b.pkey))))
  }

  /** `a` comes strictly before `b` in the direction of a walk. */
  predicate Before(desc: bool, a: Key, b: Key) {
    if desc then Less(b, a) else Less(a, b)
  }

  lemma BeforeTotal(desc: bool, a: Key, b: Key)
    ensures Before(desc, a, b) || Before(desc, b, a) || a == b
    ensures !(Before(desc, a, b) && Before(desc, b, a))
    ensures !Before(desc, a, a)
  {
    BytesTotal(a.key, b.key);
    BytesTotal(a.pkey, b.pkey);
  }

  lemma BeforeTransitive(desc: bool, a: Key, b: Key, c: Key)
    requires Before(desc, a, b) && Before(desc, b, c)
    ensures Before(desc, a, c)
  {
    BytesTotal(a.key, b.key);
    BytesTotal(b.key, c.key);
    if BytesLess(a.key, b.key) && BytesLess(b.key, c.key) { BytesTransitive(a.key, b.key, c.key); }
    if BytesLess(c.key, b.key) && BytesLess(b.key, a.key) { BytesTransitive(c.key, b.key, a.key); }
    if BytesLess(a.pkey, b.pkey) && BytesLess(b.pkey, c.pkey) { BytesTransitive(a.pkey, b.pkey, c.pkey); }
    if BytesLess(c.pkey, b.pkey) && BytesLess(b.pkey, a.pkey) { BytesTransitive(c.pkey, b.pkey, a.pkey); }
  }

  predicate AtOrBefore(desc: bool, a: Key, b: Key) {
    a == b || Before(desc, a, b)
  }

  /** `k` is the first key of `s` in the direction. */
  predicate IsNearest(desc: bool, s: set<Key>, k: Key) {
    k in s && forall x | x in s :: AtOrBefore(desc, k, x)
  }

  lemma NearestIsUnique(desc: bool, s: set<Key>, a: Key, b: Key)
    requires IsNearest(desc, s, a) && IsNearest(desc, s, b)
    ensures a == b
  {
    assert AtOrBefore(desc, a, b) && AtOrBefore(desc, b, a);
    BeforeTotal(desc, a, b);
  }

  lemma {:induction false} HasNearest(desc: bool, s: set<Key>)
    requires s != {}
    ensures exists k :: IsNearest(desc, s, k)
    decreases |s|
  {
    var x :| x in s;
    if s == {x} {
      assert IsNearest(desc, s, x);
    } else {
      var rest := s - {x};
      assert rest != {} by { assert exists y :: y in s && y != x; }
      HasNearest(desc, rest);
      var m :| IsNearest(desc, rest, m);
      BeforeTotal(desc, x, m);
      if Before(desc, x, m) {
        forall y | y in s ensures AtOrBefore(desc, x, y) {
          if y != x && y != m {
            assert AtOrBefore(desc, m, y);
            BeforeTransitive(desc, x, m, y);
          }
        }
        assert IsNearest(desc, s, x);
      } else {
        assert IsNearest(desc, s, m);
      }
    }
  }

  function Nearest(desc: bool, s: set<Key>): (k: Key)
    requires s != {}
    ensures IsNearest(desc, s, k)
  {
    HasNearest(desc, s);
    assert forall a, b | IsNearest(desc, s, a) && IsNearest(desc, s, b) :: a == b by {
      forall a, b | IsNearest(desc, s, a) && IsNearest(desc, s, b) ensures a == b {
        NearestIsUnique(desc, s, a, b);
      }
    }
    var k :| k in s && IsNearest(desc, s, k);
    k
  }

  function Without(s: set<Key>, k: Key): set<Key> {
    s - {k}
  }

  /** The keys of a set in walking order. */
  function Sorted(desc: bool, s: set<Key>): (r: seq<Key>)
    ensures |r| == |s|
  {
    if s == {} then [] else [Nearest(desc, s)] + Sorted(desc, s - {Nearest(desc, s)})
  }

  predicate AllAfter(desc: bool, k: Key, r: seq<Key>) {
    forall x | x in r :: Before(desc, k, x)
  }

  /** Strictly in walking order. */
  predicate InOrder(desc: bool, r: seq<Key>) {
    r == [] || (AllAfter(desc, r[0], r[1..]) && InOrder(desc, r[1..]))
  }

  lemma {:induction false} SortedLists(desc: bool, s: set<Key>)
    ensures InOrder(desc, Sorted(desc, s))
    ensures forall k :: k in Sorted(desc, s) <==> k in s
    decreases |s|
  {
    hide Before;
    if s != {} {
      var k := Nearest(desc, s);
      SortedLists(desc, s - {k});
      assert Sorted(desc, s)[1..] == Sorted(desc, s - {k});
    }
  }

  lemma {:induction false} InOrderAt(desc: bool, r: seq<Key>, i: nat, j: nat)
    requires InOrder(desc, r) && i < j < |r|
    ensures Before(desc, r[i], r[j])
  {
    if i == 0 {
      assert r[j] == r[1..][j - 1] && r[j] in r[1..];
    } else {
      InOrderAt(desc, r[1..], i - 1, j - 1);
    }
  }

  /** A listing is determined by its elements and its order. */
  lemma {:induction false} ListingIsUnique(desc: bool, a: seq<Key>, b: seq<Key>)
    requires InOrder(desc, a) && InOrder(desc, b)
    requires forall k :: k in a <==> k in b
    ensures a == b
  {
    hide Before;
    assert b != [] ==> b[0] in b;
    if a != [] {
      assert a[0] in b;
      var x, y := a[0], b[0];
      assert y in a;
      assert a == [x] + a[1..] && b == [y] + b[1..];
      BeforeTotal(desc, x, y);
      assert x == y;
      forall k ensures k in a[1..] <==> k in b[1..] {
        BeforeTotal(desc, x, x);
        assert k in a <==> k == x || k in a[1..];
        assert k in b <==> k == x || k in b[1..];
      }
      ListingIsUnique(desc, a[1..], b[1..]);
    }
  }

  function Reverse<T(!new)>(s: seq<T>): (r: seq<T>)
    ensures |r| == |s|
    ensures forall x :: x in r <==> x in s
  {
    if s == [] then [] else Reverse(s[1..]) + [s[0]]
  }

  lemma {:induction false} InOrderSnoc(desc: bool, r: seq<Key>, k: Key)
    requires InOrder(desc, r) && forall x | x in r :: Before(desc, x, k)
    ensures InOrder(desc, r + [k])
  {
    hide Before;
    if r != [] {
      InOrderSnoc(desc, r[1..], k);
      assert (r + [k])[1..] == r[1..] + [k];
    }
  }

  lemma {:induction false} ReverseInOrder(desc: bool, r: seq<Key>)
    requires InOrder(desc, r)
    ensures InOrder(!desc, Reverse(r))
  {
    if r != [] {
      ReverseInOrder(desc, r[1..]);
      InOrderSnoc(!desc, Reverse(r[1..]), r[0]);
    }
  }

  /** Walking backwards lists the same keys in reverse. */
  lemma DescendingIsReverse(s: set<Key>)
    ensures Sorted(true, s) == Reverse(Sorted(false, s))
  {
    hide Before, InOrder;
    SortedLists(false, s);
    SortedLists(true, s);
    ReverseInOrder(false, Sorted(false, s));
    ListingIsUnique(true, Reverse(Sorted(false, s)), Sorted(true, s));
  }

  // ---------------------------------------------------------------- ranges and bounds

  datatype Limit = Limit(key: Blob, open: bool)
  datatype EncodedRange = EncodedRange(lower: Option<Limit>, upper: Option<Limit>) {
    /** Bytewise comparison against both limits. */
    predicate Contains(k: Blob) {
      && (lower.Some? ==> BytesLess(lower.value.key, k) || (!lower.value.open && k == lower.value.key))
      && (upper.Some? ==> BytesLess(k, upper.value.key) || (!upper.value.open && k == upper.value.key))
    }
  }

  /** A limit itself belongs to the range when it is closed; what lies beyond it never does. */
  lemma ContainsMeans(range: EncodedRange, k: Blob)
    ensures range.lower.Some? && range.Contains(k) ==>
              !BytesLess(k, range.lower.value.key) && (range.lower.value.open ==> k != range.lower.value.key)
    ensures range.upper.Some? && range.Contains(k) ==>
              !BytesLess(range.upper.value.key, k) && (range.upper.value.open ==> k != range.upper.value.key)
    ensures !range.Contains(k) ==>
              || (range.lower.Some? && (BytesLess(k, range.lower.value.key) || (range.lower.value.open && k == range.lower.value.key)))
              || (range.upper.Some? && (BytesLess(range.upper.value.key, k) || (range.upper.value.open && k == range.upper.value.key)))
  {
    if range.lower.Some? {
      BytesTotal(k, range.lower.value.key);
    }
    if range.upper.Some? {
      BytesTotal(k, range.upper.value.key);
    }
  }

  datatype Bound = Unbounded | Included(k: Key) | Excluded(k: Key)

  /** `k` is still to come for a walk in the given direction that starts at the bound. */
  predicate Beyond(desc: bool, b: Bound, k: Key) {
    match b
    case Unbounded => true
    case Included(p) => AtOrBefore(desc, p, k)
    case Excluded(p) => Before(desc, p, k)
  }

  function Ahead(desc: bool, s: set<Key>, b: Bound): set<Key> {
    set k | k in s && Beyond(desc, b, k)
  }

  /** The ordered map's `range(..).next()` (or `next_back()`), kept only inside one store or index. */
  function Peek(desc: bool, s: set<Key>, b: Bound, id: u64): Option<Key> {
    var ahead := Ahead(desc, s, b);
    if ahead == {} || Nearest(desc, ahead).id != id then None else Some(Nearest(desc, ahead))
  }
}
