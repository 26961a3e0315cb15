/** Segment files and who holds them: the published generation and the snapshots of read-only transactions. */
module SegmentGuards {
  import opened Bytes

  /** What may happen to the segments of one open handle. */
  datatype Event = BeginReadOnly | DropSnapshot(which: nat) | Compact(published: bool)

  /** The published segments and those of the live snapshots. */
  datatype Holders = Holders(published: seq<u64>, snapshots: seq<seq<u64>>)

  function HolderAfter(h: Holders, e: Event): Holders {
    match e
    case BeginReadOnly => h.(snapshots := h.snapshots + [h.published])
    case DropSnapshot(i) => if i < |h.snapshots| then h.(snapshots := h.snapshots[..i] + h.snapshots[i + 1..]) else h
    case Compact(publishes) =>
      if publishes && Highest(h.published) < U64_MAX then h.(published := [Highest(h.published) + 1]) else h
  }

  function HoldersAfter(h: Holders, events: seq<Event>): Holders
    decreases |events|
  {
    if events == [] then h else HolderAfter(HoldersAfter(h, events[..|events| - 1]), events[|events| - 1])
  }

  function Highest(s: seq<u64>): (r: u64)
    ensures forall n | n in s :: n <= r
    ensures s == [] ==> r == 0
    ensures s != [] ==> r in s
  {
    if s == [] then 0
    else
      var r := Highest(s[1..]);
      assert forall n | n in s :: n == s[0] || n in s[1..];
      if r < s[0] then s[0] else r
  }

  class Handle {
    /** Segment files in the directory. */
    var files: set<u64>
    /** The segments of the published generation, and those of each live snapshot. */
    var published: seq<u64>
    var snapshots: seq<seq<u64>>
    /** How many references each guard has, and which guards delete their file when the last one goes. */
    var references: multiset<u64>
    var reclaimable: set<u64>

    ghost predicate Valid()
      reads this
    {
      references == multiset(published) + Held(snapshots) && Kept(references, published, files, reclaimable)
    }

    /** A handle on the segments of an opened generation. */
    constructor (files: set<u64>, segments: seq<u64>)
      requires forall n | n in segments :: n in files
      ensures Valid() && published == segments && snapshots == [] && this.files == files
    {
      this.files, published, snapshots, references, reclaimable := files, segments, [], multiset(segments), {};
      assert forall n | n in multiset(segments) :: n in segments;
    }

    /** A read-only transaction's snapshot shares the published guards. */
    method BeginReadOnly()
      requires Valid()
      modifies this
      ensures Valid() && snapshots == old(snapshots) + [published] && published == old(published) && files == old(files)
    {
      hide Held, Kept;
      HeldMore(snapshots, published);
      KeptShared(references, published, files, reclaimable);
      snapshots := snapshots + [published];
      references := references + multiset(published);
    }

    /** One reference less; the last one takes a reclaimable file with it. */
    method DropGuard(n: u64)
      requires n in references
      modifies this`references, this`files
      ensures references == old(references) - multiset{n}
      ensures files == if n !in references && n in reclaimable then old(files) - {n} else old(files)
    {
      references := references - multiset{n};
      if references[n] == 0 && n in reclaimable {
        files := files - {n};
      }
    }

    method DropGuards(guards: seq<u64>)
      requires multiset(guards) <= references
      modifies this`references, this`files
      ensures references == old(references) - multiset(guards)
      ensures files == old(files) - LastOnes(old(references), guards, reclaimable)
    {
      hide After;
      ghost var start := State(references, files);
      AfterNone(start, reclaimable);
      assert guards[..0] == [];
      for i := 0 to |guards|
        invariant State(references, files) == After(start, guards[..i], reclaimable)
      {
        AfterMore(start, guards, i, reclaimable);
        DropGuard(guards[i]);
      }
      assert guards[..|guards|] == guards;
      AfterMeans(start, guards, reclaimable);
    }

    /** A snapshot ends: of its segments, exactly the superseded ones nobody else holds lose their file. */
    method DropSnapshot(i: nat)
      requires Valid() && i < |snapshots|
      modifies this
      ensures Valid() && published == old(published) && snapshots == old(snapshots[..i] + snapshots[i + 1..])
      ensures files == old(files) - (set n | n in old(snapshots)[i] && n !in references && n !in published)
    {
      hide Held, Kept, LastOnes;
      var guards := snapshots[i];
      HeldWithout(snapshots, i);
      KeptAfterDrop(references, published, files, reclaimable, guards, Held(snapshots[..i] + snapshots[i + 1..]));
      snapshots := snapshots[..i] + snapshots[i + 1..];
      DropGuards(guards);
    }

    /** A compaction: a new segment under a number nobody uses, and, once published, the old ones superseded. */
    method Compact(publishes: bool)
      requires Valid() && Highest(published) < U64_MAX
      modifies this
      ensures Valid() && snapshots == old(snapshots) && old(Highest(published)) + 1 !in old(references)
      ensures publishes ==>
        && published == [old(Highest(published)) + 1]
        && files == old(files) + {published[0]} - Unheld(old(published), references)
      ensures !publishes ==> published == old(published) && files == old(files) + {old(Highest(published)) + 1}
    {
      hide Valid, Highest;
      var n := WriteSegment();
      if publishes {
        PublishSegment(n);
      }
    }

    /** The new segment's file. */
    method WriteSegment() returns (n: u64)
      requires Valid() && Highest(published) < U64_MAX
      modifies this`files
      ensures Valid() && n == Highest(published) + 1 && n !in references && n in files && files == old(files) + {n}
    {
      hide Held, Kept, Highest;
      n := SaturatingInc(Highest(published));
      KeptWithFile(references, published, files, reclaimable, n);
      files := files + {n};
    }

    /** The new segment takes over; the old ones go with their last holder. */
    method PublishSegment(n: u64)
      requires Valid() && n in files && n > Highest(published)
      modifies this
      ensures Valid() && snapshots == old(snapshots) && published == [n]
      ensures files == old(files) - Unheld(old(published), references)
    {
      hide Held, Kept, LastOnes, Highest, Unheld, Numbers;
      var superseded := published;
      var more, marked := references + multiset{n}, reclaimable + Numbers(superseded);
      KeptAfterPublish(references, published, files, reclaimable, n, Held(snapshots), more, marked);
      published, references, reclaimable := [n], more, marked;
      DropGuards(superseded);
    }

    method Perform(e: Event)
      requires Valid()
      modifies this
      ensures Valid() && Holders(published, snapshots) == HolderAfter(old(Holders(published, snapshots)), e)
    {
      hide Valid, Highest, Unheld;
      match e {
        case BeginReadOnly => BeginReadOnly();
        case DropSnapshot(j) => if j < |snapshots| { DropSnapshot(j); }
        case Compact(publishes) => if Highest(published) < U64_MAX { Compact(publishes); }
      }
    }

    /** Every run keeps a file under each published segment and each one a live snapshot holds. */
    method Run(events: seq<Event>)
      requires Valid()
      modifies this
      ensures Valid()
      ensures Holders(published, snapshots) == HoldersAfter(old(Holders(published, snapshots)), events)
      ensures forall n | n in published || exists i :: 0 <= i < |snapshots| && n in snapshots[i] :: n in files
    {
      assert events[..0] == [];
      for i := 0 to |events|
        invariant Valid()
        invariant Holders(published, snapshots) == HoldersAfter(old(Holders(published, snapshots)), events[..i])
      {
        hide Valid, HolderAfter;
        assert events[..i + 1][..i] == events[..i];
        Perform(events[i]);
      }
      assert events[..|events|] == events;
      hide HoldersAfter, Highest;
      forall n, i | 0 <= i < |snapshots| && n in snapshots[i] ensures n in references {
        InHeld(snapshots, i, n);
      }
    }
  }

  /** The reclaimable guards whose last reference is among `guards`. */
  ghost function LastOnes(references: multiset<u64>, guards: seq<u64>, reclaimable: set<u64>): set<u64> {
    set n | n in guards && n in reclaimable && n !in references - multiset(guards)
  }

  datatype State = State(references: multiset<u64>, files: set<u64>)

  /** After dropping some guards, in any order. */
  ghost function After(s: State, guards: seq<u64>, reclaimable: set<u64>): State {
    State(s.references - multiset(guards), s.files - LastOnes(s.references, guards, reclaimable))
  }

  lemma AfterMeans(s: State, guards: seq<u64>, reclaimable: set<u64>)
    ensures After(s, guards, reclaimable) ==
            State(s.references - multiset(guards), s.files - LastOnes(s.references, guards, reclaimable))
  {
  }

  lemma AfterNone(s: State, reclaimable: set<u64>)
    ensures After(s, [], reclaimable) == s
  {
  }

  lemma AfterMore(s: State, guards: seq<u64>, i: nat, reclaimable: set<u64>)
    requires i < |guards| && multiset(guards) <= s.references
    ensures var n, now := guards[i], After(s, guards[..i], reclaimable);
            && n in now.references
            && After(s, guards[..i + 1], reclaimable) ==
               var left := now.references - multiset{n};
               State(left, if n !in left && n in reclaimable then now.files - {n} else now.files)
  {
    hide LastOnes;
    LastOfMore(s.references, guards, i, reclaimable);
  }

  lemma LastOfMore(references: multiset<u64>, guards: seq<u64>, i: nat, reclaimable: set<u64>)
    requires i < |guards| && multiset(guards) <= references
    ensures var n, rest := guards[i], references - multiset(guards[..i]);
            && n in rest && rest - multiset{n} == references - multiset(guards[..i + 1])
            && LastOnes(references, guards[..i + 1], reclaimable) ==
               LastOnes(references, guards[..i], reclaimable) + if n in reclaimable && n !in rest - multiset{n} then {n} else {}
  {
    var n := guards[i];
    assert guards[..i + 1] == guards[..i] + [n];
    assert guards == guards[..i + 1] + guards[i + 1..];
    var a, b := multiset(guards[..i]), multiset(guards[..i + 1]);
    assert b == a + multiset{n} && multiset(guards) == b + multiset(guards[i + 1..]);
    var l, m := LastOnes(references, guards[..i + 1], reclaimable), LastOnes(references, guards[..i], reclaimable);
    forall x ensures x in l <==> x in m || (x == n && n in reclaimable && n !in references - b) {
      assert x in guards[..i + 1] <==> x in guards[..i] || x == n;
      assert b[x] == a[x] + if x == n then 1 else 0;
      assert x in guards[..i] <==> a[x] > 0;
    }
  }

  /** Those of some segments that have no references left. */
  function Unheld(segments: seq<u64>, references: multiset<u64>): set<u64> {
    set n | n in segments && n !in references
  }

  function Numbers(s: seq<u64>): set<u64> {
    set n | n in s
  }

  /** The references of the live snapshots. */
  function Held(snapshots: seq<seq<u64>>): multiset<u64> {
    if snapshots == [] then multiset{} else multiset(snapshots[0]) + Held(snapshots[1..])
  }

  lemma {:induction false} HeldMore(snapshots: seq<seq<u64>>, x: seq<u64>)
    ensures Held(snapshots + [x]) == Held(snapshots) + multiset(x)
  {
    if snapshots == [] {
      assert [x][1..] == [] && snapshots + [x] == [x];
    } else {
      assert (snapshots + [x])[1..] == snapshots[1..] + [x];
      HeldMore(snapshots[1..], x);
    }
  }

  lemma {:induction false} HeldWithout(snapshots: seq<seq<u64>>, i: nat)
    requires i < |snapshots|
    ensures Held(snapshots) == Held(snapshots[..i] + snapshots[i + 1..]) + multiset(snapshots[i])
  {
    if i == 0 {
      assert snapshots[..0] + snapshots[1..] == snapshots[1..];
    } else {
      HeldWithout(snapshots[1..], i - 1);
      assert (snapshots[..i] + snapshots[i + 1..])[1..] == snapshots[1..][..i - 1] + snapshots[1..][i..];
    }
  }

  lemma {:induction false} InHeld(snapshots: seq<seq<u64>>, i: nat, x: u64)
    requires i < |snapshots| && x in snapshots[i]
    ensures x in Held(snapshots)
  {
    if i > 0 {
      InHeld(snapshots[1..], i - 1, x);
    }
  }

  /** Referenced segments have their file, unpublished ones are reclaimable, and a reclaimable one without
      references has lost its file. */
  ghost predicate Kept(references: multiset<u64>, published: seq<u64>, files: set<u64>, reclaimable: set<u64>) {
    && (forall n | n in references :: n in files && n <= Highest(published))
    && (forall n | n in published :: n in references && n !in reclaimable)
    && (forall n | n in references && n !in published :: n in reclaimable)
    && (forall n | n in reclaimable :: n <= Highest(published) && (n !in references ==> n !in files))
  }

  lemma KeptShared(references: multiset<u64>, published: seq<u64>, files: set<u64>, reclaimable: set<u64>)
    requires Kept(references, published, files, reclaimable)
    ensures Kept(references + multiset(published), published, files, reclaimable)
  {
  }

  lemma KeptWithFile(references: multiset<u64>, published: seq<u64>, files: set<u64>, reclaimable: set<u64>, n: u64)
    requires Kept(references, published, files, reclaimable) && n > Highest(published)
    ensures n !in references && Kept(references, published, files + {n}, reclaimable)
  {
  }

  lemma KeptAfterDrop(references: multiset<u64>, published: seq<u64>, files: set<u64>, reclaimable: set<u64>,
                      guards: seq<u64>, held: multiset<u64>)
    requires Kept(references, published, files, reclaimable)
    requires references == multiset(published) + (held + multiset(guards))
    ensures multiset(guards) <= references && references - multiset(guards) == multiset(published) + held
    ensures Kept(multiset(published) + held, published, files - LastOnes(references, guards, reclaimable), reclaimable)
    ensures LastOnes(references, guards, reclaimable) ==
            set n | n in guards && n !in multiset(published) + held && n !in published
  {
    var rest := multiset(published) + held;
    assert references - multiset(guards) == rest;
    forall n ensures n in references <==> n in rest || n in guards {
    }
  }

  lemma KeptAfterPublish(references: multiset<u64>, published: seq<u64>, files: set<u64>, reclaimable: set<u64>,
                         n: u64, held: multiset<u64>, more: multiset<u64>, marked: set<u64>)
    requires Kept(references, published, files, reclaimable) && references == multiset(published) + held
    requires n in files && n > Highest(published)
    requires marked == reclaimable + Numbers(published) && more == references + multiset{n}
    ensures && multiset(published) <= more && more - multiset(published) == multiset([n]) + held
            && Kept(multiset([n]) + held, [n], files - LastOnes(more, published, marked), marked)
            && LastOnes(more, published, marked) == Unheld(published, multiset([n]) + held)
  {
    LastSuperseded(references, published, reclaimable, n, held);
    hide LastOnes;
    var rest := multiset([n]) + held;
    assert Highest([n]) == n;
    forall x ensures (x in rest <==> x == n || x in held) && (x in references <==> x in published || x in held) {
    }
  }

  /** The superseded segments without references left are those no snapshot holds. */
  lemma LastSuperseded(references: multiset<u64>, published: seq<u64>, reclaimable: set<u64>, n: u64, held: multiset<u64>)
    requires references == multiset(published) + held
    ensures var marked, more := reclaimable + Numbers(published), references + multiset{n};
            && multiset(published) <= more && more - multiset(published) == multiset([n]) + held
            && LastOnes(more, published, marked) == Unheld(published, multiset([n]) + held)
  {
    assert references + multiset{n} - multiset(published) == multiset([n]) + held;
  }
}
