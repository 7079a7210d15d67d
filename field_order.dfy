/**
 * The order in which the layout walker visits members: only members with a
 * bit position, stably sorted by that position.
 */
module FieldOrder {
  import opened Wrappers
  import opened GdbTypes

  /** Every member has a bit position. */
  predicate AllPlaced(s: seq<Field>)
  {
    forall i :: 0 <= i < |s| ==> s[i].bitpos.Some?
  }

  /** Non-decreasing bit positions. */
  predicate SortedByBitpos(s: seq<Field>)
  {
    forall i, j :: 0 <= i < j < |s| ==> BitPos(s[i]) <= BitPos(s[j])
  }

  /** The members placed at bit position `k`, in their order in `s`. */
  function AtBitpos(s: seq<Field>, k: nat): seq<Field>
  {
    if s == [] then []
    else AtBitpos(s[..|s| - 1], k) + (if s[|s| - 1].bitpos == Some(k) then [s[|s| - 1]] else [])
  }

  lemma {:induction false} AtBitposAppend(a: seq<Field>, b: seq<Field>, k: nat)
    ensures AtBitpos(a + b, k) == AtBitpos(a, k) + AtBitpos(b, k)
    decreases |b|
  {
    if b == [] {
      assert a + b == a;
    } else {
      var b' := b[..|b| - 1];
      assert (a + b)[..|a + b| - 1] == a + b';
      AtBitposAppend(a, b', k);
    }
  }

  /** The members that have storage, in their original order. */
  function Storage(fs: seq<Field>): (r: seq<Field>)
    ensures AllPlaced(r)
    ensures forall f :: f in r ==> f in fs
  {
    if fs == [] then []
    else
      var last := fs[|fs| - 1];
      Storage(fs[..|fs| - 1]) + (if last.bitpos.Some? then [last] else [])
  }

  /** Dropping the members without storage keeps every placed member, in order. */
  lemma {:induction false} StorageAtBitpos(fs: seq<Field>, k: nat)
    ensures AtBitpos(Storage(fs), k) == AtBitpos(fs, k)
    decreases |fs|
  {
    if fs != [] {
      var init, last := fs[..|fs| - 1], fs[|fs| - 1];
      var tail := if last.bitpos.Some? then [last] else [];
      StorageAtBitpos(init, k);
      AtBitposAppend(Storage(init), tail, k);
      assert AtBitpos(tail, k) == (if last.bitpos == Some(k) then [last] else []) by {
        if tail != [] {
          assert tail[..0] == [];
        }
      }
    }
  }

  /** Appending a member no earlier than every other keeps the order sorted. */
  lemma SortedSnoc(s: seq<Field>, x: Field)
    requires SortedByBitpos(s)
    requires forall y :: y in s ==> BitPos(y) <= BitPos(x)
    ensures SortedByBitpos(s + [x])
  {
    var r := s + [x];
    forall i, j | 0 <= i < j < |r| ensures BitPos(r[i]) <= BitPos(r[j]) {
      if j == |s| {
        assert r[i] in s;
      }
    }
  }

  /**
   * Places `x` after every member of `s` whose bit position is at most its own,
   * so that members with equal positions keep their relative order.
   */
  function Insert(s: seq<Field>, x: Field): (r: seq<Field>)
    ensures forall y :: y in r ==> y in s || y == x
    decreases |s|
  {
    if s == [] || BitPos(s[|s| - 1]) <= BitPos(x) then s + [x]
    else Insert(s[..|s| - 1], x) + [s[|s| - 1]]
  }

  /** Insertion into a sorted sequence keeps it sorted. */
  lemma {:induction false} InsertSorted(s: seq<Field>, x: Field)
    requires SortedByBitpos(s)
    ensures SortedByBitpos(Insert(s, x))
    decreases |s|
  {
    if s == [] || BitPos(s[|s| - 1]) <= BitPos(x) {
      SortedSnoc(s, x);
    } else {
      var init, last := s[..|s| - 1], s[|s| - 1];
      assert s == init + [last];
      InsertSorted(init, x);
      SortedSnoc(Insert(init, x), last);
    }
  }

  /** Insertion adds exactly one occurrence of `x`. */
  lemma {:induction false} InsertPermutes(s: seq<Field>, x: Field)
    ensures multiset(Insert(s, x)) == multiset(s) + multiset{x}
    decreases |s|
  {
    if !(s == [] || BitPos(s[|s| - 1]) <= BitPos(x)) {
      var init, last := s[..|s| - 1], s[|s| - 1];
      assert s == init + [last];
      InsertPermutes(init, x);
    }
  }

  /** Insertion only moves `x` past members at strictly greater positions. */
  lemma {:induction false} InsertAtBitpos(s: seq<Field>, x: Field, k: nat)
    ensures AtBitpos(Insert(s, x), k) == AtBitpos(s, k) + (if x.bitpos == Some(k) then [x] else [])
    decreases |s|
  {
    var r := Insert(s, x);
    if s == [] || BitPos(s[|s| - 1]) <= BitPos(x) {
      assert r == s + [x];
      assert r[..|r| - 1] == s;
    } else {
      var init, last := s[..|s| - 1], s[|s| - 1];
      var rest := Insert(init, x);
      assert r == rest + [last];
      assert r[..|r| - 1] == rest;
      InsertAtBitpos(init, x, k);
    }
  }

  /** Stable insertion sort by bit position. */
  function SortByBitpos(s: seq<Field>): (r: seq<Field>)
    ensures forall y :: y in r ==> y in s
  {
    if s == [] then []
    else
      var init := s[..|s| - 1];
      assert s == init + [s[|s| - 1]];
      Insert(SortByBitpos(init), s[|s| - 1])
  }

  /** The sort's result is ordered by bit position. */
  lemma {:induction false} SortSorted(s: seq<Field>)
    ensures SortedByBitpos(SortByBitpos(s))
  {
    if s != [] {
      SortSorted(s[..|s| - 1]);
      InsertSorted(SortByBitpos(s[..|s| - 1]), s[|s| - 1]);
    }
  }

  /** The sort is a permutation. */
  lemma {:induction false} SortPermutes(s: seq<Field>)
    ensures multiset(SortByBitpos(s)) == multiset(s)
  {
    if s != [] {
      var init := s[..|s| - 1];
      assert s == init + [s[|s| - 1]];
      SortPermutes(init);
      InsertPermutes(SortByBitpos(init), s[|s| - 1]);
    }
  }

  /** The sort is stable: members at one position keep their relative order. */
  lemma {:induction false} SortStable(s: seq<Field>, k: nat)
    ensures AtBitpos(SortByBitpos(s), k) == AtBitpos(s, k)
  {
    if s != [] {
      var init := s[..|s| - 1];
      assert s == init + [s[|s| - 1]];
      SortStable(init, k);
      InsertAtBitpos(SortByBitpos(init), s[|s| - 1], k);
    }
  }

  /** The members the walker visits, in the order it visits them. */
  function LaidOut(fs: seq<Field>): (r: seq<Field>)
    ensures forall f :: f in r ==> f in fs && f.bitpos.Some?
  {
    var r := SortByBitpos(Storage(fs));
    assert forall f :: f in r ==> f.bitpos.Some? by {
      forall f | f in r ensures f.bitpos.Some? {
        var i :| 0 <= i < |Storage(fs)| && Storage(fs)[i] == f;
      }
    }
    r
  }

  /**
   * The walker's visiting order is exactly the stable sort of the members with
   * storage: every visited member has a bit position, positions never
   * decrease, it is a permutation of the storage members, and members sharing
   * a position keep their original relative order.
   */
  lemma LaidOutSpec(fs: seq<Field>)
    ensures AllPlaced(LaidOut(fs))
    ensures SortedByBitpos(LaidOut(fs))
    ensures multiset(LaidOut(fs)) == multiset(Storage(fs))
    ensures forall k: nat :: AtBitpos(LaidOut(fs), k) == AtBitpos(fs, k)
  {
    SortSorted(Storage(fs));
    SortPermutes(Storage(fs));
    forall k: nat ensures AtBitpos(LaidOut(fs), k) == AtBitpos(fs, k) {
      SortStable(Storage(fs), k);
      StorageAtBitpos(fs, k);
    }
  }
}
