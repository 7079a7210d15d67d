/**
 * What the layout walker guarantees: its coverage end is the running maximum
 * of member ends, holes and padding are exactly the uncovered gaps, nested
 * totals are added only in recursive mode, the empty-base rule fires only for
 * member-less size-1 types, and the printed markers agree with the totals.
 */
module LayoutProperties {
  import opened GdbTypes
  import opened FieldOrder
  import opened Events
  import opened Layout

  /** The furthest byte any of the members `fs` covers (0 for no members). */
  function MaxEnd(fs: seq<Field>): (m: nat)
    ensures forall f :: f in fs ==> FieldEnd(f) <= m
    ensures fs == [] ==> m == 0
    ensures fs != [] ==> exists i :: 0 <= i < |fs| && FieldEnd(fs[i]) == m
  {
    if fs == [] then 0
    else
      var init := fs[..|fs| - 1];
      assert fs == init + [fs[|fs| - 1]];
      var m := Max(MaxEnd(init), FieldEnd(fs[|fs| - 1]));
      assert init != [] && m == MaxEnd(init) ==> exists i :: 0 <= i < |init| && FieldEnd(fs[i]) == m by {
        if init != [] && m == MaxEnd(init) {
          var i :| 0 <= i < |init| && FieldEnd(init[i]) == m;
          assert fs[i] == init[i];
        }
      }
      m
  }

  /** The walker's coverage end after members `fs` is the largest end among them. */
  lemma {:induction false} ScanCoverage(t: TypeDesc, fs: seq<Field>, recursive: bool, depth: nat)
    requires forall f :: f in fs ==> f in t.fields
    ensures Scan(t, fs, recursive, depth).prevEnd == MaxEnd(fs)
    decreases |fs|
  {
    if fs != [] {
      ScanCoverage(t, fs[..|fs| - 1], recursive, depth);
    }
  }

  /** The coverage end never moves back, whatever the overlaps between members. */
  lemma PrevEndMonotone(t: TypeDesc, fs: seq<Field>, i: nat, j: nat, recursive: bool, depth: nat)
    requires i <= j <= |fs|
    requires forall f :: f in fs ==> f in t.fields
    ensures Scan(t, fs[..i], recursive, depth).prevEnd <= Scan(t, fs[..j], recursive, depth).prevEnd
  {
    ScanCoverage(t, fs[..i], recursive, depth);
    ScanCoverage(t, fs[..j], recursive, depth);
    if i > 0 {
      var k :| 0 <= k < i && FieldEnd(fs[..i][k]) == MaxEnd(fs[..i]);
      assert fs[..i][k] == fs[..j][k];
    }
  }

  /** The hole bytes one level finds among the members `fs`, nested members not included. */
  function LevelHoles(fs: seq<Field>): nat
  {
    if fs == [] then 0
    else
      var init := fs[..|fs| - 1];
      LevelHoles(init) + GapBefore(MaxEnd(init), BytePos(fs[|fs| - 1]))
  }

  /** A level's hole bytes all lie below its coverage end. */
  lemma {:induction false} LevelHolesBounded(fs: seq<Field>)
    ensures LevelHoles(fs) <= MaxEnd(fs)
    decreases |fs|
  {
    if fs != [] {
      var init := fs[..|fs| - 1];
      LevelHolesBounded(init);
      assert fs[|fs| - 1] in fs;
    }
  }

  /** The hole bytes the nested walks of members `fs` report. */
  function SubHoles(t: TypeDesc, fs: seq<Field>, recursive: bool, depth: nat): nat
    requires forall f :: f in fs ==> f in t.fields
  {
    if fs == [] then 0
    else SubHoles(t, fs[..|fs| - 1], recursive, depth) + Nested(t, fs[|fs| - 1], recursive, depth).holes
  }

  /** The padding bytes the nested walks of members `fs` report. */
  function SubPadding(t: TypeDesc, fs: seq<Field>, recursive: bool, depth: nat): nat
    requires forall f :: f in fs ==> f in t.fields
  {
    if fs == [] then 0
    else SubPadding(t, fs[..|fs| - 1], recursive, depth) + Nested(t, fs[|fs| - 1], recursive, depth).padding
  }

  /** Without recursion no nested walk contributes anything. */
  lemma {:induction false} NoNestedTotals(t: TypeDesc, fs: seq<Field>, depth: nat)
    requires forall f :: f in fs ==> f in t.fields
    ensures SubHoles(t, fs, false, depth) == 0 && SubPadding(t, fs, false, depth) == 0
    decreases |fs|
  {
    if fs != [] {
      NoNestedTotals(t, fs[..|fs| - 1], depth);
    }
  }

  /** The scan's totals are this level's holes plus whatever the nested walks return. */
  lemma {:induction false} ScanTotals(t: TypeDesc, fs: seq<Field>, recursive: bool, depth: nat)
    requires forall f :: f in fs ==> f in t.fields
    ensures Scan(t, fs, recursive, depth).holes == LevelHoles(fs) + SubHoles(t, fs, recursive, depth)
    ensures Scan(t, fs, recursive, depth).padding == SubPadding(t, fs, recursive, depth)
    decreases |fs|
  {
    if fs != [] {
      var init := fs[..|fs| - 1];
      ScanTotals(t, init, recursive, depth);
      ScanCoverage(t, init, recursive, depth);
    }
  }

  /** The level's own hole bytes plus the nested walks' hole bytes. */
  function RawHoles(t: TypeDesc, recursive: bool, depth: nat): nat
  {
    var fs := LaidOut(t.fields);
    LevelHoles(fs) + SubHoles(t, fs, recursive, depth)
  }

  /** The level's own trailing padding plus the nested walks' padding bytes. */
  function RawPadding(t: TypeDesc, recursive: bool, depth: nat): nat
  {
    var fs := LaidOut(t.fields);
    TrailingPadding(t.sizeof, MaxEnd(fs)) + SubPadding(t, fs, recursive, depth)
  }

  /**
   * The totals a walk returns: this level's holes and trailing padding plus
   * the nested walks' totals, passed through the empty-base rule; when the
   * type has members the rule never changes anything.
   */
  lemma WalkTotals(t: TypeDesc, displayName: string, recursive: bool, depth: nat)
    ensures Totals(Walk(t, displayName, recursive, depth).holes, Walk(t, displayName, recursive, depth).padding)
      == EmptyBase(t, RawHoles(t, recursive, depth), RawPadding(t, recursive, depth))
    ensures |t.fields| > 0 ==> Walk(t, displayName, recursive, depth).holes == RawHoles(t, recursive, depth)
    ensures |t.fields| > 0 ==> Walk(t, displayName, recursive, depth).padding == RawPadding(t, recursive, depth)
  {
    var fs := LaidOut(t.fields);
    var acc := Scan(t, fs, recursive, depth);
    WalkUnfold(t, displayName, recursive, depth);
    ScanTotals(t, fs, recursive, depth);
    ScanCoverage(t, fs, recursive, depth);
    assert acc.holes == RawHoles(t, recursive, depth);
    assert acc.padding + TrailingPadding(t.sizeof, acc.prevEnd) == RawPadding(t, recursive, depth);
  }

  /** Without recursion the totals are exactly this level's own holes and padding. */
  lemma NonRecursiveTotals(t: TypeDesc, displayName: string, depth: nat)
    ensures var fs := LaidOut(t.fields);
      Totals(Walk(t, displayName, false, depth).holes, Walk(t, displayName, false, depth).padding)
      == EmptyBase(t, LevelHoles(fs), TrailingPadding(t.sizeof, MaxEnd(fs)))
  {
    WalkTotals(t, displayName, false, depth);
    NoNestedTotals(t, LaidOut(t.fields), depth);
  }

  /**
   * A type without members: no holes, and its whole size as padding, except
   * the empty base class of size 1, which reports nothing.
   */
  lemma FieldlessType(t: TypeDesc, displayName: string, recursive: bool, depth: nat)
    requires |t.fields| == 0
    ensures Walk(t, displayName, recursive, depth).holes == 0
    ensures Walk(t, displayName, recursive, depth).padding == (if t.sizeof == 1 then 0 else t.sizeof)
  {
    assert t.fields == [];
    assert Storage(t.fields) == [];
    assert LaidOut(t.fields) == [];
  }

  /** Recursion only adds: the recursive totals are at least the flat ones. */
  lemma RecursiveDominates(t: TypeDesc, displayName: string, depth: nat)
    ensures Walk(t, displayName, true, depth).holes >= Walk(t, displayName, false, depth).holes
    ensures Walk(t, displayName, true, depth).padding >= Walk(t, displayName, false, depth).padding
  {
    if |t.fields| == 0 {
      FieldlessType(t, displayName, true, depth);
      FieldlessType(t, displayName, false, depth);
    } else {
      WalkTotals(t, displayName, true, depth);
      WalkTotals(t, displayName, false, depth);
      NoNestedTotals(t, LaidOut(t.fields), depth);
    }
  }

  /** Bytes reported by the hole markers (or, with `hole` false, the padding markers) printed at level `d`. */
  function MarkerBytes(evs: seq<Event>, d: nat, hole: bool): nat
  {
    if evs == [] then 0
    else
      var e := evs[|evs| - 1];
      MarkerBytes(evs[..|evs| - 1], d, hole)
        + (if hole && e.Hole? && e.depth == d then e.bytes
           else if !hole && e.Padding? && e.depth == d then e.bytes
           else 0)
  }

  lemma {:induction false} MarkerBytesAppend(a: seq<Event>, b: seq<Event>, d: nat, hole: bool)
    ensures MarkerBytes(a + b, d, hole) == MarkerBytes(a, d, hole) + MarkerBytes(b, d, hole)
    decreases |b|
  {
    if b == [] {
      assert a + b == a;
    } else {
      var b' := b[..|b| - 1];
      assert (a + b)[..|a + b| - 1] == a + b';
      MarkerBytesAppend(a, b', d, hole);
    }
  }

  /** The event is one the walker prints, at level `d` or deeper. */
  predicate NestedAtLeast(e: Event, d: nat)
  {
    (e.Open? || e.Hole? || e.Line? || e.Padding? || e.Close?) && e.depth >= d
  }

  /** Every event is one the walker prints, at level `d` or deeper. */
  predicate AllAtLeast(evs: seq<Event>, d: nat)
  {
    forall i :: 0 <= i < |evs| ==> NestedAtLeast(evs[i], d)
  }

  lemma AllAtLeastAppend(a: seq<Event>, b: seq<Event>, d: nat)
    requires AllAtLeast(a, d) && AllAtLeast(b, d)
    ensures AllAtLeast(a + b, d)
  {
    forall i | 0 <= i < |a + b| ensures NestedAtLeast((a + b)[i], d) {
      if i >= |a| {
        assert (a + b)[i] == b[i - |a|];
      }
    }
  }

  /** Markers printed only deeper than `d` add nothing at level `d`. */
  lemma {:induction false} DeeperMarkers(evs: seq<Event>, d: nat, hole: bool)
    requires AllAtLeast(evs, d + 1)
    ensures MarkerBytes(evs, d, hole) == 0
    decreases |evs|
  {
    if evs != [] {
      DeeperMarkers(evs[..|evs| - 1], d, hole);
    }
  }

  /** Everything a walk at level `depth` prints is at that level or deeper. */
  lemma {:induction false} WalkDepth(t: TypeDesc, displayName: string, recursive: bool, depth: nat)
    ensures AllAtLeast(Walk(t, displayName, recursive, depth).events, depth)
    decreases t, 2
  {
    var acc := Scan(t, LaidOut(t.fields), recursive, depth);
    var pad := TrailingPadding(t.sizeof, acc.prevEnd);
    var head := [Open(HeaderLabel(displayName, t.name), depth)];
    WalkUnfold(t, displayName, recursive, depth);
    ScanDepth(t, LaidOut(t.fields), recursive, depth);
    AllAtLeastAppend(head, acc.events, depth);
    AllAtLeastAppend(head + acc.events, PaddingMarker(pad, depth), depth);
    AllAtLeastAppend(head + acc.events + PaddingMarker(pad, depth), [Close(depth)], depth);
  }

  lemma {:induction false} ScanDepth(t: TypeDesc, fs: seq<Field>, recursive: bool, depth: nat)
    requires forall f :: f in fs ==> f in t.fields
    ensures AllAtLeast(Scan(t, fs, recursive, depth).events, depth)
    decreases t, 1, |fs|
  {
    if fs != [] {
      var init, f := fs[..|fs| - 1], fs[|fs| - 1];
      assert f in t.fields;
      var acc := Scan(t, init, recursive, depth);
      var marker := HoleMarker(GapBefore(acc.prevEnd, BytePos(f)), depth);
      ScanLast(t, fs, recursive, depth);
      ScanDepth(t, init, recursive, depth);
      NestedDepth(t, f, recursive, depth);
      AllAtLeastAppend(acc.events, marker, depth);
      AllAtLeastAppend(acc.events + marker, Nested(t, f, recursive, depth).events, depth);
    }
  }

  lemma {:induction false} NestedDepth(t: TypeDesc, f: Field, recursive: bool, depth: nat)
    requires f in t.fields
    ensures AllAtLeast(Nested(t, f, recursive, depth).events, depth)
    ensures recursive && IsStructCoded(f.ftype) ==> AllAtLeast(Nested(t, f, recursive, depth).events, depth + 1)
    decreases t, 0
  {
    if recursive && IsStructCoded(f.ftype) {
      WalkDepth(f.ftype, FieldLabel(f), recursive, depth + 1);
    }
  }

  /** A member's own output holds no markers at the enclosing level. */
  lemma NestedMarkers(t: TypeDesc, f: Field, recursive: bool, depth: nat, hole: bool)
    requires f in t.fields
    ensures MarkerBytes(Nested(t, f, recursive, depth).events, depth, hole) == 0
  {
    if recursive && IsStructCoded(f.ftype) {
      NestedDepth(t, f, recursive, depth);
      DeeperMarkers(Nested(t, f, recursive, depth).events, depth, hole);
    } else {
      assert [Line(FieldLabel(f), depth)][..0] == [];
    }
  }

  /** The bytes a single hole marker reports. */
  lemma HoleMarkerBytes(gap: nat, depth: nat, hole: bool)
    ensures MarkerBytes(HoleMarker(gap, depth), depth, hole) == (if hole then gap else 0)
  {
    if gap > 0 {
      assert HoleMarker(gap, depth)[..0] == [];
    }
  }

  /** The bytes a single padding marker reports. */
  lemma PaddingMarkerBytes(pad: nat, depth: nat, hole: bool)
    ensures MarkerBytes(PaddingMarker(pad, depth), depth, hole) == (if hole then 0 else pad)
  {
    if pad > 0 {
      assert PaddingMarker(pad, depth)[..0] == [];
    }
  }

  /** The hole markers a scan prints at its own level add up to the level's hole bytes. */
  lemma {:induction false} ScanMarkers(t: TypeDesc, fs: seq<Field>, recursive: bool, depth: nat, hole: bool)
    requires forall f :: f in fs ==> f in t.fields
    ensures MarkerBytes(Scan(t, fs, recursive, depth).events, depth, hole) == (if hole then LevelHoles(fs) else 0)
    decreases |fs|
  {
    if fs != [] {
      var init, f := fs[..|fs| - 1], fs[|fs| - 1];
      assert f in t.fields;
      var acc := Scan(t, init, recursive, depth);
      var gap := GapBefore(acc.prevEnd, BytePos(f));
      var inner := Nested(t, f, recursive, depth);
      ScanLast(t, fs, recursive, depth);
      ScanMarkers(t, init, recursive, depth, hole);
      ScanCoverage(t, init, recursive, depth);
      NestedMarkers(t, f, recursive, depth, hole);
      HoleMarkerBytes(gap, depth, hole);
      MarkerBytesAppend(acc.events + HoleMarker(gap, depth), inner.events, depth, hole);
      MarkerBytesAppend(acc.events, HoleMarker(gap, depth), depth, hole);
    }
  }

  /**
   * What a walk prints at its own level agrees with what it counts there: the
   * hole markers add up to the level's hole bytes and the padding marker to
   * its trailing padding.
   */
  lemma WalkMarkers(t: TypeDesc, displayName: string, recursive: bool, depth: nat, hole: bool)
    ensures MarkerBytes(Walk(t, displayName, recursive, depth).events, depth, hole)
      == if hole then LevelHoles(LaidOut(t.fields)) else TrailingPadding(t.sizeof, MaxEnd(LaidOut(t.fields)))
  {
    var fs := LaidOut(t.fields);
    var acc := Scan(t, fs, recursive, depth);
    var pad := TrailingPadding(t.sizeof, acc.prevEnd);
    var head := [Open(HeaderLabel(displayName, t.name), depth)];
    WalkUnfold(t, displayName, recursive, depth);
    ScanMarkers(t, fs, recursive, depth, hole);
    ScanCoverage(t, fs, recursive, depth);
    PaddingMarkerBytes(pad, depth, hole);
    MarkerBytesAppend(head + acc.events + PaddingMarker(pad, depth), [Close(depth)], depth, hole);
    MarkerBytesAppend(head + acc.events, PaddingMarker(pad, depth), depth, hole);
    MarkerBytesAppend(head, acc.events, depth, hole);
    assert head[..0] == [];
    assert [Close(depth)][..0] == [];
  }

  /**
   * Without recursion, and unless the empty-base rule fires, the totals a
   * walk returns are exactly the bytes its top-level markers show.
   */
  lemma NonRecursiveTotalsMatchMarkers(t: TypeDesc, displayName: string, depth: nat)
    requires !(|t.fields| == 0 && t.sizeof == 1)
    ensures Walk(t, displayName, false, depth).holes == MarkerBytes(Walk(t, displayName, false, depth).events, depth, true)
    ensures Walk(t, displayName, false, depth).padding == MarkerBytes(Walk(t, displayName, false, depth).events, depth, false)
  {
    WalkMarkers(t, displayName, false, depth, true);
    WalkMarkers(t, displayName, false, depth, false);
    if |t.fields| == 0 {
      FieldlessType(t, displayName, false, depth);
      assert LaidOut(t.fields) == [] by {
        assert t.fields == [];
        assert Storage(t.fields) == [];
      }
    } else {
      WalkTotals(t, displayName, false, depth);
      NoNestedTotals(t, LaidOut(t.fields), depth);
    }
  }

  /**
   * The exception: an empty base class prints a 1-byte padding marker yet
   * returns no padding.
   */
  lemma EmptyBaseMarkers(t: TypeDesc, displayName: string, recursive: bool, depth: nat)
    requires |t.fields| == 0 && t.sizeof == 1
    ensures MarkerBytes(Walk(t, displayName, recursive, depth).events, depth, false) == 1
    ensures Walk(t, displayName, recursive, depth).padding == 0
  {
    WalkMarkers(t, displayName, recursive, depth, false);
    FieldlessType(t, displayName, recursive, depth);
    assert LaidOut(t.fields) == [] by {
      assert t.fields == [];
      assert Storage(t.fields) == [];
    }
  }
}
