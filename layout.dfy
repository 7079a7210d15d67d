/**
 * The layout walker: prints a type's members in position order, reports the
 * holes between them and the padding after them, optionally descends into
 * struct-typed members, and returns the hole and padding totals.
 */
module Layout {
  import opened Wrappers
  import opened GdbTypes
  import opened FieldOrder
  import opened Events

  function Max(a: nat, b: nat): nat
  {
    if a < b then b else a
  }

  /** The walker's answer for one type: hole bytes, padding bytes, and what it printed. */
  datatype Report = Report(holes: nat, padding: nat, events: seq<Event>)

  /** Hole and padding byte totals. */
  datatype Totals = Totals(holes: nat, padding: nat)

  /** The walker's state after some members: totals so far, coverage end, output so far. */
  datatype Acc = Acc(holes: nat, padding: nat, prevEnd: nat, events: seq<Event>)

  /**
   * The heading label: the display name, followed by " (<type name>)" whenever
   * the type's name is not exactly the display name (an absent name never is).
   */
  function HeaderLabel(displayName: string, typeName: Option<string>): (r: string)
    ensures typeName == Some(displayName) ==> r == displayName
    ensures typeName != Some(displayName) ==> |r| > |displayName| && r[..|displayName|] == displayName
    ensures typeName != Some(displayName) ==> r[|displayName|..] == " (" + NameText(typeName) + ")"
  {
    if typeName != Some(displayName) then displayName + " (" + NameText(typeName) + ")"
    else displayName
  }

  /** "<name> => <first byte> - <end byte>" for a member. */
  function FieldLabel(f: Field): (r: string)
    ensures exists first, end ::
      && r == NameText(f.name) + " => " + first + " - " + end
      && IsDecimal(first) && DecimalValue(first) == BytePos(f) && (first[0] == '0' ==> first == "0")
      && IsDecimal(end) && DecimalValue(end) == FieldEnd(f) && (end[0] == '0' ==> end == "0")
  {
    NameText(f.name) + " => " + NatToString(BytePos(f)) + " - " + NatToString(FieldEnd(f))
  }

  /** The hole before a member that starts at `bytePos` when bytes up to `prevEnd` are covered. */
  function GapBefore(prevEnd: nat, bytePos: nat): (g: nat)
    ensures g > 0 <==> prevEnd < bytePos
    ensures prevEnd + g == Max(prevEnd, bytePos)
  {
    if prevEnd < bytePos then bytePos - prevEnd else 0
  }

  /** The padding after the members when bytes up to `prevEnd` are covered. */
  function TrailingPadding(sizeof: nat, prevEnd: nat): (p: nat)
    ensures p > 0 <==> sizeof > prevEnd
    ensures prevEnd + p == Max(sizeof, prevEnd)
  {
    if sizeof > prevEnd then sizeof - prevEnd else 0
  }

  /** The hole marker printed before a member, if there is a hole. */
  function HoleMarker(gap: nat, depth: nat): seq<Event>
  {
    if gap > 0 then [Hole(gap, depth)] else []
  }

  /** The padding marker printed after the members, if there is padding. */
  function PaddingMarker(pad: nat, depth: nat): seq<Event>
  {
    if pad > 0 then [Padding(pad, depth)] else []
  }

  /**
   * A size-1 type without members whose only finding is one byte of padding is
   * an empty base class: its byte overlaps other data, so nothing is reported.
   */
  predicate IsEmptyBase(t: TypeDesc, holes: nat, padding: nat)
  {
    t.sizeof == 1 && |t.fields| == 0 && padding == 1 && holes == 0
  }

  function EmptyBase(t: TypeDesc, holes: nat, padding: nat): (r: Totals)
    ensures IsEmptyBase(t, holes, padding) ==> r == Totals(0, 0)
    ensures !IsEmptyBase(t, holes, padding) ==> r == Totals(holes, padding)
  {
    if IsEmptyBase(t, holes, padding) then Totals(0, 0) else Totals(holes, padding)
  }

  /**
   * The walk of `t` printed under `displayName` at nesting level `depth`:
   * heading, members, trailing padding, closing brace, and the totals after
   * the empty-base rule.
   */
  function Walk(t: TypeDesc, displayName: string, recursive: bool, depth: nat): (r: Report)
    ensures |r.events| >= 2
    ensures r.events[0] == Open(HeaderLabel(displayName, t.name), depth)
    ensures r.events[|r.events| - 1] == Close(depth)
    decreases t, 3
  {
    var fs := LaidOut(t.fields);
    var acc := Scan(t, fs, recursive, depth);
    var pad := TrailingPadding(t.sizeof, acc.prevEnd);
    var totals := EmptyBase(t, acc.holes, acc.padding + pad);
    Report(totals.holes, totals.padding,
      [Open(HeaderLabel(displayName, t.name), depth)]
      + acc.events
      + PaddingMarker(pad, depth)
      + [Close(depth)])
  }

  /** The walker's state after visiting the members `fs` of `t`, in order. */
  function Scan(t: TypeDesc, fs: seq<Field>, recursive: bool, depth: nat): (r: Acc)
    requires forall f :: f in fs ==> f in t.fields
    ensures forall f :: f in fs ==> FieldEnd(f) <= r.prevEnd
    decreases t, 2, |fs|
  {
    if fs == [] then Acc(0, 0, 0, [])
    else Step(t, Scan(t, fs[..|fs| - 1], recursive, depth), fs[|fs| - 1], recursive, depth)
  }

  /** Visiting one member: a possible hole, then the member itself, then the new coverage end. */
  function Step(t: TypeDesc, acc: Acc, f: Field, recursive: bool, depth: nat): (r: Acc)
    requires f in t.fields
    ensures r.holes >= acc.holes && r.padding >= acc.padding
    ensures acc.prevEnd <= r.prevEnd && FieldEnd(f) <= r.prevEnd
    ensures |r.events| > |acc.events| && r.events[..|acc.events|] == acc.events
    decreases t, 1
  {
    var gap := GapBefore(acc.prevEnd, BytePos(f));
    var inner := Nested(t, f, recursive, depth);
    Acc(acc.holes + gap + inner.holes,
        acc.padding + inner.padding,
        Max(acc.prevEnd, FieldEnd(f)),
        acc.events + HoleMarker(gap, depth) + inner.events)
  }

  /** A member: walked as a nested type in recursive mode when struct-coded, else one line. */
  function Nested(t: TypeDesc, f: Field, recursive: bool, depth: nat): (r: Report)
    requires f in t.fields
    ensures !recursive ==> r.holes == 0 && r.padding == 0
    ensures |r.events| >= 1
    decreases t, 0
  {
    if recursive && IsStructCoded(f.ftype) then Walk(f.ftype, FieldLabel(f), recursive, depth + 1)
    else Report(0, 0, [Line(FieldLabel(f), depth)])
  }

  /** Step in terms of the member's own report. */
  lemma StepVisit(t: TypeDesc, acc: Acc, f: Field, member: Report, recursive: bool, depth: nat)
    requires f in t.fields
    requires member == Nested(t, f, recursive, depth)
    ensures var gap := GapBefore(acc.prevEnd, BytePos(f));
      Step(t, acc, f, recursive, depth)
      == Acc(acc.holes + gap + member.holes, acc.padding + member.padding,
             Max(acc.prevEnd, FieldEnd(f)), acc.events + HoleMarker(gap, depth) + member.events)
  {
  }

  /** Walk in terms of the scan over the laid-out members. */
  lemma WalkUnfold(t: TypeDesc, displayName: string, recursive: bool, depth: nat)
    ensures var acc := Scan(t, LaidOut(t.fields), recursive, depth);
      var pad := TrailingPadding(t.sizeof, acc.prevEnd);
      var totals := EmptyBase(t, acc.holes, acc.padding + pad);
      Walk(t, displayName, recursive, depth) == Report(totals.holes, totals.padding,
        [Open(HeaderLabel(displayName, t.name), depth)] + acc.events
        + PaddingMarker(pad, depth) + [Close(depth)])
  {
  }

  /** The scan after one more member, in terms of the scan before it. */
  lemma ScanLast(t: TypeDesc, fs: seq<Field>, recursive: bool, depth: nat)
    requires fs != []
    requires forall f :: f in fs ==> f in t.fields
    ensures var acc := Scan(t, fs[..|fs| - 1], recursive, depth);
      var f := fs[|fs| - 1];
      var gap := GapBefore(acc.prevEnd, BytePos(f));
      var inner := Nested(t, f, recursive, depth);
      Scan(t, fs, recursive, depth) == Acc(acc.holes + gap + inner.holes, acc.padding + inner.padding,
        Max(acc.prevEnd, FieldEnd(f)), acc.events + HoleMarker(gap, depth) + inner.events)
  {
  }

  /** Scanning one more member is one more Step. */
  lemma ScanSnoc(t: TypeDesc, fs: seq<Field>, i: nat, recursive: bool, depth: nat)
    requires i < |fs|
    requires forall f :: f in fs ==> f in t.fields
    ensures Scan(t, fs[..i + 1], recursive, depth) == Step(t, Scan(t, fs[..i], recursive, depth), fs[i], recursive, depth)
  {
    assert fs[..i + 1][..i] == fs[..i];
  }

  /**
   * The walker as the debugger command runs it: heading, the pass over the
   * sorted members, trailing padding, closing brace, then the empty-base rule.
   * The output is returned instead of printed.
   */
  method WalkType(t: TypeDesc, displayName: string, recursive: bool, depth: nat) returns (r: Report)
    ensures r == Walk(t, displayName, recursive, depth)
    decreases t, 2
  {
    var header := Open(HeaderLabel(displayName, t.name), depth);
    var scanned := ScanMembers(t, LaidOut(t.fields), recursive, depth);
    var padding := scanned.padding;
    var tail := [];
    if t.sizeof > scanned.prevEnd {
      tail := [Padding(t.sizeof - scanned.prevEnd, depth)];
      padding := padding + (t.sizeof - scanned.prevEnd);
    }
    var out := [header] + scanned.events + tail + [Close(depth)];
    if t.sizeof == 1 && |t.fields| == 0 && padding == 1 && scanned.holes == 0 {
      r := Report(0, 0, out);
    } else {
      r := Report(scanned.holes, padding, out);
    }
  }

  /**
   * The loop over the sorted members: updates the hole total, padding total
   * and coverage end member by member, with a recursive walk of struct-typed
   * members in recursive mode.
   */
  method ScanMembers(t: TypeDesc, fs: seq<Field>, recursive: bool, depth: nat) returns (acc: Acc)
    requires forall f :: f in fs ==> f in t.fields
    ensures acc == Scan(t, fs, recursive, depth)
    decreases t, 1
  {
    var holeSize: nat, padding: nat := 0, 0;
    var events := [];
    var prevEnd: nat := 0;
    var i := 0;
    while i < |fs|
      invariant 0 <= i <= |fs|
      invariant Scan(t, fs[..i], recursive, depth) == Acc(holeSize, padding, prevEnd, events)
    {
      ScanSnoc(t, fs, i, recursive, depth);
      holeSize, padding, prevEnd, events := VisitMember(t, fs[i], recursive, depth, holeSize, padding, prevEnd, events);
      i := i + 1;
    }
    assert fs[..i] == fs;
    acc := Acc(holeSize, padding, prevEnd, events);
  }

  /**
   * One pass of the member loop: the hole before the member, then the member
   * itself (a nested walk in recursive mode when its type is struct-coded,
   * otherwise its one-line label), then the new coverage end.
   */
  method VisitMember(t: TypeDesc, f: Field, recursive: bool, depth: nat,
                     holeSize: nat, padding: nat, prevEnd: nat, events: seq<Event>)
    returns (holeSize': nat, padding': nat, prevEnd': nat, events': seq<Event>)
    requires f in t.fields
    ensures Acc(holeSize', padding', prevEnd', events')
      == Step(t, Acc(holeSize, padding, prevEnd, events), f, recursive, depth)
    decreases t, 0
  {
    var bytePos := BytePos(f);
    var gap: nat, holeLine := 0, [];
    if prevEnd < bytePos {
      gap := bytePos - prevEnd;
      holeLine := [Hole(gap, depth)];
    }
    var sizeStr := FieldLabel(f);
    var member: Report;
    if recursive && IsStructCoded(f.ftype) {
      member := WalkType(f.ftype, sizeStr, recursive, depth + 1);
    } else {
      member := Report(0, 0, [Line(sizeStr, depth)]);
    }
    assert member == Nested(t, f, recursive, depth);
    assert gap == GapBefore(prevEnd, bytePos) && holeLine == HoleMarker(gap, depth);
    holeSize' := holeSize + gap + member.holes;
    padding' := padding + member.padding;
    events' := events + holeLine + member.events;
    prevEnd' := Max(prevEnd, bytePos + f.ftype.sizeof);
    StepVisit(t, Acc(holeSize, padding, prevEnd, events), f, member, recursive, depth);
  }
}
