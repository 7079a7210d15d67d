# layout-of: struct layout accounting, modelled in Dafny

`layout_of.py` adds two debugger commands:

- `offsets-of <type>` lists the byte offset of every member of a struct or
  class, in declaration order; a member without storage (a static member) is
  listed with `?` instead.
- `layout-of [-r] <type>` walks the members in storage order. It reports every
  *hole* (bytes no member covers, between members) and the trailing
  *padding* (bytes after the furthest end of any member, up to the type's size), and
  the totals. With `-r` it descends into struct-typed members and adds their
  holes and padding to the totals.

The model works on an immutable snapshot of the debugger's type metadata
(`GdbTypes.TypeDesc`, `GdbTypes.Field`). Printed output is a sequence of
`Events.Event` values (opening line, hole marker, member line, padding marker,
closing line, summary lines), and errors are returned as `CommandError` values.

Modules:

- `GdbTypes`: type and member snapshot, bit-to-byte conversion, typedef stripping.
- `FieldOrder`: dropping members without a position, and the stable sort by bit position.
- `Layout`: the walker. `Walk`/`Scan`/`Step`/`Nested` specify it. The methods
  `WalkType` and `ScanMembers` carry out the walk with the source's loop and
  accumulators, and are proved equal to the specification.
- `LayoutProperties`: what the walk guarantees about coverage, holes, padding, nesting and markers.
- `Commands`: the argument check, the totals report, `layout-of` and `offsets-of`.
- `LayoutExamples`: worked layouts.

## Model

| member | source | states |
|---|---|---|
| GdbTypes.StripTypedefs | layout_of.py:200 | the struct check on a member's type looks through typedef layers: the result is never a typedef, and a code that is not a typedef is kept as it is |
| GdbTypes.StripAliased | layout_of.py:200 | any number of typedef layers over a code strip to what that code strips to, so a typedef chain ending in a struct is struct-coded |
| GdbTypes.BytePos | layout_of.py:183 | a member's byte position is its bit position floor-divided by 8: the byte that holds its first bit |
| GdbTypes.NatToString | layout_of.py:191-195 | a number is printed as a non-empty string of decimal digits that spells exactly that number, with no leading zero |
| FieldOrder.Storage | layout_of.py:180 | only members that have a bit position are kept, and only members of the input |
| FieldOrder.StorageAtBitpos | layout_of.py:180 | dropping members without storage keeps every member at each bit position, in original order |
| FieldOrder.InsertSorted | layout_of.py:179-182 | inserting into a list sorted by bit position keeps it sorted |
| FieldOrder.InsertPermutes | layout_of.py:179-182 | insertion adds exactly one occurrence of the new member and loses nothing |
| FieldOrder.InsertAtBitpos | layout_of.py:179-182 | insertion puts the new member after every member at its own bit position |
| FieldOrder.SortSorted | layout_of.py:179-182 | the sort's result is in non-decreasing bit-position order |
| FieldOrder.SortPermutes | layout_of.py:179-182 | the sort is a permutation of its input |
| FieldOrder.SortStable | layout_of.py:179-182 | the sort is stable: members at one bit position keep their relative order |
| FieldOrder.LaidOut | layout_of.py:179-182 | the walker visits only members of the type that have a bit position |
| FieldOrder.LaidOutSpec | layout_of.py:179-182 | the visited members are exactly the positioned members, sorted by bit position, with ties in declaration order |
| Layout.HeaderLabel | layout_of.py:169-170 | the label is the display name when the type's name equals it; otherwise the display name followed by " (", the type's name as printed, and ")" |
| Layout.FieldLabel | layout_of.py:191-195 | a member's label is its name, " => ", digits spelling its first byte, " - ", digits spelling its end byte (first byte plus its type's size), each number without leading zeros |
| Layout.GapBefore | layout_of.py:184-190 | a hole exists exactly when the member starts past the coverage end, and coverage plus hole reaches the member's start |
| Layout.TrailingPadding | layout_of.py:212-220 | padding exists exactly when the size exceeds the coverage end, and coverage plus padding equals max(size, coverage) |
| Layout.EmptyBase | layout_of.py:225-235 | a size-1 type with no members (counting static ones), 1 byte of padding and no holes reports (0, 0); every other result is returned unchanged |
| Layout.Walk | layout_of.py:153-235 | the printed walk of a type opens with its header label at its own depth and ends with its closing brace at that depth |
| Layout.Scan | layout_of.py:178-209 | after the members visited so far, the coverage end is at or past every one of their ends |
| Layout.Step | layout_of.py:183-209 | visiting one member never lowers the hole or padding totals or the coverage end, covers the member's end, and only appends output |
| Layout.Nested | layout_of.py:196-208 | a member prints at least one line and, without recursion, adds no holes or padding |
| Layout.WalkType | layout_of.py:153-235 | the walk produces exactly the specified events and the specified hole and padding totals |
| Layout.ScanMembers | layout_of.py:165-209 | the loop over the sorted members leaves the holes, padding, coverage end and events of the member fold |
| Layout.VisitMember | layout_of.py:183-209 | one pass of the loop body updates the hole total, padding total, coverage end and output exactly as one step of the member fold |
| LayoutProperties.MaxEnd | layout_of.py:209 | the largest end among the members: no member ends after it, and some member ends exactly there (0 for none) |
| LayoutProperties.ScanCoverage | layout_of.py:178-209 | the coverage end after the visited members is the largest end among them |
| LayoutProperties.PrevEndMonotone | layout_of.py:178-209 | the coverage end never moves back as more members are visited, whatever their overlaps |
| LayoutProperties.LevelHolesBounded | layout_of.py:183-190 | the hole bytes of one level never exceed that level's final coverage end |
| LayoutProperties.NoNestedTotals | layout_of.py:197-208 | without recursion no member contributes nested holes or padding |
| LayoutProperties.ScanTotals | layout_of.py:183-209 | the loop's hole total is the level's own holes plus the nested walks' holes, and its padding is the nested walks' padding |
| LayoutProperties.WalkTotals | layout_of.py:163-235 | the returned totals are the level's holes and trailing padding plus the nested totals, through the empty-base rule, which changes nothing for a type with members |
| LayoutProperties.NonRecursiveTotals | layout_of.py:197-235 | without recursion the totals are exactly this level's holes and trailing padding |
| LayoutProperties.FieldlessType | layout_of.py:212-235 | a type without members has no holes and its whole size as padding, except the size-1 empty base, which reports 0 |
| LayoutProperties.RecursiveDominates | layout_of.py:197-208 | recursion only adds: recursive totals are at least the flat totals |
| LayoutProperties.MarkerBytesAppend | layout_of.py:183-220 | marker bytes of concatenated output add up |
| LayoutProperties.AllAtLeastAppend | layout_of.py:171-223 | concatenating output that is all at or below a depth stays at or below it |
| LayoutProperties.DeeperMarkers | layout_of.py:202-204 | markers printed by nested walks are not markers of the enclosing level |
| LayoutProperties.WalkDepth | layout_of.py:153-235 | every line a walk prints is at its own depth or deeper |
| LayoutProperties.ScanDepth | layout_of.py:179-209 | every line the member loop prints is at the walk's depth or deeper |
| LayoutProperties.NestedDepth | layout_of.py:197-208 | a member's output is at the walk's depth or deeper, and strictly deeper when it is a nested walk |
| LayoutProperties.NestedMarkers | layout_of.py:197-208 | a member's own output adds no hole or padding marker at the enclosing level |
| LayoutProperties.HoleMarkerBytes | layout_of.py:184-189 | a hole marker shows exactly the hole's bytes |
| LayoutProperties.PaddingMarkerBytes | layout_of.py:212-219 | a padding marker shows exactly the padding's bytes |
| LayoutProperties.ScanMarkers | layout_of.py:179-209 | the hole markers the loop prints at its level add up to the level's hole bytes; it prints no padding marker at its level |
| LayoutProperties.WalkMarkers | layout_of.py:153-223 | the hole and padding markers printed at a walk's own level add up to that level's holes and trailing padding |
| LayoutProperties.NonRecursiveTotalsMatchMarkers | layout_of.py:183-235 | unless the empty-base rule applies, the non-recursive totals equal the bytes shown by the hole and padding markers |
| LayoutProperties.EmptyBaseMarkers | layout_of.py:212-233 | the empty base class prints a 1-byte padding marker yet returns no padding |
| Commands.ParseLayoutArgs | layout_of.py:121-128 | arguments are accepted exactly when there is one, or two with `-r` first; recursion is on exactly for two; the target is the last argument; otherwise the usage error |
| Commands.Summary | layout_of.py:138-142 | at most one hole line, then at most one padding line, each exactly when recursive and its total is nonzero; the total size always, last |
| Commands.LayoutOf | layout_of.py:120-142 | a usage error exactly when the argument shape is wrong; otherwise an unresolvable target fails, a non-struct gives only the not-a-struct line, and a struct gives its walk followed by the summary of the walk's totals, ending with its size |
| Commands.InvokeLayout | layout_of.py:120-142 | running the command produces exactly the specified output or error |
| Commands.UsageBeforeResolution | layout_of.py:121-131 | a usage error is returned before resolution, whatever the resolver would answer |
| Commands.OffsetOf | layout_of.py:87-90 | one member's entry carries its name, is unresolved exactly when it has no bit position, and otherwise holds the byte containing its first bit |
| Commands.FieldOffsets | layout_of.py:86-90 | one entry per member in declaration order, with its name; unresolved exactly when the member has no bit position, else the byte holding its first bit |
| Commands.OffsetsOf | layout_of.py:74-91 | a usage error exactly when there is not one argument; an unresolvable target fails; a resolved target always succeeds, and the heading follows the header rule and the entries are the resolved type's members' offsets in declaration order |
| Commands.OffsetsMatchLayout | layout_of.py:82-90 | every member the walker visits is listed by `offsets-of` at the byte where the walker starts it |
| LayoutExamples.ExampleLaidOut | layout_of.py:179-182 | a static member is dropped and members declared out of order are visited by position |
| LayoutExamples.ExampleLevel | layout_of.py:183-209 | char at 0, int at 4, char at 8: coverage ends at byte 9 with 3 hole bytes |
| LayoutExamples.ExampleHoleAndPadding | layout_of.py:183-220 | char at 0, int at 4, char at 8 in a 12-byte struct: 3 bytes of holes and 3 bytes of padding |
| LayoutExamples.ExampleEmptyBase | layout_of.py:225-235 | an empty base class member adds no padding to the recursive totals |
| LayoutExamples.ExampleOffsets | layout_of.py:86-90 | offsets are listed in declaration order, with the static member marked |
| LayoutExamples.ExampleArguments | layout_of.py:121-128 | a lone `-r` is taken as the target; `-r` in second place is a usage error |
| LayoutExamples.ExampleTypedefName | layout_of.py:133-135 | a target that resolves to a typedef of a struct is reported as not a struct, although a member of that type would be walked |

## Left out

- Type resolution (`resolve_type`, layout_of.py:47-62) is a parameter of
  `LayoutOf`/`OffsetsOf`: a function from the argument to an optional
  type. Its lookup, expression evaluation, cv-stripping and typedef stripping
  belong to the debugger. A failed lookup becomes `Unresolvable`.
- Command registration, completion, `gdb.string_to_argv` tokenisation and the
  instantiation at layout_of.py:238-240 are debugger plumbing. The model starts
  from the argument list.
- Colours (`colors`, `_NESTING_COLOURS`), indentation (`_print_indented`),
  blank lines and exact text are not modelled. Each printed line is an event
  carrying its depth and its numbers or label.
- Printing is not a side effect here: the walker returns the events it would print.
- A member without a name, and an anonymous type, print as the text `None`
  (Python formats `None` with `%s`). An anonymous type's name never equals the
  display name, so its header always gets the ` (None)` suffix (layout_of.py:83,
  layout_of.py:169).
- The `field.type` truthiness test at layout_of.py:199 is not modelled: every
  member has a type in the snapshot.
- `offsets-of` on a type that is not a struct lists the type's members like any
  other (the debugger would raise on `fields()` of a scalar); that error is not modelled.
- The top-level struct check at layout_of.py:133 compares the code without
  stripping typedefs, as the source does. The resolver strips typedefs only
  when it evaluates an expression (layout_of.py:62); a lookup by type name
  returns the type as named (layout_of.py:55). So `layout-of` on the name of a
  typedef of a struct reports that it is not a class or struct. The model keeps
  this behaviour (`ExampleTypedefName`).
- GdbTypes.FieldEnd: its contract only says the end is not before the start;
  the end value (first byte plus the size of the member's type) is stated by
  `FieldLabel`, `MaxEnd` and `ScanCoverage`, which use it.
- The member loop's body is a separate method (`VisitMember`) rather than
  inline, so that each pass is proved on its own; it updates the same four
  accumulators as the source.
- Integers are unbounded, as Python's are.
