/**
 * The two debugger commands around the walker: `offsets-of <type>` lists each
 * member's byte offset, `layout-of [-r] <type>` prints the layout and the
 * totals. Type resolution belongs to the debugger and is a parameter here.
 */
module Commands {
  import opened Wrappers
  import opened GdbTypes
  import opened FieldOrder
  import opened Events
  import opened Layout

  datatype CommandError =
    | UsageError(message: string)   // wrong argument count or shape; nothing was resolved
    | Unresolvable(argument: string) // neither a type name nor an expression the debugger can evaluate

  const OffsetsUsage := "offsets-of takes exactly 1 argument."
  const LayoutUsage := "Usage: layout-of [-r] <type-or-variable>"

  /** The debugger's lookup of a type name or expression; None when it fails. */
  type Resolver = string -> Option<TypeDesc>

  /** What `layout-of` was asked to do. */
  datatype LayoutArgs = LayoutArgs(recursive: bool, target: string)

  /**
   * `-r` switches recursion on only as the first of exactly two arguments;
   * after that exactly one argument must remain.
   */
  function ParseLayoutArgs(argv: seq<string>): (r: Result<LayoutArgs, CommandError>)
    ensures r.Success? <==> |argv| == 1 || (|argv| == 2 && argv[0] == "-r")
    ensures r.Success? ==> r.value.recursive == (|argv| == 2) && r.value.target == argv[|argv| - 1]
    ensures r.Failure? ==> r.error == UsageError(LayoutUsage)
  {
    var recursive := |argv| == 2 && argv[0] == "-r";
    var rest := if recursive then argv[1..] else argv;
    if |rest| != 1 then Failure(UsageError(LayoutUsage))
    else Success(LayoutArgs(recursive, rest[0]))
  }

  /**
   * The lines after the layout: hole and padding totals only in recursive
   * mode and only when nonzero, then the type's size, always.
   */
  function Summary(recursive: bool, holes: nat, padding: nat, size: nat): (r: seq<Event>)
    ensures |r| == 1 + (if recursive && holes > 0 then 1 else 0) + (if recursive && padding > 0 then 1 else 0)
    ensures |r| >= 1 && r[|r| - 1] == TotalSize(size)
    ensures recursive && holes > 0 ==> r[0] == TotalHoles(holes)
    ensures recursive && padding > 0 ==> r[|r| - 2] == TotalPadding(padding)
    ensures TotalHoles(holes) in r <==> recursive && holes > 0
    ensures TotalPadding(padding) in r <==> recursive && padding > 0
    ensures forall e :: e in r ==> e == TotalHoles(holes) || e == TotalPadding(padding) || e == TotalSize(size)
  {
    (if recursive && holes > 0 then [TotalHoles(holes)] else [])
    + (if recursive && padding > 0 then [TotalPadding(padding)] else [])
    + [TotalSize(size)]
  }

  /** Everything `layout-of` prints for `argv`, or the error it stops with. */
  function LayoutOf(argv: seq<string>, resolve: Resolver): (r: Result<seq<Event>, CommandError>)
    ensures (r.Failure? && r.error.UsageError?) <==> ParseLayoutArgs(argv).Failure?
    ensures ParseLayoutArgs(argv).Failure? ==> r == Failure(UsageError(LayoutUsage))
    ensures ParseLayoutArgs(argv).Success? ==>
      var a := ParseLayoutArgs(argv).value;
      match resolve(a.target)
      case None => r == Failure(Unresolvable(a.target))
      case Some(t) =>
        if t.code != StructCode then r == Success([NotAStruct(NameText(t.name))])
        else
          var w := Walk(t, a.target, a.recursive, 0);
          && r == Success(w.events + Summary(a.recursive, w.holes, w.padding, t.sizeof))
          && r.value[|r.value| - 1] == TotalSize(t.sizeof)
    ensures r.Success? ==> |r.value| >= 1
    ensures r.Success? && r.value[|r.value| - 1].TotalSize? ==>
      exists t :: resolve(argv[|argv| - 1]) == Some(t) && t.code == StructCode && r.value[|r.value| - 1] == TotalSize(t.sizeof)
  {
    match ParseLayoutArgs(argv)
    case Failure(e) => Failure(e)
    case Success(args) =>
      match resolve(args.target)
      case None => Failure(Unresolvable(args.target))
      case Some(t) =>
        if t.code != StructCode then Success([NotAStruct(NameText(t.name))])
        else
          var w := Walk(t, args.target, args.recursive, 0);
          Success(w.events + Summary(args.recursive, w.holes, w.padding, t.sizeof))
  }

  /**
   * `layout-of` as the debugger runs it: check the arguments, resolve the
   * type, refuse non-structs, walk, then report the totals.
   */
  method InvokeLayout(argv: seq<string>, resolve: Resolver) returns (r: Result<seq<Event>, CommandError>)
    ensures r == LayoutOf(argv, resolve)
  {
    var args := ParseLayoutArgs(argv);
    if args.Failure? {
      return Failure(args.error);
    }
    var target := args.value.target;
    var resolved := resolve(target);
    if resolved.None? {
      return Failure(Unresolvable(target));
    }
    var t := resolved.value;
    if t.code != StructCode {
      return Success([NotAStruct(NameText(t.name))]);
    }
    var w := WalkType(t, target, args.value.recursive, 0);
    r := Success(w.events + Summary(args.value.recursive, w.holes, w.padding, t.sizeof));
  }

  /** A usage error is decided before, and whatever, the resolver would answer. */
  lemma UsageBeforeResolution(argv: seq<string>, resolve1: Resolver, resolve2: Resolver)
    requires !(|argv| == 1 || (|argv| == 2 && argv[0] == "-r"))
    ensures LayoutOf(argv, resolve1) == LayoutOf(argv, resolve2) == Failure(UsageError(LayoutUsage))
  {
  }

  /** One line of `offsets-of`. */
  datatype OffsetEntry =
    | Offset(name: string, byteOffset: nat) // "<name> => <byteOffset>"
    | Unresolved(name: string)              // "<name> => ? (static member?)"

  /** The heading and entries `offsets-of` prints. */
  datatype OffsetListing = OffsetListing(heading: string, entries: seq<OffsetEntry>)

  /** The entry for one member: unresolved without a bit position, else the byte holding its first bit. */
  function OffsetOf(f: Field): (r: OffsetEntry)
    ensures r.name == NameText(f.name)
    ensures r.Unresolved? <==> f.bitpos.None?
    ensures r.Offset? ==> r.byteOffset == BytePos(f) && r.byteOffset * 8 <= f.bitpos.value < r.byteOffset * 8 + 8
  {
    match f.bitpos
    case None => Unresolved(NameText(f.name))
    case Some(_) => Offset(NameText(f.name), BytePos(f))
  }

  /**
   * One entry per member, in declaration order: the byte containing the
   * member's first bit, or "unresolved" for members without a position.
   */
  function FieldOffsets(fields: seq<Field>): (r: seq<OffsetEntry>)
    ensures |r| == |fields|
    ensures forall i :: 0 <= i < |fields| ==>
      && r[i].name == NameText(fields[i].name)
      && (r[i].Unresolved? <==> fields[i].bitpos.None?)
      && (r[i].Offset? ==> r[i].byteOffset * 8 <= fields[i].bitpos.value < r[i].byteOffset * 8 + 8)
  {
    seq(|fields|, i requires 0 <= i < |fields| => OffsetOf(fields[i]))
  }

  /** Everything `offsets-of` prints for `argv`, or the error it stops with. */
  function OffsetsOf(argv: seq<string>, resolve: Resolver): (r: Result<OffsetListing, CommandError>)
    ensures (r.Failure? && r.error.UsageError?) <==> |argv| != 1
    ensures |argv| != 1 ==> r == Failure(UsageError(OffsetsUsage))
    ensures |argv| == 1 && resolve(argv[0]).None? ==> r == Failure(Unresolvable(argv[0]))
    ensures |argv| == 1 && resolve(argv[0]).Some? ==>
      var t := resolve(argv[0]).value;
      r == Success(OffsetListing(HeaderLabel(argv[0], t.name), FieldOffsets(t.fields)))
    ensures r.Success? ==> exists t ::
      && resolve(argv[0]) == Some(t)
      && r.value == OffsetListing(HeaderLabel(argv[0], t.name), FieldOffsets(t.fields))
    ensures r.Success? ==> exists t :: resolve(argv[0]) == Some(t) && |r.value.entries| == |t.fields|
  {
    if |argv| != 1 then Failure(UsageError(OffsetsUsage))
    else
      match resolve(argv[0])
      case None => Failure(Unresolvable(argv[0]))
      case Some(t) => Success(OffsetListing(HeaderLabel(argv[0], t.name), FieldOffsets(t.fields)))
  }

  /**
   * The offset lister and the layout walker agree: every member the walker
   * visits is listed by `offsets-of` at the byte the walker starts it at.
   */
  lemma OffsetsMatchLayout(fields: seq<Field>)
    ensures forall f :: f in LaidOut(fields) ==>
      exists i :: 0 <= i < |fields| && fields[i] == f && FieldOffsets(fields)[i] == Offset(NameText(f.name), BytePos(f))
  {
    forall f | f in LaidOut(fields)
      ensures exists i :: 0 <= i < |fields| && fields[i] == f && FieldOffsets(fields)[i] == Offset(NameText(f.name), BytePos(f))
    {
      var i :| 0 <= i < |fields| && fields[i] == f;
      assert FieldOffsets(fields)[i] == OffsetOf(f);
    }
  }
}
