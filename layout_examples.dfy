/**
 * Worked layouts: a struct declared out of order with a static member, an
 * empty base class, and what the two commands make of their arguments.
 */
module LayoutExamples {
  import opened Wrappers
  import opened GdbTypes
  import opened FieldOrder
  import opened Events
  import opened Layout
  import opened LayoutProperties
  import opened Commands

  const CharT := TypeDesc(Some("char"), 1, OtherCode, [])
  const IntT := TypeDesc(Some("int"), 4, OtherCode, [])
  const C := Field(Some("c"), Some(0), CharT)
  const I := Field(Some("i"), Some(32), IntT)
  const D := Field(Some("d"), Some(64), CharT)
  const K := Field(Some("k"), None, IntT)
  const S := TypeDesc(Some("S"), 12, StructCode, [I, K, C, D])

  /** The static member is dropped and the rest are visited by position. */
  lemma ExampleLaidOut()
    ensures LaidOut(S.fields) == [C, I, D]
  {
    var fs := [I, K, C, D];
    assert fs[..3] == [I, K, C] && fs[..3][..2] == [I, K] && fs[..3][..2][..1] == [I];
    assert Storage([I]) == [I];
    assert Storage([I, K]) == [I];
    assert Storage([I, K, C]) == [I, C];
    assert Storage(fs) == [I, C, D];
    var s := [I, C, D];
    assert s[..2] == [I, C] && s[..2][..1] == [I];
    assert SortByBitpos([I]) == [I];
    assert [I][..0] == [];
    assert Insert([I], C) == [C, I];
    assert SortByBitpos([I, C]) == [C, I];
    assert Insert([C, I], D) == [C, I, D];
  }

  /** The coverage end and hole bytes of the laid-out members of `S`. */
  lemma ExampleLevel()
    ensures MaxEnd([C, I, D]) == 9 && LevelHoles([C, I, D]) == 3
  {
    var fs := [C, I, D];
    assert fs[..2] == [C, I] && fs[..2][..1] == [C] && [C][..0] == [];
    assert MaxEnd([C]) == 1 && MaxEnd([C, I]) == 8;
    assert LevelHoles([C]) == 0;
    assert LevelHoles([C, I]) == 3;
  }

  /** `c` ends at byte 1, `i` starts at byte 4, `d` ends at byte 9 of 12. */
  lemma ExampleHoleAndPadding()
    ensures Walk(S, "S", false, 0).holes == 3
    ensures Walk(S, "S", false, 0).padding == 3
  {
    ExampleLaidOut();
    ExampleLevel();
    NonRecursiveTotals(S, "S", 0);
  }

  const Empty := TypeDesc(Some("Empty"), 1, StructCode, [])
  const B := Field(None, Some(0), Empty)
  const O := TypeDesc(Some("O"), 8, StructCode, [B, I])

  /** The members of `O` in visiting order, their coverage end and hole bytes. */
  lemma ExampleBaseLevel()
    ensures LaidOut(O.fields) == [B, I]
    ensures MaxEnd([B, I]) == 8 && LevelHoles([B, I]) == 3
  {
    var fs := [B, I];
    assert fs[..1] == [B] && [B][..0] == [];
    assert Storage([B]) == [B];
    assert Storage(fs) == fs;
    assert SortByBitpos([B]) == [B];
    assert Insert([B], I) == fs;
    assert LevelHoles([B]) == 0;
  }

  /** The empty base reports nothing of its own in recursive mode. */
  lemma ExampleBaseWalk()
    ensures Nested(O, B, true, 0).holes == 0 && Nested(O, B, true, 0).padding == 0
  {
    var name := FieldLabel(B);
    FieldlessType(Empty, name, true, 1);
    assert Nested(O, B, true, 0) == Walk(Empty, name, true, 1);
  }

  /** The `int` member of `O` is a plain line with no totals. */
  lemma ExampleIntLine()
    ensures Nested(O, I, true, 0).holes == 0 && Nested(O, I, true, 0).padding == 0
  {
    assert !IsStructCoded(IntT);
  }

  /** Neither member of `O` reports nested holes in recursive mode. */
  lemma ExampleBaseSubHoles()
    ensures SubHoles(O, [B, I], true, 0) == 0
  {
    var fs := [B, I];
    assert fs[..1] == [B] && [B][..0] == [] && fs[1] == I;
    ExampleBaseWalk();
    ExampleIntLine();
    assert SubHoles(O, [B], true, 0) == 0;
  }

  /** Neither member of `O` reports nested padding in recursive mode. */
  lemma ExampleBaseSubPadding()
    ensures SubPadding(O, [B, I], true, 0) == 0
  {
    var fs := [B, I];
    assert fs[..1] == [B] && [B][..0] == [] && fs[1] == I;
    ExampleBaseWalk();
    ExampleIntLine();
    assert SubPadding(O, [B], true, 0) == 0;
  }

  /** An empty base class at offset 0 contributes neither holes nor padding. */
  lemma ExampleEmptyBase()
    ensures Walk(O, "O", true, 0).holes == 3
    ensures Walk(O, "O", true, 0).padding == 0
  {
    assert RawHoles(O, true, 0) == 3 by {
      ExampleBaseLevel();
      ExampleBaseSubHoles();
    }
    assert RawPadding(O, true, 0) == 0 by {
      ExampleBaseLevel();
      ExampleBaseSubPadding();
    }
    WalkTotals(O, "O", true, 0);
  }

  /** `offsets-of` keeps declaration order and marks the static member. */
  lemma ExampleOffsets()
    ensures FieldOffsets(S.fields) == [Offset("i", 4), Unresolved("k"), Offset("c", 0), Offset("d", 8)]
  {
  }

  /** A lone `-r` is a type name; `-r` in second place is a usage error. */
  lemma ExampleArguments()
    ensures ParseLayoutArgs(["-r"]) == Success(LayoutArgs(false, "-r"))
    ensures ParseLayoutArgs(["S", "-r"]) == Failure(UsageError(LayoutUsage))
    ensures ParseLayoutArgs(["-r", "S"]) == Success(LayoutArgs(true, "S"))
  {
  }

  /** A typedef of a struct, as the debugger's lookup by type name returns it. */
  const Alias := TypeDesc(Some("T"), 4, TypedefCode(StructCode), [])

  /**
   * The top-level check does not look through typedefs: a name that the
   * lookup resolves to a typedef of a struct is reported as not a struct.
   */
  lemma ExampleTypedefName()
    ensures LayoutOf(["T"], _ => Some(Alias)) == Success([NotAStruct("T")])
    ensures IsStructCoded(Alias)
  {
  }
}
