/**
 * The snapshot of debugger type metadata the layout commands read.
 * A type is an immutable tree: a member's type is a subterm of its owner,
 * so recursion over nested members terminates structurally.
 */
module GdbTypes {
  import opened Wrappers

  /** The debugger's type code, as far as the commands distinguish it. */
  datatype TypeCode =
    | StructCode                      // a struct or class
    | TypedefCode(target: TypeCode)   // a typedef, naming the code of the type it aliases
    | OtherCode                       // anything else (scalars, pointers, unions, ...)

  /** A resolved type: display name (absent for anonymous types), byte size, code, members. */
  datatype TypeDesc = TypeDesc(name: Option<string>, sizeof: nat, code: TypeCode, fields: seq<Field>)

  /**
   * One member. `bitpos` is the member's position in BITS from the start of the
   * owner; it is absent for members without storage (static members).
   */
  datatype Field = Field(name: Option<string>, bitpos: Option<nat>, ftype: TypeDesc)

  /** The code with every typedef layer removed. */
  function StripTypedefs(c: TypeCode): (r: TypeCode)
    ensures !r.TypedefCode?
    ensures !c.TypedefCode? ==> r == c
  {
    match c
    case TypedefCode(target) => StripTypedefs(target)
    case _ => c
  }

  /** The code `c` under `n` layers of typedef. */
  function Aliased(n: nat, c: TypeCode): TypeCode
  {
    if n == 0 then c else TypedefCode(Aliased(n - 1, c))
  }

  /** Stripping sees through any number of typedef layers to the aliased code. */
  lemma {:induction false} StripAliased(n: nat, c: TypeCode)
    ensures StripTypedefs(Aliased(n, c)) == StripTypedefs(c)
  {
    if n > 0 {
      StripAliased(n - 1, c);
    }
  }

  /** True when the type, seen through its typedefs, is a struct or class. */
  predicate IsStructCoded(t: TypeDesc)
  {
    StripTypedefs(t.code) == StructCode
  }

  /** The sort key of a member: its bit position (0 for members without storage, which are never sorted). */
  function BitPos(f: Field): nat
  {
    match f.bitpos
    case Some(b) => b
    case None => 0
  }

  /** The member's first byte: the bit position floor-divided by 8. */
  function BytePos(f: Field): (b: nat)
    ensures b * 8 <= BitPos(f) < b * 8 + 8
  {
    BitPos(f) / 8
  }

  /** One past the member's last byte. */
  function FieldEnd(f: Field): (e: nat)
    ensures e >= BytePos(f)
  {
    BytePos(f) + f.ftype.sizeof
  }

  /** A name as "%s" formats it: an absent name prints as "None". */
  function NameText(n: Option<string>): string
  {
    match n
    case Some(s) => s
    case None => "None"
  }

  /** True when `s` is a non-empty string of decimal digits. */
  predicate IsDecimal(s: string)
  {
    |s| >= 1 && forall i :: 0 <= i < |s| ==> '0' <= s[i] <= '9'
  }

  /** The number a string of decimal digits spells, most significant digit first. */
  function DecimalValue(s: string): int
  {
    if s == [] then 0
    else 10 * DecimalValue(s[..|s| - 1]) + (s[|s| - 1] as int - '0' as int)
  }

  /**
   * Decimal rendering of a natural number, as "%d" formats it: digits that
   * spell `n`, with no leading zero.
   */
  function NatToString(n: nat): (s: string)
    ensures IsDecimal(s)
    ensures DecimalValue(s) == n
    ensures s[0] == '0' ==> s == "0"
    decreases n
  {
    if n < 10 then [Digit(n)]
    else
      var init := NatToString(n / 10);
      var s := init + [Digit(n % 10)];
      assert s[..|s| - 1] == init;
      s
  }

  function Digit(d: nat): (c: char)
    requires d < 10
    ensures '0' <= c <= '9'
    ensures c as int - '0' as int == d
  {
    "0123456789"[d]
  }
}
