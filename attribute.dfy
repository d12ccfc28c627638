/** `assert_attribute`: the opened attribute bytes must match the expected ones on the
    first len positions of a window of max bytes. */
module Attribute {
  import opened Gates

  /** The conjunction of the constraints `assert_implies(vlt(j, len), eq(got[j], want[j]))`
      for j < max: exactly prefix equality up to min(len, max). */
  function AssertAttribute(max: nat, len: nat, got: seq<Byte>, want: seq<Byte>): (holds: bool)
    requires |got| >= max && |want| >= max
    ensures holds <==> forall j :: 0 <= j < max && j < len ==> got[j] == want[j]
  {
    forall j :: 0 <= j < max ==> AssertImplies(Vlt(j, len), EqBytes(got[j], want[j]))
  }

  /** Bytes at positions j >= len are unconstrained: changing them does not change the verdict. */
  lemma AttributeIgnoresTail(max: nat, len: nat, got: seq<Byte>, got': seq<Byte>, want: seq<Byte>)
    requires |got| >= max && |got'| >= max && |want| >= max
    requires forall j :: 0 <= j < max && j < len ==> got[j] == got'[j]
    ensures AssertAttribute(max, len, got, want) == AssertAttribute(max, len, got', want)
  {
  }

  /** A zero length imposes nothing. */
  lemma AttributeEmpty(max: nat, got: seq<Byte>, want: seq<Byte>)
    requires |got| >= max && |want| >= max
    ensures AssertAttribute(max, 0, got, want)
  {
  }
}
