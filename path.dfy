/** `assert_path`: a chain of CBOR map lookups in the MSO. Entry i is looked up, at nesting
    level i, in the map that starts where the previous entry's value starts (entry 0 in the
    map at `prepad_`), and its key must be the expected text. */
module Path {
  import opened Gates

  /** `CborIndex`: positions of a map entry's key, its value, and the entry's index in the map. */
  datatype CborIndex = CborIndex(k: nat, v: nat, ndx: nat)

  /** `PathEntry`: where the entry is found, and the name its key must spell (length l). */
  datatype PathEntry = PathEntry(ind: CborIndex, l: nat, name: seq<Byte>)

  /** The CBOR gadget constraints assert_path emits, as data: `assert_map_entry` and `assert_text_at`. */
  datatype Constraint =
    | MapEntry(start: nat, level: nat, k: nat, v: nat, ndx: nat)
    | TextAt(pos: nat, len: nat, name: seq<Byte>)

  /** Where the map searched for entry i begins. */
  function Parent(prepad: nat, p: seq<PathEntry>, i: nat): nat
    requires i < |p|
  {
    if i == 0 then prepad else p[i - 1].ind.v
  }

  /** The constraints of a whole path, built entry by entry from the last one back. */
  function PathConstraints(prepad: nat, p: seq<PathEntry>): seq<Constraint>
  {
    if |p| == 0 then []
    else
      var n := |p| - 1;
      PathConstraints(prepad, p[..n])
        + [MapEntry(Parent(prepad, p, n), n, p[n].ind.k, p[n].ind.v, p[n].ind.ndx),
           TextAt(p[n].ind.k, p[n].l, p[n].name)]
  }

  /** The loop of assert_path, with `start` reassigned after each entry. */
  method AssertPath(len: nat, p: seq<PathEntry>, prepad: nat) returns (cs: seq<Constraint>)
    requires len <= |p|
    ensures cs == PathConstraints(prepad, p[..len])
  {
    var start := prepad;
    cs := [];
    var i := 0;
    while i < len
      invariant 0 <= i <= len
      invariant start == if i == 0 then prepad else p[i - 1].ind.v
      invariant cs == PathConstraints(prepad, p[..i])
    {
      assert p[..i + 1][..i] == p[..i];
      cs := cs + [MapEntry(start, i, p[i].ind.k, p[i].ind.v, p[i].ind.ndx),
                  TextAt(p[i].ind.k, p[i].l, p[i].name)];
      start := p[i].ind.v;
      i := i + 1;
    }
  }

  /** Entry i contributes, at positions 2i and 2i + 1, the lookup at level i in the map found by
      the previous entry and the check that the key found is the entry's name. */
  lemma {:induction false} PathConstraintsAt(prepad: nat, p: seq<PathEntry>, i: nat)
    requires i < |p|
    ensures |PathConstraints(prepad, p)| == 2 * |p|
    ensures PathConstraints(prepad, p)[2 * i]
      == MapEntry(if i == 0 then prepad else p[i - 1].ind.v, i, p[i].ind.k, p[i].ind.v, p[i].ind.ndx)
    ensures PathConstraints(prepad, p)[2 * i + 1] == TextAt(p[i].ind.k, p[i].l, p[i].name)
    decreases |p|
  {
    var n := |p| - 1;
    PathLength(prepad, p[..n]);
    if i < n {
      PathConstraintsAt(prepad, p[..n], i);
    }
  }

  lemma {:induction false} PathLength(prepad: nat, p: seq<PathEntry>)
    ensures |PathConstraints(prepad, p)| == 2 * |p|
    decreases |p|
  {
    if |p| > 0 {
      PathLength(prepad, p[..|p| - 1]);
    }
  }

  /** The chain: each lookup after the first starts where the previous lookup's value is. */
  lemma PathChained(prepad: nat, p: seq<PathEntry>, i: nat)
    requires 0 < i < |p|
    ensures |PathConstraints(prepad, p)| == 2 * |p|
    ensures PathConstraints(prepad, p)[2 * i].MapEntry? && PathConstraints(prepad, p)[2 * (i - 1)].MapEntry?
    ensures PathConstraints(prepad, p)[2 * i + 1].TextAt?
    ensures PathConstraints(prepad, p)[2 * i].start == PathConstraints(prepad, p)[2 * (i - 1)].v
    ensures PathConstraints(prepad, p)[2 * i].k == PathConstraints(prepad, p)[2 * i + 1].pos
  {
    PathConstraintsAt(prepad, p, i);
    PathConstraintsAt(prepad, p, i - 1);
  }
}
