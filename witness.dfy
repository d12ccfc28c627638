/** The layout of `mdoc_1f::Witness`: which containers it holds, how large they are once
    constructed, and which of their elements `input` allocates circuit inputs for. */
module MdocWitness {
  /** Compile-time sizes: `kMdoc1MaxSHABlocks`, `kMdoc1MaxMsoLen`, `kCose1PrefixLen`. */
  datatype Constants = Constants(maxShaBlocks: nat, maxMsoLen: nat, cose1PrefixLen: nat)

  /** A container element: Unset until `input` has allocated its circuit inputs. */
  datatype Slot = Unset | Set

  /** Each attribute's opened preimage is two SHA-256 blocks of 64 bytes. */
  const AttrBytes: nat := 64 * 2

  /** How many positions of `in_` the input loop fills: i ranges over i + prefix < 64 * blocks. */
  function InputByteCount(c: Constants): nat
  {
    if c.cose1PrefixLen < 64 * c.maxShaBlocks then 64 * c.maxShaBlocks - c.cose1PrefixLen else 0
  }

  /** `std::vector::resize(n)` on a vector of default-constructed elements. */
  function Resize(s: seq<Slot>, n: nat): (r: seq<Slot>)
    ensures |r| == n
    ensures forall i :: 0 <= i < n ==> r[i] == if i < |s| then s[i] else Unset
  {
    if n <= |s| then s[..n] else s + seq(n - |s|, _ => Unset)
  }

  class Witness {
    const consts: Constants
    const numAttr: nat
    /** `in_[64 * kMdoc1MaxSHABlocks]`, the signed bytes after the COSE prefix. */
    const inBytes: array<Slot>
    /** `sig_sha_[kMdoc1MaxSHABlocks]`, one SHA block witness per block. */
    const sigSha: array<Slot>
    var attrSha: seq<seq<Slot>>
    var attrb: seq<seq<Slot>>
    var attrMso: seq<Slot>
    var attrEi: seq<Slot>
    var attrEv: seq<Slot>
    var incb: seq<Slot>
    var pwcb: seq<Slot>

    /** The sizes every witness keeps from construction on. */
    ghost predicate Valid()
      reads this
    {
      && |attrSha| == numAttr && (forall i :: 0 <= i < numAttr ==> |attrSha[i]| == 2)
      && |attrb| == numAttr && |attrMso| == numAttr && |attrEi| == numAttr && |attrEv| == numAttr
      && |incb| == consts.maxMsoLen && |pwcb| == consts.maxMsoLen
      && inBytes.Length == 64 * consts.maxShaBlocks && sigSha.Length == consts.maxShaBlocks
      && inBytes != sigSha
    }

    /** `Witness(size_t num_attr)`: every per-attribute vector has num_attr elements,
        each `attr_sha_[i]` is resized to 2, the CBOR vectors have `kMdoc1MaxMsoLen`
        elements, and nothing has been input yet. */
    constructor (numAttr: nat, consts: Constants)
      ensures Valid() && fresh(inBytes) && fresh(sigSha)
      ensures this.numAttr == numAttr && this.consts == consts
      ensures forall i :: 0 <= i < numAttr ==> attrSha[i] == [Unset, Unset]
      ensures forall i :: 0 <= i < numAttr ==> attrb[i] == []
      ensures attrMso == attrEi == attrEv == seq(numAttr, _ => Unset)
      ensures incb == pwcb == seq(consts.maxMsoLen, _ => Unset)
      ensures forall i :: 0 <= i < inBytes.Length ==> inBytes[i] == Unset
      ensures forall j :: 0 <= j < sigSha.Length ==> sigSha[j] == Unset
    {
      var sha: seq<seq<Slot>> := seq(numAttr, _ => []);
      var i := 0;
      while i < numAttr
        invariant 0 <= i <= numAttr && |sha| == numAttr
        invariant forall i' :: 0 <= i' < i ==> sha[i'] == [Unset, Unset]
        invariant forall i' :: i <= i' < numAttr ==> sha[i'] == []
      {
        sha := sha[i := Resize(sha[i], 2)];
        i := i + 1;
      }
      this.numAttr := numAttr;
      this.consts := consts;
      attrSha := sha;
      attrb := seq(numAttr, _ => []);
      attrMso := seq(numAttr, _ => Unset);
      attrEi := seq(numAttr, _ => Unset);
      attrEv := seq(numAttr, _ => Unset);
      incb := seq(consts.maxMsoLen, _ => Unset);
      pwcb := seq(consts.maxMsoLen, _ => Unset);
      inBytes := new Slot[64 * consts.maxShaBlocks](_ => Unset);
      sigSha := new Slot[consts.maxShaBlocks](_ => Unset);
    }

    /** `input`: allocates the bytes of `in_` that follow the COSE prefix, every SHA block
        witness, the header selector of every CBOR position, and per attribute 128 opened
        bytes (appended), its two SHA block witnesses and its three CBOR indices. */
    method Input()
      requires Valid()
      modifies this, inBytes, sigSha
      ensures Valid()
      ensures forall i :: 0 <= i < inBytes.Length ==>
        inBytes[i] == if i < InputByteCount(consts) then Set else old(inBytes[i])
      ensures forall j :: 0 <= j < sigSha.Length ==> sigSha[j] == Set
      ensures incb == old(incb)
      ensures pwcb == seq(consts.maxMsoLen, _ => Set)
      ensures forall ai :: 0 <= ai < numAttr ==> attrb[ai] == old(attrb[ai]) + seq(AttrBytes, _ => Set)
      ensures forall ai :: 0 <= ai < numAttr ==> attrSha[ai] == [Set, Set]
      ensures attrMso == attrEi == attrEv == seq(numAttr, _ => Set)
    {
      var i := 0;
      while i + consts.cose1PrefixLen < 64 * consts.maxShaBlocks
        invariant 0 <= i <= InputByteCount(consts)
        modifies inBytes
        invariant forall i' :: 0 <= i' < inBytes.Length ==>
          inBytes[i'] == if i' < i then Set else old(inBytes[i'])
      {
        inBytes[i] := Set;
        i := i + 1;
      }

      var j := 0;
      while j < consts.maxShaBlocks
        invariant 0 <= j <= consts.maxShaBlocks
        modifies sigSha
        invariant forall j' :: 0 <= j' < sigSha.Length ==> sigSha[j'] == if j' < j then Set else old(sigSha[j'])
        invariant forall i' :: 0 <= i' < inBytes.Length ==>
          inBytes[i'] == if i' < InputByteCount(consts) then Set else old(inBytes[i'])
      {
        sigSha[j] := Set;
        j := j + 1;
      }

      i := 0;
      while i < consts.maxMsoLen
        invariant 0 <= i <= consts.maxMsoLen && |pwcb| == consts.maxMsoLen
        invariant attrSha == old(attrSha) && attrb == old(attrb) && incb == old(incb)
        invariant attrMso == old(attrMso) && attrEi == old(attrEi) && attrEv == old(attrEv)
        modifies this
        invariant forall i' :: 0 <= i' < i ==> pwcb[i'] == Set
      {
        pwcb := pwcb[i := Set];
        i := i + 1;
      }
      assert pwcb == seq(consts.maxMsoLen, _ => Set);

      var ai := 0;
      while ai < numAttr
        invariant 0 <= ai <= numAttr && Valid() && incb == old(incb)
        invariant pwcb == seq(consts.maxMsoLen, _ => Set)
        invariant forall j' :: 0 <= j' < sigSha.Length ==> sigSha[j'] == Set
        invariant forall i' :: 0 <= i' < inBytes.Length ==>
          inBytes[i'] == if i' < InputByteCount(consts) then Set else old(inBytes[i'])
        invariant forall a :: 0 <= a < numAttr ==>
          attrb[a] == if a < ai then old(attrb[a]) + seq(AttrBytes, _ => Set) else old(attrb[a])
        invariant forall a :: 0 <= a < ai ==> attrSha[a] == [Set, Set]
        invariant forall a :: 0 <= a < ai ==> attrMso[a] == attrEi[a] == attrEv[a] == Set
        modifies this
      {
        var bytes := attrb[ai];
        var k := 0;
        while k < AttrBytes
          invariant 0 <= k <= AttrBytes
          invariant bytes == old(attrb[ai]) + seq(k, _ => Set)
        {
          bytes := bytes + [Set];
          k := k + 1;
        }
        attrb := attrb[ai := bytes];
        var blocks := attrSha[ai];
        var b := 0;
        while b < 2
          invariant 0 <= b <= 2 && |blocks| == 2
          invariant forall b' :: 0 <= b' < b ==> blocks[b'] == Set
        {
          blocks := blocks[b := Set];
          b := b + 1;
        }
        attrSha := attrSha[ai := blocks];
        assert attrSha[ai] == [Set, Set];
        attrMso := attrMso[ai := Set];
        attrEi := attrEi[ai := Set];
        attrEv := attrEv[ai := Set];
        ai := ai + 1;
      }
    }
  }

  /** A witness after construction and `input`: the sizes the circuit relies on. */
  method ConstructAndInput(numAttr: nat, consts: Constants) returns (w: Witness)
    ensures fresh(w) && w.Valid() && w.numAttr == numAttr && w.consts == consts
    ensures |w.attrSha| == |w.attrb| == |w.attrMso| == |w.attrEi| == |w.attrEv| == numAttr
    ensures forall i :: 0 <= i < numAttr ==> |w.attrSha[i]| == 2
    ensures forall i :: 0 <= i < numAttr ==> |w.attrb[i]| == AttrBytes
    ensures |w.incb| == |w.pwcb| == consts.maxMsoLen
    ensures forall i :: 0 <= i < w.inBytes.Length ==> (w.inBytes[i] == Set <==> i < InputByteCount(consts))
  {
    w := new Witness(numAttr, consts);
    w.Input();
  }
}
