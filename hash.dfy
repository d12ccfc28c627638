/** `assert_hash`: selecting, by the block count nb, the SHA block that holds the real
    digest of the mdoc, and constraining its repacked value to equal e. */
module Hash {
  import opened Gates
  import opened Repack

  datatype Option<T> = None | Some(value: T)

  /** h1 holds the packed digest wires `sig_sha_[b].h1` of every SHA block b:
      8 words per block, each of nv packed field elements (`kNv32Elts`). */
  predicate IsShaWitness(h1: seq<seq<seq<int>>>, nv: nat)
  {
    forall b :: 0 <= b < |h1| ==>
      |h1[b]| == 8 && forall i :: 0 <= i < 8 ==> |h1[b][i]| == nv
  }

  /** Σ_{b < n} [nb == b + 1] · h1[b][i][k]. */
  function MuxPrefix(nb: int, h1: seq<seq<seq<int>>>, nv: nat, n: nat, i: nat, k: nat): int
    requires IsShaWitness(h1, nv) && n <= |h1| && i < 8 && k < nv
  {
    if n == 0 then 0 else MuxPrefix(nb, h1, nv, n - 1, i, k) + Veq(nb, n) * h1[n - 1][i][k]
  }

  /** The packed digest with every element zero. */
  function ZeroPacked(nv: nat): seq<seq<int>>
  {
    seq(8, _ => seq(nv, _ => 0))
  }

  /** The block whose digest the mux selects: block nb - 1 when 1 <= nb <= |h1|, none otherwise. */
  function Selected(nb: int, h1: seq<seq<seq<int>>>, nv: nat): seq<seq<int>>
    requires IsShaWitness(h1, nv)
  {
    if 1 <= nb <= |h1| then h1[nb - 1] else ZeroPacked(nv)
  }

  /** Over the first n blocks exactly one indicator fires, that of block nb - 1, when 1 <= nb <= n. */
  lemma {:induction false} MuxPrefixSelects(nb: int, h1: seq<seq<seq<int>>>, nv: nat, n: nat, i: nat, k: nat)
    requires IsShaWitness(h1, nv) && n <= |h1| && i < 8 && k < nv
    ensures MuxPrefix(nb, h1, nv, n, i, k) == if 1 <= nb <= n then h1[nb - 1][i][k] else 0
  {
    if n > 0 {
      MuxPrefixSelects(nb, h1, nv, n - 1, i, k);
    }
  }

  /** The mux loop of assert_hash. x[i][k] is written at block 0 and only accumulated into at
      later blocks; the array holds None for a wire not yet written, so reading one is an error. */
  method MuxDigest(nb: Byte, h1: seq<seq<seq<int>>>, nv: nat) returns (x: seq<seq<int>>)
    requires |h1| >= 1 && IsShaWitness(h1, nv)
    ensures |x| == 8 && forall i :: 0 <= i < 8 ==> |x[i]| == nv
    ensures forall i, k :: 0 <= i < 8 && 0 <= k < nv ==> x[i][k] == MuxPrefix(nb, h1, nv, |h1|, i, k)
    ensures x == Selected(nb, h1, nv)
  {
    var a := new Option<int>[8, nv]((_, _) => None);
    var b := 0;
    while b < |h1|
      invariant 0 <= b <= |h1|
      invariant forall i, k :: 0 <= i < 8 && 0 <= k < nv ==>
        a[i, k] == if b == 0 then None else Some(MuxPrefix(nb, h1, nv, b, i, k))
    {
      var ebt := Veq(nb, b + 1);
      var i := 0;
      while i < 8
        invariant 0 <= i <= 8
        invariant forall i', k :: 0 <= i' < 8 && 0 <= k < nv ==>
          a[i', k] == if i' < i then Some(MuxPrefix(nb, h1, nv, b + 1, i', k))
                      else if b == 0 then None else Some(MuxPrefix(nb, h1, nv, b, i', k))
      {
        var k := 0;
        while k < nv
          invariant 0 <= k <= nv
          invariant forall i', k' :: 0 <= i' < 8 && 0 <= k' < nv ==>
            a[i', k'] == if i' < i || (i' == i && k' < k) then Some(MuxPrefix(nb, h1, nv, b + 1, i', k'))
                         else if b == 0 then None else Some(MuxPrefix(nb, h1, nv, b, i', k'))
        {
          if b == 0 {
            a[i, k] := Some(ebt * h1[b][i][k]);
          } else {
            var maybeSha := ebt * h1[b][i][k];
            a[i, k] := Some(a[i, k].value + maybeSha);
          }
          k := k + 1;
        }
        i := i + 1;
      }
      b := b + 1;
    }
    x := [];
    var i := 0;
    while i < 8
      invariant 0 <= i <= 8 && |x| == i
      invariant forall i', k :: 0 <= i' < i && 0 <= k < nv ==> |x[i']| == nv && x[i'][k] == MuxPrefix(nb, h1, nv, |h1|, i', k)
      invariant forall i' :: 0 <= i' < i ==> |x[i']| == nv
    {
      var row := [];
      var k := 0;
      while k < nv
        invariant 0 <= k <= nv && |row| == k
        invariant forall k' :: 0 <= k' < k ==> row[k'] == MuxPrefix(nb, h1, nv, |h1|, i, k')
      {
        row := row + [a[i, k].value];
        k := k + 1;
      }
      x := x + [row];
      i := i + 1;
    }
    var sel := Selected(nb, h1, nv);
    assert |sel| == 8;
    forall i | 0 <= i < 8
      ensures x[i] == sel[i]
    {
      assert |sel[i]| == nv;
      forall k | 0 <= k < nv
        ensures x[i][k] == sel[i][k]
      {
        MuxPrefixSelects(nb, h1, nv, |h1|, i, k);
      }
    }
  }

  /** The 8 words of a packed digest, each unpacked to its 32 bit wires by `unpack_v32`. */
  function Unpacked(x: seq<seq<int>>, unpack: seq<int> -> seq<int>): (hj: seq<seq<int>>)
    requires |x| == 8
    requires forall w :: |unpack(w)| == 32
    ensures IsDigestBits(hj)
  {
    seq(8, i requires 0 <= i < 8 => unpack(x[i]))
  }

  /** assert_hash: the constraint holds iff e equals the repacked digest of block nb - 1,
      or, when nb names no block, the repacked all-zero mux output. */
  method AssertHash(e: int, nb: Byte, h1: seq<seq<seq<int>>>, nv: nat, unpack: seq<int> -> seq<int>)
    returns (holds: bool)
    requires |h1| >= 1 && IsShaWitness(h1, nv)
    requires forall w :: |unpack(w)| == 32
    ensures holds <==> e == RepackValue(Unpacked(Selected(nb, h1, nv), unpack))
  {
    var x := MuxDigest(nb, h1, nv);
    var h := Repack32(Unpacked(x, unpack));
    holds := AssertEq(h, e);
  }
}
