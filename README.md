# mdoc_1f helpers: a Dafny model

`lib/circuits/mdoc/mdoc_1f.h` builds the circuit that checks an ISO mdoc credential.
Most of that file wires values into gadgets defined elsewhere: ECDSA, SHA-256, CBOR
parsing and byte routing. This project models the file's own sequential logic. Every
wire is identified with the integer it carries. The logic-circuit primitives are plain
definitions in module `Gates`:

- `veq` and `vlt` are 0/1 indicators.
- `eq` is byte equality.
- `axpy(h, a, b)` is `h + a*b`.
- `assert_implies` and `assert_eq` are predicates that say when the constraint holds.

Modules:

- `Repack` (`repack.dfy`): `repack32` folds the 8 x 32 unpacked bits of a SHA-256 digest
  into one number. It is a loop over a running sum `h` and a doubling weight `twok`,
  proved against the specification `RepackValue`, with lemmas on bit weights and the
  256-bit bound.
- `Hash` (`hash.dfy`): `assert_hash`. It muxes the packed digest of SHA block `nb - 1`
  into the buffer `x` in place, repacks it and compares it with `e`. The buffer holds
  `None` until a wire is written, so the verifier also proves that no unwritten wire is read.
- `Attribute` (`attribute.dfy`): `assert_attribute`, bounded prefix equality of bytes.
- `Path` (`path.dfy`): `assert_path`, the chain of CBOR map lookups. It is modelled as the
  ordered list of constraints it emits: a `MapEntry` lookup and a `TextAt` key check per entry.
- `MdocWitness` (`witness.dfy`): the `Witness` class. It covers the container sizes set by
  the constructor and which elements `input` allocates circuit inputs for.

The sizes `kMdoc1MaxSHABlocks`, `kMdoc1MaxMsoLen`, `kCose1PrefixLen` and `kNv32Elts` are
defined in headers that are not part of this model. They are parameters here:

- the `Constants` datatype carries the first three;
- in `Hash`, the number of blocks is `|h1|` and the packed width is `nv`.

`unpack_v32` is a gadget that is not part of this model. It is a function parameter
`unpack` whose results have 32 elements.

## Model

| member | source | states |
|---|---|---|
| `Repack.Repack32` | lib/circuits/mdoc/mdoc_1f.h:281-292 | The loop over words 7 down to 0 and bits 0 to 31, with `h += twok * bit` and `twok` doubling, returns `RepackValue`: the bits in folding order, bit t weighted 2^t. Its invariants say `twok` is 2^(bits folded) and `h` is the weighted sum of those bits. |
| `Repack.FoldAt` | lib/circuits/mdoc/mdoc_1f.h:284-289 | Bit k of word i is the (32·(7−i)+k)-th bit folded. |
| `Repack.RepackWeight` | lib/circuits/mdoc/mdoc_1f.h:284-289 | Adding d to bit k of word j adds d·2^(32·(7−j)+k) to the repacked value, for every input. |
| `Repack.RepackUnit` | lib/circuits/mdoc/mdoc_1f.h:284-289 | A digest whose only set bit is bit k of word j repacks to exactly 2^(32·(7−j)+k). |
| `Repack.RepackEndWeights` | lib/circuits/mdoc/mdoc_1f.h:284-289 | Bit 0 of H[7] has weight 1 and bit 31 of H[0] has weight 2^255. |
| `Repack.RepackBound` | lib/circuits/mdoc/mdoc_1f.h:282-291 | When every unpacked wire is a bit, the repacked value lies in [0, 2^256). |
| `Hash.MuxPrefixSelects` | lib/circuits/mdoc/mdoc_1f.h:301-314 | After the first n blocks, the accumulated sum of [nb == b+1]·h1[b] equals h1[nb−1] when 1 ≤ nb ≤ n, and 0 otherwise. |
| `Hash.MuxDigest` | lib/circuits/mdoc/mdoc_1f.h:300-314 | The in-place mux loop. Each x[i][k] is written at block 0 and only accumulated into later, and no unwritten entry is read. The result is the packed digest of block nb−1 when 1 ≤ nb ≤ kMdoc1MaxSHABlocks, and all zero otherwise. |
| `Hash.AssertHash` | lib/circuits/mdoc/mdoc_1f.h:299-318 | The constraint holds iff e equals repack32 of the unpacked digest of block nb−1. When nb names no block, it holds iff e equals repack32 of the unpacked all-zero buffer. |
| `Attribute.AssertAttribute` | lib/circuits/mdoc/mdoc_1f.h:322-330 | The conjunction of `assert_implies(vlt(j, len), eq(got[j], want[j]))` for j < max holds iff got[j] == want[j] for every j < min(len, max). |
| `Attribute.AttributeIgnoresTail` | lib/circuits/mdoc/mdoc_1f.h:325-329 | Bytes at positions j ≥ len do not affect whether the constraints hold. |
| `Attribute.AttributeEmpty` | lib/circuits/mdoc/mdoc_1f.h:325-329 | len = 0 imposes nothing. |
| `Path.AssertPath` | lib/circuits/mdoc/mdoc_1f.h:332-343 | The loop that reassigns `start` emits exactly `PathConstraints` of the first len entries, in index order. |
| `Path.PathConstraintsAt` | lib/circuits/mdoc/mdoc_1f.h:335-342 | Entry i contributes two constraints. The first is a map lookup at level i, in the map at `prepad_` for i = 0 and at `p[i−1].ind.v` otherwise. The second requires the key at `p[i].ind.k` to be the text `p[i].name` of length `p[i].l`. There are 2·len constraints in all. |
| `Path.PathChained` | lib/circuits/mdoc/mdoc_1f.h:335-342 | Each lookup after the first starts at the value position found by the previous lookup. The key it finds is the position the text check inspects. |
| `MdocWitness.Witness.constructor` | lib/circuits/mdoc/mdoc_1f.h:106-118 | `attr_sha_`, `attrb_`, `attr_mso_`, `attr_ei_` and `attr_ev_` have num_attr elements. Each `attr_sha_[i]` is resized to 2. `incb_` and `pwcb_` have kMdoc1MaxMsoLen elements. `in_` has 64·kMdoc1MaxSHABlocks elements and `sig_sha_` has kMdoc1MaxSHABlocks, and nothing is input yet. |
| `MdocWitness.Witness.Input` | lib/circuits/mdoc/mdoc_1f.h:120-172 | Fills exactly the first 64·kMdoc1MaxSHABlocks − kCose1PrefixLen positions of `in_` (none if the prefix is longer), every `sig_sha_` block and every `pwcb_` selector. It appends 128 bytes to each `attrb_[ai]` and inputs both SHA blocks and the three indices of every attribute. `incb_` is left alone, and all sizes are kept. |
| `MdocWitness.ConstructAndInput` | lib/circuits/mdoc/mdoc_1f.h:106-172 | After construction and `input`, every `attrb_[ai]` has exactly 128 bytes and the other sizes are as above. |

## Left out

- The field: wires are integers and field reduction is not modelled. repack32 over a
  256-bit prime field would reduce a value ≥ p; the bound lemma is about the integer value.
- ECDSA verification (`verify_signature3`, FIPS 186-5 section 6.4): a foreign gadget over curve arithmetic.
- The SHA-256 circuit and bit plucker (`assert_message_with_prefix`, `assert_message`,
  `unpack_v32`; FIPS 180-4 section 6.2): foreign gadgets. `unpack_v32` is a parameter.
- CBOR decoding and parsing (`decode_and_assert_decode_and_parse`, `assert_map_entry`,
  `assert_text_at`, the date, negative and big-endian checks; RFC 8949 section 3): foreign
  gadgets. `assert_path` records the `assert_map_entry` and `assert_text_at` calls it makes as data.
- `assert_credential` is left out: it wires the helpers to the gadgets, `Routing::shift` and
  `unshift`, and the offsets into the COSE_Sign1 Sig_structure (RFC 9052 section 4.4). Its three
  two-entry `PathEntry` tables are instances of `Path.AssertPath` with len = 2.
- Wire allocation (`Q.input()`, `vinput`) is foreign code. In `Witness`, an element is `Set` once
  its inputs are allocated, and the wires themselves are not modelled. The scalar fields
  (`e_`, `dpkx_`, `dpky_`, `sig_`, `dpk_sig_`, `nb_`, `prepad_`, `mso_len_`, `gwcb_` and the
  nine `CborIndex` members) are left out because they have no size.
- `veq` on the 8-bit `nb_` compares values. A block count above 255 is not considered.
- `Hash.MuxDigest` requires at least one SHA block. With zero blocks the source would read
  the buffer `x` without ever writing it.
