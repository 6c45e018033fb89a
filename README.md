# Data layer of a Lehman–Yao B-link tree

This project models the part of the concurrent B-link tree repository that
exists as code: the tree node and its packing into a 512-byte disk page, the
two page-reference types (`ItemPtr`), and the buffer-pool frame record.

- `Prim` (`prim.dfy`): Rust's `i32`, `u32`, `usize` (64-bit) and `u8` as
  newtypes, `Option`, `std::cmp::Ordering` and the integer `cmp`.
- `BuffersPtr` (`buffers_ptr.dfy`): `ItemPtr { page_no, offset }` of
  `src/buffers/ptr/mod.rs`. `Cmp` is the derived `Ord`: it compares
  `page_no` first and then `offset`. `Lt` and `Le` are the derived `<` and
  `<=`. The order is also shown to be the integer order of `Rank`, which puts
  the page number in the high digits and the offset in the low 64 bits. Totality,
  antisymmetry and transitivity follow from that.
- `LehmanYaoPtr` (`lehman_yao_ptr.dfy`): `ItemPtr { page_no }` of
  `src/lehman_yao/ptr/mod.rs`. Its default `-1` is the null sentinel.
- `Buffers` (`buffers.dfy`): the 512-byte `Page`, the `BufferPoolFrame`
  record, its constructor and its hand-written `PartialEq`, which compares
  `page_no` only.
- `BuffersNode` (`buffers_node.dfy`): `Node`, `Node::new`, `into_buffer` and
  `from_buffer`. The bincode serializer is a `Codec` value, a pair of
  function values (`serialize`, `deserialize`) passed to every operation that
  uses it. `Encode` and `Decode` are the plain delegations `Node::encode` and
  `Node::decode` to it, so they carry no contract of their own. Nothing is
  assumed about how the two directions relate. `IntoThenFromBuffer` states a
  condition on the codec under which `from_buffer` undoes `into_buffer`, and
  `ExactRoundTripIsNotEnough` shows that the plain law `decode(encode(m)) == m`,
  even for every node `m`, does not give it, because `from_buffer` decodes the zero padding too.
  `into_buffer` is a method: it fills a fresh 512-element array with zeros and
  copies the encoding into its prefix in a loop. The result is returned as a
  value, like the Rust array.

Where the code panics (`unwrap` on an empty key vector, on a failed encode or
decode, and the out-of-range slice for an encoding longer than 512 bytes), the
model has a precondition. The code does not truncate: the slice `node_buf[..n]`
panics for `n > 512`. The model follows the code.

## Model

| member | source | states |
|---|---|---|
| `BuffersPtr.New` | src/buffers/ptr/mod.rs:16-20 | the pointer holds the given page number and offset |
| `BuffersPtr.Default` | src/buffers/ptr/mod.rs:8-14 | the default pointer is page -1, offset 0 |
| `BuffersPtr.Cmp` | src/buffers/ptr/mod.rs:5-14 | the derived `Ord::cmp`: `page_no` decides unless equal, then `offset` |
| `BuffersPtr.Lt` | src/buffers/ptr/mod.rs:6 | the derived `<`: `cmp` is `Less` |
| `BuffersPtr.Le` | src/buffers/ptr/mod.rs:6 | the derived `<=`: `cmp` is not `Greater` |
| `BuffersPtr.RankPageDominates` | src/buffers/ptr/mod.rs:5-14 | a lower page number gives a lower rank whatever the offsets |
| `BuffersPtr.CmpMatchesRank` | src/buffers/ptr/mod.rs:5-14 | the derived order equals the integer order of the rank (page number high, offset low) |
| `BuffersPtr.RankInjective` | src/buffers/ptr/mod.rs:5-14 | distinct pointers have distinct ranks |
| `BuffersPtr.LtIsLexicographic` | src/buffers/ptr/mod.rs:5-14 | `a < b` iff the page number is smaller, or equal with a smaller offset |
| `BuffersPtr.CmpEqualIffSameFields` | src/buffers/ptr/mod.rs:5-6 | `cmp` is `Equal` iff both fields are equal, so derived `Eq` and `Ord` agree |
| `BuffersPtr.CmpAntisymmetric` | src/buffers/ptr/mod.rs:6 | comparing in the other order reverses the result |
| `BuffersPtr.Trichotomy` | src/buffers/ptr/mod.rs:6 | exactly one of `<`, `==`, `>` holds |
| `BuffersPtr.LtTransitive` | src/buffers/ptr/mod.rs:6 | `<` is transitive |
| `BuffersPtr.LeAntisymmetric` | src/buffers/ptr/mod.rs:6 | `a <= b` and `b <= a` imply `a == b` |
| `BuffersPtr.LeTotal` | src/buffers/ptr/mod.rs:6 | any two pointers are comparable with `<=` |
| `BuffersPtr.DefaultIsFirstOnNullPage` | src/buffers/ptr/mod.rs:8-20 | the default equals `new(-1, 0)` and is `<=` every pointer on page -1 |
| `LehmanYaoPtr.New` | src/lehman_yao/ptr/mod.rs:18-22 | the pointer holds the given page number |
| `LehmanYaoPtr.Default` | src/lehman_yao/ptr/mod.rs:12-16 | the default pointer is the null sentinel -1 |
| `LehmanYaoPtr.Cmp` | src/lehman_yao/ptr/mod.rs:9-16 | the derived `Ord::cmp`: the integer comparison of `page_no` |
| `LehmanYaoPtr.Lt` | src/lehman_yao/ptr/mod.rs:10 | the derived `<`: `cmp` is `Less` |
| `LehmanYaoPtr.Le` | src/lehman_yao/ptr/mod.rs:10 | the derived `<=`: `cmp` is not `Greater` |
| `LehmanYaoPtr.LtIffPageLess` | src/lehman_yao/ptr/mod.rs:9-16 | `a < b` iff `a.page_no < b.page_no` |
| `LehmanYaoPtr.CmpEqualIffSamePage` | src/lehman_yao/ptr/mod.rs:10 | `cmp` is `Equal` iff the page numbers are equal, which is pointer equality |
| `LehmanYaoPtr.CmpAntisymmetric` | src/lehman_yao/ptr/mod.rs:10 | comparing in the other order reverses the result |
| `LehmanYaoPtr.Trichotomy` | src/lehman_yao/ptr/mod.rs:10 | exactly one of `<`, `==`, `>` holds |
| `LehmanYaoPtr.LtTransitive` | src/lehman_yao/ptr/mod.rs:10 | `<` is transitive |
| `LehmanYaoPtr.LeTotalAntisymmetric` | src/lehman_yao/ptr/mod.rs:10 | `<=` is total and antisymmetric |
| `LehmanYaoPtr.DefaultIsNullAndFirst` | src/lehman_yao/ptr/mod.rs:12-21 | the default equals `new(-1)` and sorts before every pointer to a non-negative page |
| `Buffers.ZeroPage` | src/buffers/node.rs:52 | an all-zero 512-byte page (the `[0u8; 512]` buffer; `PackEmptyIsZeroPage` ties it to the page layout) |
| `Buffers.FrameEq` | src/buffers/mod.rs:53-57 | the hand-written `PartialEq`: frames are equal when their page numbers are |
| `Buffers.NewFrame` | src/buffers/mod.rs:29-37 | a new frame is clean and unpinned, holds the given page number and page, and its page is 512 bytes |
| `Buffers.FrameEqIsIdentityOfPage` | src/buffers/mod.rs:53-57 | frames are equal iff they coincide once dirty flag, pins and bytes are forgotten |
| `Buffers.FrameEqIgnoresState` | src/buffers/mod.rs:53-57 | changing the dirty flag, pin count or bytes of a frame keeps it equal to itself |
| `Buffers.FrameEqIsNotStructural` | src/buffers/mod.rs:53-57 | there are equal frames that are structurally different |
| `Buffers.FrameEqReflexive` | src/buffers/mod.rs:55 | frame equality is reflexive |
| `Buffers.FrameEqSymmetric` | src/buffers/mod.rs:55 | frame equality is symmetric |
| `Buffers.FrameEqTransitive` | src/buffers/mod.rs:55 | frame equality is transitive |
| `BuffersNode.Encode` | src/buffers/node.rs:23-25 | `Node::encode`: delegates to the serializer, which may fail |
| `BuffersNode.Decode` | src/buffers/node.rs:27-29 | `Node::decode`: delegates to the deserializer, which may fail |
| `BuffersNode.MaxKey` | src/buffers/node.rs:38 | the maximum of a non-empty key sequence is one of its keys and is at least every key |
| `BuffersNode.NewNode` | src/buffers/node.rs:31-48 | for non-empty keys: a leaf whose high key is the maximum key, with order, loc, link, keys and children stored unchanged |
| `BuffersNode.PackPage` | src/buffers/node.rs:52-54 | the page layout: the encoding as prefix, zeros after it, 512 bytes in all |
| `BuffersNode.PackPageInjective` | src/buffers/node.rs:52-54 | pages of same-length encodings are equal only if the encodings are |
| `BuffersNode.IntoBuffer` | src/buffers/node.rs:50-55 | when encoding succeeds with at most 512 bytes, the result is the 512-byte page whose prefix is the encoding and whose rest is zero |
| `BuffersNode.FromBuffer` | src/buffers/node.rs:57-59 | the node is what the deserializer makes of the whole 512-byte page, padding included, when it succeeds |
| `BuffersNode.IntoThenFromBuffer` | src/buffers/node.rs:50-59 | with a codec that tolerates trailing zero bytes, `from_buffer` undoes `into_buffer` |
| `BuffersNode.ExactRoundTripIsNotEnough` | src/buffers/node.rs:50-59 | a codec with `decode(encode(m)) == m` for every node `m` can still fail to decode the padded page of `n` |
| `BuffersNode.PackEmptyIsZeroPage` | src/buffers/node.rs:52-54 | the page of an empty encoding is the all-zero `[0u8; 512]` buffer |
| `BuffersNode.DemoNodeHighKey` | src/main.rs:25-31 | the demo node built from keys 1, 2, 3, 4 has high key 4 |

## Left out

- Node keys are `int`. The source is generic over any `Ord + Copy` key type; the demo uses `i32`/`u32`.
- The bincode serializer (`src/buffers/encoding/bytes.rs`, `src/lehman_yao/encoding/bytes.rs`) is not modelled; it is a parameter of no known behaviour. No round-trip law and no byte layout are assumed.
- Panics are preconditions: `Node::new` on an empty key vector, `into_buffer` on a failed or oversized encoding, `from_buffer` on a failed decode.
- `Display` implementations: formatting only.
- `src/buffers/fsutil/io.rs`: file open and positional `write_at`/`read_at`, which is I/O.
- `src/lehman_yao/page_table/mod.rs`: only a lock-wrapped map type and a constructor of the empty map; there are no lookup, insert or remove operations to model, and the locking is concurrency.
- `src/lehman_yao/alg/insert.rs`: imports only; there is no search or insert code, so the Lehman–Yao algorithm is not modelled.
- The `BufferPool` type alias (`src/buffers/mod.rs:62`): concurrency wrappers with no operations; there is no fetch, unpin, flush or eviction code.
- `src/main.rs`: the demo driver. Besides printing, it sorts a vector of `ItemPtr`s (covered by the order lemmas, not by a model of the sort) and runs its node through `into_buffer` and `from_buffer`, decoding it as `Node<u32>` (keys are not typed apart here, and the serializer is a parameter). Its node is used as an example lemma.
