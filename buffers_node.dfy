/** B-link tree nodes of the `buffers` layer: construction, and packing into
    and out of a 512-byte page through a byte serializer. */
module BuffersNode {
  import opened Prim
  import P = BuffersPtr
  import B = Buffers

  /** Node keys; the source is generic over any `Ord + Copy` key type. */
  type Key = int

  datatype Node = Node(
    leaf: bool,
    order: u32,
    loc: P.ItemPtr,
    link: P.ItemPtr,
    high_key: Key,
    keys: seq<Key>,
    children: seq<P.ItemPtr>)

  /** The byte serializer the node delegates to. Either direction may fail;
      nothing is assumed about how the two relate. */
  datatype Codec = Codec(serialize: Node -> Option<seq<u8>>, deserialize: seq<u8> -> Option<Node>)

  /** `Node::encode`. */
  function Encode(c: Codec, n: Node): Option<seq<u8>> {
    c.serialize(n)
  }

  /** `Node::decode`. */
  function Decode(c: Codec, bytes: seq<u8>): Option<Node> {
    c.deserialize(bytes)
  }

  /** `keys.iter().max()` on a non-empty sequence. */
  function MaxKey(keys: seq<Key>): (m: Key)
    requires |keys| > 0
    ensures m in keys
    ensures forall i :: 0 <= i < |keys| ==> keys[i] <= m
  {
    if |keys| == 1 then keys[0]
    else
      var rest := MaxKey(keys[1..]);
      if keys[0] <= rest then rest else keys[0]
  }

  /** `Node::new`: a leaf whose high key is the largest key. The arguments are
      stored as given; `keys` is not sorted and `children` may have any
      length. An empty `keys` makes the source panic. */
  function NewNode(order: u32, loc: P.ItemPtr, link: P.ItemPtr, keys: seq<Key>, children: seq<P.ItemPtr>): (n: Node)
    requires |keys| > 0
    ensures n.leaf
    ensures n.high_key in keys
    ensures forall i :: 0 <= i < |keys| ==> keys[i] <= n.high_key
    ensures n.order == order && n.loc == loc && n.link == link
    ensures n.keys == keys && n.children == children
  {
    Node(true, order, loc, link, MaxKey(keys), keys, children)
  }

  /** `k` zero bytes. */
  function Zeros(k: nat): seq<u8> {
    seq(k, _ => 0)
  }

  /** The page layout `into_buffer` produces: the encoding, then zeros up to
      512 bytes. */
  function PackPage(enc: seq<u8>): (page: B.Page)
    requires |enc| <= B.PAGE_SIZE
    ensures page[..|enc|] == enc
    ensures forall i :: |enc| <= i < B.PAGE_SIZE ==> page[i] == 0
  {
    enc + Zeros(B.PAGE_SIZE - |enc|)
  }

  /** Pages of encodings of one length are equal only when the encodings are. */
  lemma PackPageInjective(e1: seq<u8>, e2: seq<u8>)
    requires |e1| == |e2| <= B.PAGE_SIZE
    requires PackPage(e1) == PackPage(e2)
    ensures e1 == e2
  {
    assert e1 == PackPage(e1)[..|e1|];
  }

  /** `Node::into_buffer`: a zero-filled 512-byte buffer whose prefix is
      overwritten with the encoding. An encoding failure (the `unwrap`) or an
      encoding longer than the page (the out-of-range slice) panics. */
  method IntoBuffer(c: Codec, n: Node) returns (page: B.Page)
    requires Encode(c, n).Some?
    requires |Encode(c, n).value| <= B.PAGE_SIZE
    ensures page == PackPage(Encode(c, n).value)
    ensures page[..|Encode(c, n).value|] == Encode(c, n).value
    ensures forall i :: |Encode(c, n).value| <= i < B.PAGE_SIZE ==> page[i] == 0
  {
    var bytes := Encode(c, n).value;
    var buf := new u8[B.PAGE_SIZE](_ => 0);
    var i := 0;
    while i < |bytes|
      invariant 0 <= i <= |bytes|
      invariant forall j :: 0 <= j < i ==> buf[j] == bytes[j]
      invariant forall j :: i <= j < B.PAGE_SIZE ==> buf[j] == 0
    {
      buf[i] := bytes[i];
      i := i + 1;
    }
    page := buf[..];
    assert page == PackPage(bytes) by {
      var packed := PackPage(bytes);
      forall j | 0 <= j < B.PAGE_SIZE
        ensures page[j] == packed[j]
      {
        if j < |bytes| {
          assert packed[j] == packed[..|bytes|][j];
        }
      }
    }
  }

  /** `Node::from_buffer`: decodes the whole page, padding included. A decode
      failure (the `unwrap`) panics. */
  function FromBuffer(c: Codec, page: B.Page): (n: Node)
    requires Decode(c, page).Some?
    ensures c.deserialize(page) == Some(n)
  {
    Decode(c, page).value
  }

  /** A codec that reads back the node from its encoding followed by any run
      of zero bytes. */
  ghost predicate PaddingTolerant(c: Codec) {
    forall n: Node, k: nat ::
      c.serialize(n).Some? ==> c.deserialize(c.serialize(n).value + Zeros(k)) == Some(n)
  }

  /** With such a codec, `from_buffer` undoes `into_buffer`. */
  lemma IntoThenFromBuffer(c: Codec, n: Node)
    requires PaddingTolerant(c)
    requires Encode(c, n).Some? && |Encode(c, n).value| <= B.PAGE_SIZE
    ensures Decode(c, PackPage(Encode(c, n).value)).Some?
    ensures FromBuffer(c, PackPage(Encode(c, n).value)) == n
  {
    var enc := Encode(c, n).value;
    var pad := Zeros(B.PAGE_SIZE - |enc|);
    assert PackPage(enc) == enc + pad;
    assert c.deserialize(c.serialize(n).value + pad) == Some(n);
  }

  /** The plain round-trip law, decoding exactly what was encoded, for every
      node, does not give that: here is a codec that obeys it and still fails
      to decode the padded page `into_buffer` makes of `n`. */
  lemma ExactRoundTripIsNotEnough(n: Node)
    ensures exists c: Codec ::
      && (forall m: Node :: Encode(c, m).Some? ==> Decode(c, Encode(c, m).value) == Some(m))
      && Encode(c, n).Some? && |Encode(c, n).value| <= B.PAGE_SIZE
      && Decode(c, PackPage(Encode(c, n).value)) == None
  {
    var c := Codec(m => if m == n then Some([]) else None, bytes => if bytes == [] then Some(n) else None);
    assert PackPage([]) != [];
    assert Encode(c, n).Some? && Decode(c, Encode(c, n).value) == Some(n);
    assert Decode(c, PackPage(Encode(c, n).value)) == None;
  }

  /** The page made of an empty encoding is the all-zero page. */
  lemma PackEmptyIsZeroPage()
    ensures PackPage([]) == B.ZeroPage()
  {
  }

  /** The demo node built from keys 1, 2, 3, 4 has high key 4. */
  lemma DemoNodeHighKey()
    ensures NewNode(2, P.New(1, 2), P.New(2, 3), [1, 2, 3, 4],
                    [P.New(3, 4), P.New(4, 5), P.New(6, 7), P.New(7, 8), P.New(8, 9)]).high_key == 4
  {
    var keys: seq<Key> := [1, 2, 3, 4];
    var n := NewNode(2, P.New(1, 2), P.New(2, 3), keys,
                     [P.New(3, 4), P.New(4, 5), P.New(6, 7), P.New(7, 8), P.New(8, 9)]);
    assert keys[3] <= n.high_key;
  }
}
