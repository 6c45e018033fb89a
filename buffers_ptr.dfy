/** The slotted page reference of the `buffers` layer: a page number plus a
    byte offset inside that page, with the derived `Default`, `Eq` and `Ord`. */
module BuffersPtr {
  import opened Prim

  datatype ItemPtr = ItemPtr(page_no: i32, offset: usize)

  /** `ItemPtr::new`. */
  function New(page_no: i32, offset: usize): (r: ItemPtr)
    ensures r.page_no == page_no && r.offset == offset
  {
    ItemPtr(page_no, offset)
  }

  /** The derived `Default`: page -1 (no page), offset 0. */
  function Default(): (r: ItemPtr)
    ensures r.page_no == -1 && r.offset == 0
  {
    ItemPtr(-1, 0)
  }

  /** The derived `Ord::cmp`: fields in declaration order, the first one that
      differs decides. */
  function Cmp(a: ItemPtr, b: ItemPtr): Ordering {
    match CmpInt(a.page_no as int, b.page_no as int)
    case Equal => CmpInt(a.offset as int, b.offset as int)
    case o => o
  }

  /** `a < b` from the derived `PartialOrd`. */
  predicate Lt(a: ItemPtr, b: ItemPtr) {
    Cmp(a, b) == Less
  }

  /** `a <= b` from the derived `PartialOrd`. */
  predicate Le(a: ItemPtr, b: ItemPtr) {
    Cmp(a, b) != Greater
  }

  /** An independent reading of the order: each pointer as one integer, the
      page number in the high digits and the offset in the low 64 bits. */
  function Rank(a: ItemPtr): int {
    (a.page_no as int + 0x8000_0000) * 0x1_0000_0000_0000_0000 + a.offset as int
  }

  /** Pointers on a lower page have a lower rank, whatever the offsets. */
  lemma RankPageDominates(a: ItemPtr, b: ItemPtr)
    requires a.page_no < b.page_no
    ensures Rank(a) < Rank(b)
  {
    var m := 0x1_0000_0000_0000_0000;
    var pa := a.page_no as int + 0x8000_0000;
    var pb := b.page_no as int + 0x8000_0000;
    assert pa + 1 <= pb;
    assert Rank(a) < pa * m + m == (pa + 1) * m;
    assert (pa + 1) * m <= pb * m <= Rank(b);
  }

  /** The derived order is exactly the integer order of the ranks. */
  lemma CmpMatchesRank(a: ItemPtr, b: ItemPtr)
    ensures Cmp(a, b) == CmpInt(Rank(a), Rank(b))
  {
    if a.page_no < b.page_no {
      RankPageDominates(a, b);
    } else if b.page_no < a.page_no {
      RankPageDominates(b, a);
    }
  }

  /** Distinct pointers have distinct ranks. */
  lemma RankInjective(a: ItemPtr, b: ItemPtr)
    requires Rank(a) == Rank(b)
    ensures a == b
  {
    CmpMatchesRank(a, b);
  }

  /** `<` compares `page_no` first and lets `offset` break ties. */
  lemma LtIsLexicographic(a: ItemPtr, b: ItemPtr)
    ensures Lt(a, b) <==> a.page_no < b.page_no || (a.page_no == b.page_no && a.offset < b.offset)
  {
  }

  /** The derived `Eq` and the derived `Ord` agree: `cmp` says `Equal` exactly
      when both fields are equal. */
  lemma CmpEqualIffSameFields(a: ItemPtr, b: ItemPtr)
    ensures Cmp(a, b) == Equal <==> (a.page_no == b.page_no && a.offset == b.offset)
  {
  }

  /** Comparing the other way round reverses the answer. */
  lemma CmpAntisymmetric(a: ItemPtr, b: ItemPtr)
    ensures Cmp(b, a) == Reverse(Cmp(a, b))
  {
    CmpMatchesRank(a, b);
    CmpMatchesRank(b, a);
  }

  /** Exactly one of `a < b`, `a == b`, `b < a` holds. */
  lemma Trichotomy(a: ItemPtr, b: ItemPtr)
    ensures (Lt(a, b) || a == b || Lt(b, a))
    ensures !(Lt(a, b) && a == b) && !(Lt(a, b) && Lt(b, a)) && !(a == b && Lt(b, a))
  {
    CmpMatchesRank(a, b);
    CmpMatchesRank(b, a);
    if Rank(a) == Rank(b) {
      RankInjective(a, b);
    }
  }

  /** `<` is transitive. */
  lemma {:induction false} LtTransitive(a: ItemPtr, b: ItemPtr, c: ItemPtr)
    requires Lt(a, b) && Lt(b, c)
    ensures Lt(a, c)
  {
    CmpMatchesRank(a, b);
    CmpMatchesRank(b, c);
    CmpMatchesRank(a, c);
  }

  /** `<=` is antisymmetric. */
  lemma LeAntisymmetric(a: ItemPtr, b: ItemPtr)
    requires Le(a, b) && Le(b, a)
    ensures a == b
  {
    CmpMatchesRank(a, b);
    CmpMatchesRank(b, a);
    RankInjective(a, b);
  }

  /** `<=` is total. */
  lemma LeTotal(a: ItemPtr, b: ItemPtr)
    ensures Le(a, b) || Le(b, a)
  {
    CmpAntisymmetric(a, b);
  }

  /** The default pointer is the one the constructor builds from (-1, 0), and
      it precedes every other pointer on page -1. */
  lemma DefaultIsFirstOnNullPage(o: usize)
    ensures Default() == New(-1, 0)
    ensures Le(Default(), New(-1, o))
  {
  }
}
