/** The page reference of the B-link tree layer: a page number only, with
    -1 as the null sentinel given by the derived `Default`. */
module LehmanYaoPtr {
  import opened Prim

  datatype ItemPtr = ItemPtr(page_no: i32)

  /** The null/unset page number. */
  const NULL_PAGE: i32 := -1

  /** `ItemPtr::new`. */
  function New(page_no: i32): (r: ItemPtr)
    ensures r.page_no == page_no
  {
    ItemPtr(page_no)
  }

  /** The derived `Default`: the null sentinel. */
  function Default(): (r: ItemPtr)
    ensures r.page_no == NULL_PAGE
  {
    ItemPtr(-1)
  }

  /** The derived `Ord::cmp`: the one field decides. */
  function Cmp(a: ItemPtr, b: ItemPtr): Ordering {
    CmpInt(a.page_no as int, b.page_no as int)
  }

  /** `a < b` from the derived `PartialOrd`. */
  predicate Lt(a: ItemPtr, b: ItemPtr) {
    Cmp(a, b) == Less
  }

  /** `a <= b` from the derived `PartialOrd`. */
  predicate Le(a: ItemPtr, b: ItemPtr) {
    Cmp(a, b) != Greater
  }

  /** Pointers are ordered as their page numbers. */
  lemma LtIffPageLess(a: ItemPtr, b: ItemPtr)
    ensures Lt(a, b) <==> a.page_no < b.page_no
  {
  }

  /** The derived `Eq` and `Ord` agree: `cmp` says `Equal` exactly for equal
      page numbers, which is pointer equality. */
  lemma CmpEqualIffSamePage(a: ItemPtr, b: ItemPtr)
    ensures Cmp(a, b) == Equal <==> a.page_no == b.page_no
    ensures a.page_no == b.page_no <==> a == b
  {
  }

  /** Comparing the other way round reverses the answer. */
  lemma CmpAntisymmetric(a: ItemPtr, b: ItemPtr)
    ensures Cmp(b, a) == Reverse(Cmp(a, b))
  {
  }

  /** Exactly one of `a < b`, `a == b`, `b < a` holds. */
  lemma Trichotomy(a: ItemPtr, b: ItemPtr)
    ensures (Lt(a, b) || a == b || Lt(b, a))
    ensures !(Lt(a, b) && a == b) && !(Lt(a, b) && Lt(b, a)) && !(a == b && Lt(b, a))
  {
  }

  /** `<` is transitive. */
  lemma LtTransitive(a: ItemPtr, b: ItemPtr, c: ItemPtr)
    requires Lt(a, b) && Lt(b, c)
    ensures Lt(a, c)
  {
  }

  /** `<=` is total and antisymmetric. */
  lemma LeTotalAntisymmetric(a: ItemPtr, b: ItemPtr)
    ensures Le(a, b) || Le(b, a)
    ensures Le(a, b) && Le(b, a) ==> a == b
  {
  }

  /** The default pointer is `new(-1)`, and the null sentinel sorts before
      every pointer to a real (non-negative) page. */
  lemma DefaultIsNullAndFirst(p: ItemPtr)
    requires p.page_no >= 0
    ensures Default() == New(NULL_PAGE)
    ensures Lt(Default(), p)
  {
  }
}
