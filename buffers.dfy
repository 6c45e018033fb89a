/** Pages and buffer-pool frames of the `buffers` layer. */
module Buffers {
  import opened Prim

  /** Size in bytes of a disk page. */
  const PAGE_SIZE: nat := 512

  /** A page is exactly 512 contiguous bytes. */
  type Page = s: seq<u8> | |s| == PAGE_SIZE witness seq(512, _ => 0)

  /** An all-zero page. */
  function ZeroPage(): (p: Page)
    ensures forall i :: 0 <= i < PAGE_SIZE ==> p[i] == 0
  {
    seq(PAGE_SIZE, _ => 0)
  }

  /** A frame: whether its page was modified since it was read, how many times
      it was pinned, which disk page it holds, and the page itself. */
  datatype BufferPoolFrame = BufferPoolFrame(dirty: bool, pins: i32, page_no: i32, page: Page)

  /** `BufferPoolFrame::new`: a clean, unpinned frame holding `page` as page
      number `page_no`. */
  function NewFrame(page_no: i32, page: Page): (f: BufferPoolFrame)
    ensures !f.dirty && f.pins == 0
    ensures f.page_no == page_no && f.page == page
    ensures |f.page| == PAGE_SIZE
  {
    BufferPoolFrame(false, 0, page_no, page)
  }

  /** The hand-written `PartialEq`: frames are the same frame when they hold
      the same page number. */
  predicate FrameEq(a: BufferPoolFrame, b: BufferPoolFrame) {
    a.page_no == b.page_no
  }

  /** Frame equality is the identity of the page number: it holds exactly when
      the two frames agree once dirty flag, pin count and bytes are forgotten. */
  lemma FrameEqIsIdentityOfPage(a: BufferPoolFrame, b: BufferPoolFrame)
    ensures FrameEq(a, b) <==> NewFrame(a.page_no, ZeroPage()) == NewFrame(b.page_no, ZeroPage())
  {
  }

  /** Changing a frame's dirty flag, pin count or bytes keeps it equal to
      itself. */
  lemma FrameEqIgnoresState(f: BufferPoolFrame, dirty: bool, pins: i32, page: Page)
    ensures FrameEq(f, f.(dirty := dirty, pins := pins, page := page))
  {
  }

  /** Frame equality is weaker than structural equality: two frames for page 0
      that differ in everything else are equal. */
  lemma FrameEqIsNotStructural()
    ensures exists a: BufferPoolFrame, b: BufferPoolFrame :: FrameEq(a, b) && a != b
  {
    var a := NewFrame(0, ZeroPage());
    var b := a.(dirty := true, pins := 1);
    assert FrameEq(a, b) && a != b;
  }

  /** Frame equality is reflexive, */
  lemma FrameEqReflexive(a: BufferPoolFrame)
    ensures FrameEq(a, a)
  {
  }

  /** symmetric */
  lemma FrameEqSymmetric(a: BufferPoolFrame, b: BufferPoolFrame)
    requires FrameEq(a, b)
    ensures FrameEq(b, a)
  {
  }

  /** and transitive: an equivalence relation. */
  lemma FrameEqTransitive(a: BufferPoolFrame, b: BufferPoolFrame, c: BufferPoolFrame)
    requires FrameEq(a, b) && FrameEq(b, c)
    ensures FrameEq(a, c)
  {
  }
}
