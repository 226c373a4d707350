/** rb_parent_color: how include/lib/rbtree.h keeps a parent pointer and a colour in one word. */
module RbPacked {
  type Word = bv32

  function ParentOf(w: Word): Word { w & 0xFFFF_FFFC }

  function ColorOf(w: Word): Word { w & 1 }

  function SetParent(w: Word, p: Word): Word { (w & 3) | p }

  function SetColor(w: Word, c: Word): Word { (w & 0xFFFF_FFFE) | c }

  function SetRed(w: Word): Word { w & 0xFFFF_FFFE }

  function SetBlack(w: Word): Word { w | 1 }

  /** Storing a parent is read back, whatever the word held before, iff the two low bits of the
      pointer are clear, and then the colour is untouched. */
  lemma ParentRoundTrip(w: Word, p: Word)
    ensures ParentOf(SetParent(w, p)) == p <==> p & 3 == 0
    ensures p & 3 == 0 ==> ColorOf(SetParent(w, p)) == ColorOf(w)
  {
  }

  /** Painting red is read back, leaves the parent untouched and is rb_set_color with 0. */
  lemma RedRoundTrip(w: Word)
    ensures ColorOf(SetRed(w)) == 0 && ParentOf(SetRed(w)) == ParentOf(w)
    ensures SetRed(w) == SetColor(w, 0)
  {
  }

  /** Painting black is read back, leaves the parent untouched and is rb_set_color with 1. */
  lemma BlackRoundTrip(w: Word)
    ensures ColorOf(SetBlack(w)) == 1 && ParentOf(SetBlack(w)) == ParentOf(w)
    ensures SetBlack(w) == SetColor(w, 1)
  {
  }
}
