/** The cursor arithmetic of `run` and `loop`: the pair (cursor,
    lastTotalPages), where `cursor` is the catalog page still to be walked
    (counted from the newest end, walked down toward page 1) and
    `lastTotalPages` the catalog total seen at the last reconciliation.
    The catalog grows at the front, so growth pushes old pages back. */
module Cursor {

  datatype CursorState = CursorState(cursor: int, lastTotalPages: int)

  function Min(a: int, b: int): int { if a <= b then a else b }

  /** `x > hi && (x = hi)` */
  function ClampTo(x: int, hi: int): (r: int)
    ensures r == Min(x, hi)
  {
    if x > hi then hi else x
  }

  /** The start of `run`: a zero cursor takes the current total for both
      fields; otherwise growth of the total moves the cursor back by the
      growth, clamped to the current total. A total that did not grow leaves
      both fields as they were, even when it shrank. */
  function Reconcile(s: CursorState, curr: int): (r: CursorState)
    ensures s.cursor == 0 ==> r == CursorState(curr, curr)
    ensures s.cursor != 0 && s.lastTotalPages < curr ==>
      r == CursorState(Min(s.cursor + (curr - s.lastTotalPages), curr), curr)
    ensures s.cursor != 0 && curr <= s.lastTotalPages ==> r == s
  {
    var first := if s.cursor == 0 then CursorState(curr, curr) else s;
    if first.lastTotalPages < curr then
      CursorState(ClampTo(first.cursor + (curr - first.lastTotalPages), curr), curr)
    else first
  }

  /** Whether the start of `run` writes the cursor file. */
  predicate ReconcileWrites(s: CursorState, curr: int) {
    s.cursor == 0 || s.lastTotalPages < curr
  }

  /** Growth seen while walking a page: reconcile against the page's total,
      then step one page further back. */
  function Regrow(s: CursorState, pages: int): (r: CursorState)
    ensures s.lastTotalPages < pages ==>
      r == CursorState(Min(s.cursor + (pages - s.lastTotalPages), pages) + 1, pages)
    ensures pages <= s.lastTotalPages ==> r == s
  {
    if s.lastTotalPages < pages then
      var moved := ClampTo(s.cursor + (pages - s.lastTotalPages), pages);
      CursorState(moved + 1, pages)
    else s
  }

  /** The net effect of a page walked to its end: one page toward the front
      when no growth was seen; with growth, the extra step and the final
      decrement cancel, leaving the reconciled position. */
  function AfterPage(s: CursorState, pages: int): (r: CursorState)
    ensures s.lastTotalPages < pages ==>
      r == CursorState(Min(s.cursor + (pages - s.lastTotalPages), pages), pages)
    ensures pages <= s.lastTotalPages ==> r == s.(cursor := s.cursor - 1)
  {
    var grown := Regrow(s, pages);
    grown.(cursor := grown.cursor - 1)
  }

  /** The `finally` of `run`: a cursor at or below zero is reset to 1. */
  function Finish(s: CursorState): (r: CursorState)
    ensures r.cursor >= 1 && r.lastTotalPages == s.lastTotalPages
    ensures s.cursor <= 0 ==> r.cursor == 1
    ensures s.cursor >= 1 ==> r == s
  {
    if s.cursor <= 0 then s.(cursor := 1) else s
  }

  /** The range the code keeps the pair in: a total never below 0, a cursor
      never below 0 and at most one past the last seen total. */
  ghost predicate InRange(s: CursorState) {
    0 <= s.lastTotalPages && 0 <= s.cursor <= s.lastTotalPages + 1
  }

  /** Reconciling against a non-negative total keeps the range; when it
      grew or started from zero, the cursor is at most the current total. */
  lemma ReconcileInRange(s: CursorState, curr: int)
    requires InRange(s) && 0 <= curr
    ensures InRange(Reconcile(s, curr))
    ensures ReconcileWrites(s, curr) ==> Reconcile(s, curr).cursor <= curr
  {
  }

  /** A worked case: cursor 5 after a total of 10 becomes 8 when the total
      is 13. */
  lemma ReconcileExample()
    ensures Reconcile(CursorState(5, 10), 13) == CursorState(8, 13)
  {
  }

  /** The code does not clamp when the total shrinks: the cursor may then
      lie past the current total. */
  lemma ReconcileShrinkNoClamp()
    ensures Reconcile(CursorState(5, 10), 3) == CursorState(5, 10)
  {
  }

  /** Growth seen at a page the sweep was allowed to walk keeps the range
      and leaves a cursor of at least 1 to retry from; the total never
      decreases. */
  lemma RegrowInRange(s: CursorState, pages: int)
    requires InRange(s) && 1 <= s.cursor && 0 <= pages
    ensures InRange(Regrow(s, pages)) && 1 <= Regrow(s, pages).cursor
    ensures s.lastTotalPages <= Regrow(s, pages).lastTotalPages
  {
  }

  /** The reset of `finally` keeps the range. */
  lemma FinishInRange(s: CursorState)
    requires InRange(s)
    ensures InRange(Finish(s))
  {
  }
}
