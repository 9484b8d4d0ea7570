/**
  The squares of the board the player sees, and the two flag commands.

  The game stores the visible board as one-character strings: "." for a
  covered square, "F" for a flag, " " for an uncovered square with no mine
  around it, a digit "1" .. "8" for an uncovered square with mines around
  it, and "X" for a shown mine.
*/
module Cells {

  datatype Cell = Hidden | Flagged | Blank | Number(n: int) | Mine
  {
    /** The squares a reveal leaves alone: a flag or an uncovered blank. */
    predicate Settled() { Flagged? || Blank? }

    /** The squares the win check counts: neither covered, flagged nor a shown mine. */
    predicate Uncovered() { Blank? || Number? }
  }

  /** The "flag" command: a covered square gets a flag, a flag is taken away,
      an uncovered square is left as it is. */
  function Flag(c: Cell): (r: Cell)
    ensures r.Flagged? <==> c.Hidden?
    ensures r.Hidden? <==> c.Flagged?
    ensures !c.Hidden? && !c.Flagged? ==> r == c
  {
    if c != Hidden then
      if c == Flagged then Hidden else c
    else
      Flagged
  }

  /** The "unflag" command: a flag is taken away, anything else is left as it is. */
  function Unflag(c: Cell): (r: Cell)
    ensures !r.Flagged?
    ensures r.Hidden? <==> c.Hidden? || c.Flagged?
    ensures !c.Flagged? ==> r == c
  {
    if c == Flagged then Hidden else c
  }

  /** Flagging twice gives the square back. */
  lemma FlagTwice(c: Cell)
    ensures Flag(Flag(c)) == c
  {
  }

  /** Unflagging a freshly flagged covered square covers it again. */
  lemma UnflagUndoesFlag(c: Cell)
    requires c.Hidden?
    ensures Unflag(Flag(c)) == c
  {
  }

  /** Unflagging twice is the same as unflagging once. */
  lemma UnflagIdempotent(c: Cell)
    ensures Unflag(Unflag(c)) == Unflag(c)
  {
  }

  /** Neither command uncovers, covers or changes an uncovered square. */
  lemma FlagsKeepUncovered(c: Cell)
    ensures Flag(c).Uncovered() <==> c.Uncovered()
    ensures Unflag(c).Uncovered() <==> c.Uncovered()
    ensures c.Uncovered() || c.Mine? ==> Flag(c) == c && Unflag(c) == c
  {
  }
}
