/** Where a match lies in the text it starts at. */
module Spans {
  datatype Option<T> = None | Some(value: T)

  /**
   * A match at the start of a text s: group 1 is s[..e1], the value s[e1..e2]
   * and group 3 s[e2..e3].
   */
  datatype Groups = Groups(e1: nat, e2: nat, e3: nat)

  predicate WellFormed(s: string, g: Groups) {
    g.e1 <= g.e2 <= g.e3 <= |s| && 0 < g.e3
  }

  /** Leftmost-first preference between two matches at the same position. */
  predicate Prefers(g: Groups, h: Groups) {
    g.e1 > h.e1
    || (g.e1 == h.e1 && g.e2 > h.e2)
    || (g.e1 == h.e1 && g.e2 == h.e2 && g.e3 >= h.e3)
  }
}
