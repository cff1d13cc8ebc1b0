/**
 Adjacency mappings shared by the relation builder and the transformation
 finder: a map from a word to the set of its neighbours, where a word that is
 not a key has no neighbours (the behaviour of a `defaultdict(set)` lookup).
 */
module Graphs {

  type Adjacency<W(==)> = map<W, set<W>>

  /** The neighbours of `w`; empty when `w` is not a key. */
  function Neighbours<W(==)>(rel: Adjacency<W>, w: W): set<W>
  {
    if w in rel then rel[w] else {}
  }

  /** Every edge goes both ways. */
  ghost predicate Symmetric<W>(rel: Adjacency<W>)
  {
    forall a, b :: a in rel && b in rel[a] ==> a in Neighbours(rel, b)
  }
}
