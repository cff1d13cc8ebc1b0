/**
 The relations builder: an index from each letter partition to the set of
 words that have it (its partition class), grown one word at a time, and the
 adjacency mapping derived from it, in which every word is related to every
 member of each of its partition classes.
 */
module Builder {
  import opened Partitions
  import opened Graphs

  type Index<C(==)> = map<Partition<C>, set<seq<C>>>
  type Graph<C(==)> = Adjacency<seq<C>>

  /** The partition class of `p`; empty when `p` was never recorded. */
  function Class<C(==)>(index: Index<C>, p: Partition<C>): set<seq<C>>
  {
    if p in index then index[p] else {}
  }

  /** The index after connecting `w`: `w` joins the class of each of its partitions. */
  function Connected<C(==)>(index: Index<C>, w: seq<C>): (r: Index<C>)
    ensures r.Keys == index.Keys + set p | p in LetterPartitions(w)
    ensures forall p :: p in r ==> r[p] == if p in LetterPartitions(w) then Class(index, p) + {w} else index[p]
  {
    index + map p | p in LetterPartitions(w) :: Class(index, p) + {w}
  }

  /** The index after connecting the words of `ws` in order, starting from nothing. */
  function IndexOf<C(==)>(ws: seq<seq<C>>): Index<C>
  {
    if ws == [] then map[] else Connected(IndexOf(ws[..|ws| - 1]), ws[|ws| - 1])
  }

  /** Indexes with the same classes everywhere and the same keys are equal. */
  lemma IndexExtensionality<C>(m: Index<C>, n: Index<C>)
    requires forall p :: p in m <==> p in n
    requires forall p :: Class(m, p) == Class(n, p)
    ensures m == n
  {
    forall p | p in m
      ensures m[p] == n[p]
    {
      assert Class(m, p) == Class(n, p);
    }
  }

  /** A word is in a class of the built index iff it was added and has that partition. */
  lemma {:induction false} IndexMembership<C>(ws: seq<seq<C>>, p: Partition<C>, w: seq<C>)
    ensures w in Class(IndexOf(ws), p) <==> w in ws && p in LetterPartitions(w)
  {
    if ws != [] {
      var init := ws[..|ws| - 1];
      IndexMembership(init, p, w);
      assert ws == init + [ws[|ws| - 1]];
    }
  }

  /** The built index records a partition iff its class is non-empty. */
  lemma {:induction false} IndexKeys<C>(ws: seq<seq<C>>, p: Partition<C>)
    ensures p in IndexOf(ws) <==> Class(IndexOf(ws), p) != {}
  {
    if ws != [] {
      IndexKeys(ws[..|ws| - 1], p);
    }
  }

  /** The classes of `Connected(index, w)`, partition by partition. */
  lemma ConnectedClass<C>(index: Index<C>, w: seq<C>, p: Partition<C>)
    ensures p in Connected(index, w) <==> p in index || p in LetterPartitions(w)
    ensures Class(Connected(index, w), p) == if p in LetterPartitions(w) then Class(index, p) + {w} else Class(index, p)
  {
  }

  /** Connecting a word that was already connected leaves the index unchanged. */
  lemma ReconnectUnchanged<C>(ws: seq<seq<C>>, w: seq<C>)
    requires w in ws
    ensures Connected(IndexOf(ws), w) == IndexOf(ws)
  {
    forall p
      ensures p in Connected(IndexOf(ws), w) <==> p in IndexOf(ws)
      ensures Class(Connected(IndexOf(ws), w), p) == Class(IndexOf(ws), p)
    {
      ReconnectClass(ws, w, p);
    }
    IndexExtensionality(Connected(IndexOf(ws), w), IndexOf(ws));
  }

  lemma ReconnectClass<C>(ws: seq<seq<C>>, w: seq<C>, p: Partition<C>)
    requires w in ws
    ensures p in Connected(IndexOf(ws), w) <==> p in IndexOf(ws)
    ensures Class(Connected(IndexOf(ws), w), p) == Class(IndexOf(ws), p)
  {
    var index := IndexOf(ws);
    ConnectedClass(index, w, p);
    if p in LetterPartitions(w) {
      IndexMembership(ws, p, w);
      IndexKeys(ws, p);
      assert Class(index, p) + {w} == Class(index, p);
    }
  }

  /** The index depends only on which words were connected, not on their order or repetition. */
  lemma OrderIndependent<C>(ws: seq<seq<C>>, vs: seq<seq<C>>)
    requires forall w :: w in ws <==> w in vs
    ensures IndexOf(ws) == IndexOf(vs)
  {
    forall p
      ensures p in IndexOf(ws) <==> p in IndexOf(vs)
      ensures Class(IndexOf(ws), p) == Class(IndexOf(vs), p)
    {
      SameClass(ws, vs, p);
      IndexKeys(ws, p);
      IndexKeys(vs, p);
    }
    IndexExtensionality(IndexOf(ws), IndexOf(vs));
  }

  lemma SameClass<C>(ws: seq<seq<C>>, vs: seq<seq<C>>, p: Partition<C>)
    requires forall w :: w in ws <==> w in vs
    ensures Class(IndexOf(ws), p) == Class(IndexOf(vs), p)
  {
    forall w
      ensures w in Class(IndexOf(ws), p) <==> w in Class(IndexOf(vs), p)
    {
      IndexMembership(ws, p, w);
      IndexMembership(vs, p, w);
    }
    assert Class(IndexOf(ws), p) == Class(IndexOf(vs), p);
  }

  /** Words that occur in some class among `keys`. */
  function Members<C(==)>(index: Index<C>, keys: set<Partition<C>>): set<seq<C>>
  {
    set p, w | p in keys && p in index && w in index[p] :: w
  }

  /** The union of the classes among `keys` that contain `w`. */
  function Related<C(==)>(index: Index<C>, keys: set<Partition<C>>, w: seq<C>): set<seq<C>>
  {
    set p, v | p in keys && p in index && w in index[p] && v in index[p] :: v
  }

  /** The adjacency mapping of an index. */
  function GraphOf<C(==)>(index: Index<C>): Graph<C>
  {
    map w | w in Members(index, index.Keys) :: Related(index, index.Keys, w)
  }

  /** Merging one more class into the union. */
  lemma RelatedStep<C>(index: Index<C>, keys: set<Partition<C>>, p: Partition<C>, w: seq<C>)
    requires p in index
    ensures Members(index, keys + {p}) == Members(index, keys) + index[p]
    ensures Related(index, keys + {p}, w) == Related(index, keys, w) + (if w in index[p] then index[p] else {})
  {
    assert forall v :: v in index[p] ==> v in Members(index, keys + {p});
    if w in index[p] {
      assert forall v :: v in index[p] ==> v in Related(index, keys + {p}, w);
    }
  }

  /** An edge of the adjacency mapping is a class holding both words. */
  lemma GraphEdge<C>(index: Index<C>, a: seq<C>, b: seq<C>)
    ensures b in Neighbours(GraphOf(index), a) <==> exists p :: p in index && a in index[p] && b in index[p]
  {
    if exists p :: p in index && a in index[p] && b in index[p] {
      var p :| p in index && a in index[p] && b in index[p];
      assert a in Members(index, index.Keys);
    }
  }

  /** The adjacency mapping of any index is symmetric. */
  lemma GraphSymmetric<C>(index: Index<C>)
    ensures Symmetric(GraphOf(index))
  {
    forall a, b | a in GraphOf(index) && b in GraphOf(index)[a]
      ensures a in Neighbours(GraphOf(index), b)
    {
      GraphEdge(index, a, b);
      GraphEdge(index, b, a);
    }
  }

  /** For connected words, adjacency is exactly "same non-zero length, at most one letter apart". */
  lemma BuiltAdjacency<C>(ws: seq<seq<C>>, a: seq<C>, b: seq<C>)
    ensures b in Neighbours(GraphOf(IndexOf(ws)), a) <==> a in ws && b in ws && OneLetterApart(a, b)
  {
    var index := IndexOf(ws);
    GraphEdge(index, a, b);
    if b in Neighbours(GraphOf(index), a) {
      var p :| p in index && a in index[p] && b in index[p];
      IndexMembership(ws, p, a);
      IndexMembership(ws, p, b);
      SharedPartitionApart(a, b, p);
    }
    if a in ws && b in ws && OneLetterApart(a, b) {
      CommonPartition(a, b);
      var p :| p in LetterPartitions(a) && p in LetterPartitions(b);
      IndexMembership(ws, p, a);
      IndexMembership(ws, p, b);
      IndexKeys(ws, p);
    }
  }

  /** Exactly the connected non-empty words are keys; the empty word never is. */
  lemma BuiltKeys<C>(ws: seq<seq<C>>, a: seq<C>)
    ensures a in GraphOf(IndexOf(ws)) <==> a in ws && |a| > 0
  {
    var index := IndexOf(ws);
    if a in GraphOf(index) {
      var p :| p in index && a in index[p];
      IndexMembership(ws, p, a);
    }
    if a in ws && |a| > 0 {
      var p := LetterPartitions(a)[0];
      IndexMembership(ws, p, a);
      IndexKeys(ws, p);
      assert a in Members(index, index.Keys);
    }
  }

  /** A connected non-empty word is its own neighbour. */
  lemma SelfNeighbour<C>(ws: seq<seq<C>>, a: seq<C>)
    requires a in ws && |a| > 0
    ensures a in Neighbours(GraphOf(IndexOf(ws)), a)
  {
    BuiltAdjacency(ws, a, a);
  }

  /** Building from no words gives the empty mapping. */
  lemma EmptyBuild<C>()
    ensures GraphOf(IndexOf<C>([])) == map[]
  {
  }

  /** A single non-empty word is related to itself only. */
  lemma SingletonBuild<C>(w: seq<C>)
    requires |w| > 0
    ensures GraphOf(IndexOf([w])) == map[w := {w}]
  {
    var g := GraphOf(IndexOf([w]));
    forall a
      ensures a in g <==> a == w
    {
      BuiltKeys([w], a);
    }
    forall b
      ensures b in Neighbours(g, w) <==> b == w
    {
      BuiltAdjacency([w], w, b);
    }
    SelfLoopOnly(g, w);
  }

  lemma SelfLoopOnly<C>(g: Graph<C>, w: seq<C>)
    requires forall a :: a in g <==> a == w
    requires forall b :: b in Neighbours(g, w) <==> b == w
    ensures g == map[w := {w}]
  {
    assert g.Keys == {w};
    assert Neighbours(g, w) == g[w] == {w};
  }

  /** A mapping with the keys and edges the characterisation prescribes is the built mapping. */
  lemma BuiltGraphIs<C>(ws: seq<seq<C>>, g: Graph<C>)
    requires forall a :: a in g <==> a in ws && |a| > 0
    requires forall a, b :: a in g ==> (b in g[a] <==> b in ws && OneLetterApart(a, b))
    ensures GraphOf(IndexOf(ws)) == g
  {
    var built := GraphOf(IndexOf(ws));
    forall a
      ensures a in built <==> a in g
    {
      BuiltKeys(ws, a);
    }
    forall a | a in g
      ensures built[a] == g[a]
    {
      BuiltRow(ws, a, g[a]);
      assert Neighbours(built, a) == built[a];
    }
  }

  lemma BuiltRow<C>(ws: seq<seq<C>>, a: seq<C>, row: set<seq<C>>)
    requires a in ws
    requires forall b :: b in row <==> b in ws && OneLetterApart(a, b)
    ensures Neighbours(GraphOf(IndexOf(ws)), a) == row
  {
    var n := Neighbours(GraphOf(IndexOf(ws)), a);
    forall b
      ensures b in n <==> b in row
    {
      BuiltAdjacency(ws, a, b);
    }
    assert n == row;
  }

  /** Two-letter words are one letter apart iff they agree in the first or the second letter. */
  lemma TwoLetters<C>(a: seq<C>, b: seq<C>)
    requires |a| == 2 && |b| == 2
    ensures OneLetterApart(a, b) <==> a[0] == b[0] || a[1] == b[1]
  {
    assert a[1..][1..] == [] && b[1..][1..] == [];
  }

  /** Two words one letter apart are each related to both. */
  lemma TwoWordBuild()
    ensures GraphOf(IndexOf(["ab", "ac"])) == map["ab" := {"ab", "ac"}, "ac" := {"ab", "ac"}]
  {
    var ws := ["ab", "ac"];
    forall a, b | a in ws && b in ws
      ensures OneLetterApart(a, b)
    {
      TwoLetters(a, b);
    }
    BuiltGraphIs(ws, map["ab" := {"ab", "ac"}, "ac" := {"ab", "ac"}]);
  }

  /** The four-word example: "bc" is related to "ac" but not to "ab", and "dd" only to itself. */
  lemma FourWordBuild()
    ensures GraphOf(IndexOf(["ab", "ac", "bc", "dd"])) ==
      map["ab" := {"ab", "ac"}, "ac" := {"ab", "ac", "bc"}, "bc" := {"ac", "bc"}, "dd" := {"dd"}]
  {
    var ws := ["ab", "ac", "bc", "dd"];
    forall a, b | a in ws && b in ws
      ensures OneLetterApart(a, b) <==> a[0] == b[0] || a[1] == b[1]
    {
      TwoLetters(a, b);
    }
    BuiltGraphIs(ws, map["ab" := {"ab", "ac"}, "ac" := {"ab", "ac", "bc"}, "bc" := {"ac", "bc"}, "dd" := {"dd"}]);
  }

  /** Connecting one more word extends the built index by `Connected`. */
  lemma IndexOfSnoc<C>(ws: seq<seq<C>>, w: seq<C>)
    ensures IndexOf(ws + [w]) == Connected(IndexOf(ws), w)
  {
    assert (ws + [w])[..|ws|] == ws;
  }

  /** The index part-way through connecting `w`: the classes of the partitions in `added` have gained `w`. */
  ghost predicate PartlyConnected<C>(before: Index<C>, w: seq<C>, added: set<Partition<C>>, index: Index<C>)
  {
    && index.Keys == before.Keys + added
    && forall p :: p in index ==> index[p] == if p in added then Class(before, p) + {w} else before[p]
  }

  /** Adding `w` to the class of one more partition `q`. */
  lemma ConnectStep<C>(before: Index<C>, w: seq<C>, added: set<Partition<C>>, index: Index<C>, q: Partition<C>)
    requires PartlyConnected(before, w, added, index)
    ensures PartlyConnected(before, w, added + {q}, index[q := Class(index, q) + {w}])
  {
  }

  /** Once every partition of `w` is added, the index is `Connected(before, w)`. */
  lemma ConnectedFrom<C>(before: Index<C>, w: seq<C>, index: Index<C>, added: set<Partition<C>>)
    requires forall p :: p in added <==> p in LetterPartitions(w)
    requires PartlyConnected(before, w, added, index)
    ensures index == Connected(before, w)
  {
    forall p
      ensures p in index <==> p in Connected(before, w)
      ensures Class(index, p) == Class(Connected(before, w), p)
    {
      ConnectedClass(before, w, p);
    }
    IndexExtensionality(index, Connected(before, w));
  }

  /** The mapping part-way through deriving the adjacency: the classes in `done` are merged, and so is `relation` into the words of `seen`. */
  ghost predicate Merged<C>(index: Index<C>, done: set<Partition<C>>, relation: set<seq<C>>, seen: set<seq<C>>, graph: Graph<C>)
  {
    && graph.Keys == Members(index, done) + seen
    && forall w :: w in graph ==> graph[w] == Related(index, done, w) + (if w in seen then relation else {})
  }

  /** A word in no class among `keys` is related to nothing through them. */
  lemma RelatedOutside<C>(index: Index<C>, keys: set<Partition<C>>, w: seq<C>)
    requires w !in Members(index, keys)
    ensures Related(index, keys, w) == {}
  {
  }

  /** The effect of `graph[word] |= relation`. */
  lemma MergeInto<C>(index: Index<C>, done: set<Partition<C>>, relation: set<seq<C>>, seen: set<seq<C>>, graph: Graph<C>, word: seq<C>)
    requires Merged(index, done, relation, seen, graph)
    ensures Merged(index, done, relation, seen + {word}, graph[word := Neighbours(graph, word) + relation])
  {
    if word !in graph {
      RelatedOutside(index, done, word);
    }
  }

  /** Once a whole class is merged into each of its words, it counts as done. */
  lemma ClassMerged<C>(index: Index<C>, done: set<Partition<C>>, p: Partition<C>, graph: Graph<C>)
    requires p in index && Merged(index, done, index[p], index[p], graph)
    ensures Merged(index, done + {p}, {}, {}, graph)
  {
    forall w | w in graph
      ensures graph[w] == Related(index, done + {p}, w)
    {
      RelatedStep(index, done, p, w);
    }
    RelatedStep(index, done, p, []);
  }

  /** A mapping with the keys and lookups of `GraphOf(index)` is `GraphOf(index)`. */
  lemma GraphFromNeighbours<C>(index: Index<C>, graph: Graph<C>)
    requires Merged(index, index.Keys, {}, {}, graph)
    ensures graph == GraphOf(index)
  {
    assert graph.Keys == GraphOf(index).Keys;
    forall w | w in graph
      ensures graph[w] == GraphOf(index)[w]
    {
      assert graph[w] == Related(index, index.Keys, w) + {};
    }
  }

  /**
   Builds the partition index of a word list one word at a time and derives
   the adjacency mapping from it on request.
   */
  class RelationsBuilder<C(==)> {
    var index: Index<C>
    /** The words connected so far, in order. */
    ghost var words: seq<seq<C>>

    ghost predicate Valid()
      reads this
    {
      index == IndexOf(words)
    }

    /** Starts from an empty index and connects each of `ws` in order. */
    constructor (ws: seq<seq<C>>)
      ensures Valid() && words == ws
    {
      index := map[];
      words := [];
      new;
      var i := 0;
      while i < |ws|
        invariant 0 <= i <= |ws|
        invariant Valid() && words == ws[..i]
      {
        Connect(ws[i]);
        assert ws[..i + 1] == ws[..i] + [ws[i]];
        i := i + 1;
      }
      assert ws[..|ws|] == ws;
    }

    /** Adds `word` to the class of each of its partitions. */
    method Connect(word: seq<C>)
      requires Valid()
      modifies this
      ensures Valid() && words == old(words) + [word]
      ensures index == Connected(old(index), word)
    {
      var partitions := LetterPartitions(word);
      ghost var before := index;
      ghost var added: set<Partition<C>> := {};
      var i := 0;
      while i < |partitions|
        invariant 0 <= i <= |partitions|
        invariant words == old(words)
        invariant forall p :: p in added <==> p in partitions[..i]
        invariant PartlyConnected(before, word, added, index)
      {
        var partition := partitions[i];
        ConnectStep(before, word, added, index, partition);
        index := index[partition := Class(index, partition) + {word}];
        added := added + {partition};
        assert partitions[..i + 1] == partitions[..i] + [partition];
        i := i + 1;
      }
      assert partitions[..i] == partitions;
      ConnectedFrom(before, word, index, added);
      words := words + [word];
      IndexOfSnoc(old(words), word);
    }

    /** The adjacency mapping of the current index; the index itself is left as it is. */
    method Relations() returns (graph: Graph<C>)
      ensures graph == GraphOf(index)
    {
      graph := map[];
      var todo := index.Keys;
      ghost var done: set<Partition<C>> := {};
      while todo != {}
        invariant todo <= index.Keys && done == index.Keys - todo
        invariant Merged(index, done, {}, {}, graph)
        decreases todo
      {
        var p :| p in todo;
        var relation := index[p];
        var rest := relation;
        while rest != {}
          invariant rest <= relation
          invariant Merged(index, done, relation, relation - rest, graph)
          decreases rest
        {
          var word :| word in rest;
          MergeInto(index, done, relation, relation - rest, graph, word);
          graph := graph[word := Neighbours(graph, word) + relation];
          assert relation - (rest - {word}) == (relation - rest) + {word};
          rest := rest - {word};
        }
        ClassMerged(index, done, p, graph);
        todo := todo - {p};
        done := done + {p};
      }
      GraphFromNeighbours(index, graph);
    }
  }
}
