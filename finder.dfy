/**
 The transformation finder: a breadth-first search over an adjacency mapping,
 seeded from the end word, that records for each word reached the word it was
 reached from, and then walks those pointers from the start word to the end.
 */
module Finder {
  import opened Graphs

  datatype Option<T> = None | Some(value: T)

  /** The outcome of a search: a chain of words, or the no-transformation error. */
  datatype Transformation<W> = Found(chain: seq<W>) | NoTransformationError

  /** Each word of `c` is a neighbour of the word that follows it. */
  ghost predicate IsChain<W>(rel: Adjacency<W>, c: seq<W>)
  {
    forall k :: 0 <= k < |c| - 1 ==> c[k] in Neighbours(rel, c[k + 1])
  }

  /** `c` is a chain from `start` to `end`. */
  ghost predicate Connects<W>(rel: Adjacency<W>, c: seq<W>, start: W, end: W)
  {
    |c| > 0 && c[0] == start && c[|c| - 1] == end && IsChain(rel, c)
  }

  ghost predicate Reachable<W(!new)>(rel: Adjacency<W>, start: W, end: W)
  {
    exists c :: Connects(rel, c, start, end)
  }

  /** `c` connects `start` to `end` and no chain between them has fewer words. */
  ghost predicate Shortest<W(!new)>(rel: Adjacency<W>, c: seq<W>, start: W, end: W)
  {
    Connects(rel, c, start, end) && forall d :: Connects(rel, d, start, end) ==> |c| <= |d|
  }

  ghost predicate Distinct<W>(c: seq<W>)
  {
    forall i, j :: 0 <= i < j < |c| ==> c[i] != c[j]
  }

  /** Every word the search can record: the end word and every neighbour of some key. */
  ghost function Words<W>(rel: Adjacency<W>, end: W): set<W>
  {
    (set k, v | k in rel && v in rel[k] :: v) + {end}
  }

  // ---------------------------------------------------------------------------
  // The state of the search. `next` is the predecessor map (None marks the end
  // word), `depth` the ghost number of pointer steps from a word to the end,
  // `boundary` the queue, whose first `m` words sit at depth `lo`, and `cut`
  // the word whose examination stopped early because the start word turned up.

  /** Pointers: every recorded word other than the end points to a recorded word it neighbours, one step closer. */
  ghost predicate Pointers<W>(rel: Adjacency<W>, end: W, next: map<W, Option<W>>, depth: map<W, nat>)
  {
    && depth.Keys == next.Keys
    && end in next && next[end] == None && depth[end] == 0
    && forall x {:trigger next[x]} :: x in next && x != end ==>
         next[x].Some? && next[x].value in next && x in Neighbours(rel, next[x].value) && depth[x] == depth[next[x].value] + 1
  }

  /** Every neighbour of a closed word is recorded at most one step further than it. */
  ghost predicate Closed<W>(rel: Adjacency<W>, depth: map<W, nat>, closed: set<W>)
  {
    forall x :: x in closed ==> x in depth && forall y :: y in Neighbours(rel, x) ==> y in depth && depth[y] <= depth[x] + 1
  }

  /**
   The queue holds recorded words: its first m at depth lo and the rest at
   lo + 1; nothing recorded is deeper than lo + 1.
   */
  ghost predicate Frontier<W>(depth: map<W, nat>, boundary: seq<W>, lo: nat, m: nat)
  {
    && m <= |boundary|
    && (forall i :: 0 <= i < |boundary| ==> boundary[i] in depth && depth[boundary[i]] == if i < m then lo else lo + 1)
    && (forall x :: x in depth ==> depth[x] <= lo + 1)
  }

  /** The early stop, if it happened, recorded the start word one step past the cut word. */
  ghost predicate CutAt<W>(depth: map<W, nat>, start: W, cut: Option<W>)
  {
    cut.Some? ==> start in depth && cut.value in depth && cut.value != start && depth[start] == depth[cut.value] + 1
  }

  /** Once the words at depth lo are used up, the queue is all at the next depth. */
  lemma FrontierNextLayer<W>(depth: map<W, nat>, boundary: seq<W>, lo: nat)
    requires Frontier(depth, boundary, lo, 0)
    ensures Frontier(depth, boundary, lo + 1, |boundary|)
  {
  }

  /** Taking the head, at depth lo, off the queue. */
  lemma FrontierPop<W>(depth: map<W, nat>, boundary: seq<W>, lo: nat, m: nat)
    requires Frontier(depth, boundary, lo, m) && 0 < m
    ensures boundary[0] in depth && depth[boundary[0]] == lo
    ensures Frontier(depth, boundary[1..], lo, m - 1)
  {
  }

  /** Recording `y` one step past depth lo, and queueing it. */
  lemma FrontierRecord<W>(depth: map<W, nat>, boundary: seq<W>, lo: nat, m: nat, y: W)
    requires Frontier(depth, boundary, lo, m) && y !in depth
    ensures Frontier(depth[y := lo + 1], boundary, lo, m)
    ensures Frontier(depth[y := lo + 1], boundary + [y], lo, m)
  {
  }

  /** Recording a new neighbour `y` of a recorded word keeps the pointers well formed. */
  lemma PointersRecord<W>(rel: Adjacency<W>, end: W, next: map<W, Option<W>>, depth: map<W, nat>, word: W, y: W)
    requires Pointers(rel, end, next, depth)
    requires word in next && y !in next && y in Neighbours(rel, word)
    ensures Pointers(rel, end, next[y := Some(word)], depth[y := depth[word] + 1])
  {
  }

  /** Recording a word other than the start leaves the cut record as it was. */
  lemma CutRecord<W>(depth: map<W, nat>, start: W, cut: Option<W>, y: W, d: nat)
    requires CutAt(depth, start, cut) && y !in depth
    ensures CutAt(depth[y := d], start, cut)
  {
  }

  /** A chain that ends inside a set closed under predecessors starts inside it. */
  lemma {:induction false} ChainStaysInside<W>(rel: Adjacency<W>, inside: set<W>, c: seq<W>)
    requires forall x :: x in inside ==> Neighbours(rel, x) <= inside
    requires |c| > 0 && IsChain(rel, c) && c[|c| - 1] in inside
    ensures c[0] in inside
  {
    if |c| > 1 {
      var d := c[..|c| - 1];
      assert c[|c| - 2] in Neighbours(rel, c[|c| - 1]);
      assert IsChain(rel, d) by {
        forall k | 0 <= k < |d| - 1
          ensures d[k] in Neighbours(rel, d[k + 1])
        {
          assert d[k] == c[k] && d[k + 1] == c[k + 1];
        }
      }
      ChainStaysInside(rel, inside, d);
    }
  }

  /** When the search drained the queue without recording the start word, no chain exists. */
  lemma NoChain<W(!new)>(rel: Adjacency<W>, depth: map<W, nat>, closed: set<W>, start: W, end: W)
    requires Closed(rel, depth, closed)
    requires forall x :: x in depth ==> x in closed
    requires end in depth && start !in depth
    ensures !Reachable(rel, start, end)
  {
    if c :| Connects(rel, c, start, end) {
      ChainStaysInside(rel, depth.Keys, c);
    }
  }

  /** Walking backwards along a chain, each word is recorded no deeper than its distance to the end, unless the start's depth is already bounded. */
  lemma {:induction false} DepthAlong<W>(rel: Adjacency<W>, depth: map<W, nat>, closed: set<W>, cut: Option<W>, start: W, end: W, c: seq<W>, j: nat)
    requires Closed(rel, depth, closed)
    requires forall x :: x in depth ==> x in closed || x == start || cut == Some(x)
    requires CutAt(depth, start, cut)
    requires start in depth && end in depth && depth[end] == 0
    requires Connects(rel, c, start, end) && j < |c|
    ensures depth[start] + 1 <= |c| || (c[j] in depth && depth[c[j]] + j + 1 <= |c|)
    decreases |c| - j
  {
    if j < |c| - 1 {
      DepthAlong(rel, depth, closed, cut, start, end, c, j + 1);
      if c[j + 1] in depth && depth[c[j + 1]] + j + 2 <= |c| && c[j + 1] in closed {
        assert c[j] in Neighbours(rel, c[j + 1]);
      }
    }
  }

  /** No chain from start to end is shorter than the start word's depth allows. */
  lemma NoShorterChain<W(!new)>(rel: Adjacency<W>, depth: map<W, nat>, closed: set<W>, cut: Option<W>, start: W, end: W)
    requires Closed(rel, depth, closed)
    requires forall x :: x in depth ==> x in closed || x == start || cut == Some(x)
    requires CutAt(depth, start, cut)
    requires start in depth && end in depth && depth[end] == 0
    ensures forall d :: Connects(rel, d, start, end) ==> depth[start] + 1 <= |d|
  {
    forall d | Connects(rel, d, start, end)
      ensures depth[start] + 1 <= |d|
    {
      DepthAlong(rel, depth, closed, cut, start, end, d, 0);
    }
  }

  /**
   The words ever queued (taken off the queue or still on it) are distinct and
   recorded; every recorded word other than the start word was queued, and the
   start word is queued only as the end word it may be.
   */
  ghost predicate QueuedOnce<W>(queued: seq<W>, next: map<W, Option<W>>, start: W, end: W)
  {
    && Distinct(queued)
    && (forall x :: x in queued ==> x in next)
    && (forall x :: x in next && x != start ==> x in queued)
    && (start in queued ==> start == end)
  }

  /** Recording the start word without queueing it. */
  lemma RecordedStart<W>(queued: seq<W>, next: map<W, Option<W>>, start: W, end: W, v: Option<W>)
    requires QueuedOnce(queued, next, start, end) && start !in next
    ensures QueuedOnce(queued, next[start := v], start, end)
  {
  }

  /** Queueing a word other than the start word that was not yet recorded, while recording it. */
  lemma Enqueue<W>(popped: seq<W>, boundary: seq<W>, next: map<W, Option<W>>, start: W, end: W, y: W, v: Option<W>)
    requires QueuedOnce(popped + boundary, next, start, end) && y !in next && y != start
    ensures QueuedOnce(popped + (boundary + [y]), next[y := v], start, end)
  {
    var queued := popped + boundary;
    assert forall i :: 0 <= i < |queued| ==> queued[i] in next;
    assert popped + (boundary + [y]) == queued + [y];
  }

  /** Taking the head off the queue moves it to the popped words. */
  lemma Pop<W>(popped: seq<W>, boundary: seq<W>, next: map<W, Option<W>>, start: W, end: W)
    requires QueuedOnce(popped + boundary, next, start, end) && boundary != []
    ensures QueuedOnce((popped + [boundary[0]]) + boundary[1..], next, start, end)
  {
    assert popped + boundary == (popped + [boundary[0]]) + boundary[1..];
  }

  /** Every neighbour of a word is a word the search can record. */
  lemma NeighbourInWords<W>(rel: Adjacency<W>, end: W, word: W, y: W)
    requires y in Neighbours(rel, word)
    ensures y in Words(rel, end)
  {
    assert word in rel && y in rel[word];
  }

  /** Recording one more word leaves one fewer word to record. */
  lemma RecordShrinks<W>(rel: Adjacency<W>, end: W, next: map<W, Option<W>>, word: W, y: W, v: Option<W>)
    requires y in Neighbours(rel, word) && y !in next
    ensures |Words(rel, end) - next[y := v].Keys| < |Words(rel, end) - next.Keys|
  {
    NeighbourInWords(rel, end, word, y);
    assert Words(rel, end) - next.Keys == (Words(rel, end) - next[y := v].Keys) + {y};
  }

  /**
   Every recorded word is closed, except the queued words, the start word,
   the cut word and the words of `pending`: its neighbours are all recorded
   at most one step further than it.
   */
  ghost predicate Settled<W>(rel: Adjacency<W>, depth: map<W, nat>, boundary: seq<W>, start: W, cut: Option<W>, pending: set<W>)
  {
    forall x :: x in depth && x !in boundary && x !in pending && x != start && cut != Some(x) ==>
      forall y :: y in Neighbours(rel, x) ==> y in depth && depth[y] <= depth[x] + 1
  }

  /** The neighbours of `word` outside `todo` are recorded at most one step past depth lo. */
  ghost predicate Examined<W>(rel: Adjacency<W>, depth: map<W, nat>, word: W, todo: set<W>, lo: nat)
  {
    forall y :: y in Neighbours(rel, word) - todo ==> y in depth && depth[y] <= lo + 1
  }

  /** Recording and queueing a word that was not recorded leaves every settled word settled. */
  lemma SettledRecord<W>(rel: Adjacency<W>, depth: map<W, nat>, boundary: seq<W>, start: W, cut: Option<W>,
                         pending: set<W>, y: W, d: nat)
    requires Settled(rel, depth, boundary, start, cut, pending) && y !in depth
    ensures Settled(rel, depth[y := d], boundary + [y], start, cut, pending)
  {
  }

  /** The invariant of the outer loop: well-formed pointers, an ordered queue, the cut record, and every other recorded word closed. */
  ghost predicate Searching<W>(rel: Adjacency<W>, start: W, end: W, next: map<W, Option<W>>, depth: map<W, nat>,
                               boundary: seq<W>, cut: Option<W>, lo: nat, m: nat)
  {
    && Pointers(rel, end, next, depth)
    && Frontier(depth, boundary, lo, m)
    && CutAt(depth, start, cut)
    && Settled(rel, depth, boundary, start, cut, {})
  }

  /**
   The invariant of the inner loop, while the neighbours of `word` (taken off
   the queue at depth lo) are examined: those no longer in `todo` are recorded
   at most one step further, and `word` itself is exempt from being closed.
   */
  ghost predicate Expanding<W>(rel: Adjacency<W>, start: W, end: W, next: map<W, Option<W>>, depth: map<W, nat>,
                               boundary: seq<W>, cut: Option<W>, lo: nat, m: nat, word: W, todo: set<W>)
  {
    && Pointers(rel, end, next, depth)
    && Frontier(depth, boundary, lo, m)
    && CutAt(depth, start, cut)
    && Settled(rel, depth, boundary, start, cut, {word})
    && word in depth && depth[word] == lo
    && todo <= Neighbours(rel, word)
    && Examined(rel, depth, word, todo, lo)
  }

  /** The search starts with only the end word recorded and queued. */
  lemma SearchStart<W>(rel: Adjacency<W>, start: W, end: W)
    ensures Searching(rel, start, end, map[end := None], map[end := 0], [end], None, 0, 1)
  {
  }

  /** Moving on to the next depth once the words at depth lo are used up. */
  lemma NextLayer<W>(rel: Adjacency<W>, start: W, end: W, next: map<W, Option<W>>, depth: map<W, nat>,
                     boundary: seq<W>, cut: Option<W>, lo: nat)
    requires Searching(rel, start, end, next, depth, boundary, cut, lo, 0)
    ensures Searching(rel, start, end, next, depth, boundary, cut, lo + 1, |boundary|)
  {
    FrontierNextLayer(depth, boundary, lo);
  }

  /** Taking the head of the queue and starting to examine its neighbours. */
  lemma PopStart<W>(rel: Adjacency<W>, start: W, end: W, next: map<W, Option<W>>, depth: map<W, nat>,
                    boundary: seq<W>, cut: Option<W>, lo: nat, m: nat)
    requires Searching(rel, start, end, next, depth, boundary, cut, lo, m) && 0 < m
    ensures Expanding(rel, start, end, next, depth, boundary[1..], cut, lo, m - 1, boundary[0], Neighbours(rel, boundary[0]))
  {
    FrontierPop(depth, boundary, lo, m);
    assert boundary == [boundary[0]] + boundary[1..];
  }

  /** A neighbour that is already recorded is passed over. */
  lemma Skip<W>(rel: Adjacency<W>, start: W, end: W, next: map<W, Option<W>>, depth: map<W, nat>,
                boundary: seq<W>, cut: Option<W>, lo: nat, m: nat, word: W, todo: set<W>, y: W)
    requires Expanding(rel, start, end, next, depth, boundary, cut, lo, m, word, todo)
    requires y in todo && y in next
    ensures Expanding(rel, start, end, next, depth, boundary, cut, lo, m, word, todo - {y})
  {
  }

  /** Recording a new neighbour other than the start word, and queueing it. */
  lemma Record<W>(rel: Adjacency<W>, start: W, end: W, next: map<W, Option<W>>, depth: map<W, nat>,
                  boundary: seq<W>, cut: Option<W>, lo: nat, m: nat, word: W, todo: set<W>, y: W)
    requires Expanding(rel, start, end, next, depth, boundary, cut, lo, m, word, todo)
    requires y in todo && y !in next && y != start
    ensures Expanding(rel, start, end, next[y := Some(word)], depth[y := lo + 1], boundary + [y], cut, lo, m, word, todo - {y})
  {
    PointersRecord(rel, end, next, depth, word, y);
    FrontierRecord(depth, boundary, lo, m, y);
    CutRecord(depth, start, cut, y, lo + 1);
    SettledRecord(rel, depth, boundary, start, cut, {word}, y, lo + 1);
  }

  /** Recording the start word ends the examination of `word`, which becomes the cut word. */
  lemma RecordStart<W>(rel: Adjacency<W>, start: W, end: W, next: map<W, Option<W>>, depth: map<W, nat>,
                       boundary: seq<W>, cut: Option<W>, lo: nat, m: nat, word: W, todo: set<W>)
    requires Expanding(rel, start, end, next, depth, boundary, cut, lo, m, word, todo)
    requires start in todo && start !in next
    ensures Searching(rel, start, end, next[start := Some(word)], depth[start := lo + 1], boundary, Some(word), lo, m)
  {
    PointersRecord(rel, end, next, depth, word, start);
    FrontierRecord(depth, boundary, lo, m, start);
  }

  /** Once every neighbour of `word` is examined, `word` is closed. */
  lemma Close<W>(rel: Adjacency<W>, start: W, end: W, next: map<W, Option<W>>, depth: map<W, nat>,
                 boundary: seq<W>, cut: Option<W>, lo: nat, m: nat, word: W)
    requires Expanding(rel, start, end, next, depth, boundary, cut, lo, m, word, {})
    ensures Searching(rel, start, end, next, depth, boundary, cut, lo, m)
  {
  }

  /** When the queue is drained, the start word is recorded exactly when it is reachable, and then at its distance. */
  lemma Finish<W(!new)>(rel: Adjacency<W>, start: W, end: W, next: map<W, Option<W>>, depth: map<W, nat>,
                        cut: Option<W>, lo: nat, m: nat)
    requires Searching(rel, start, end, next, depth, [], cut, lo, m)
    ensures start !in next ==> !Reachable(rel, start, end)
    ensures start in next ==> forall d :: Connects(rel, d, start, end) ==> depth[start] + 1 <= |d|
  {
    var closed := set x | x in depth && x != start && cut != Some(x);
    assert Closed(rel, depth, closed);
    if start !in next {
      NoChain(rel, depth, closed, start, end);
    } else {
      NoShorterChain(rel, depth, closed, cut, start, end);
    }
  }

  /**
   The breadth-first search from `end`: records a predecessor for every word it
   reaches. The start word ends up recorded exactly when it can reach `end`,
   and then its depth bounds the length of every chain.
   */
  method Search<W(==,!new)>(relations: Adjacency<W>, start: W, end: W) returns (next: map<W, Option<W>>, ghost depth: map<W, nat>)
    ensures Pointers(relations, end, next, depth)
    ensures start !in next ==> !Reachable(relations, start, end)
    ensures start in next ==> forall d :: Connects(relations, d, start, end) ==> depth[start] + 1 <= |d|
  {
    next := map[end := None];
    var boundary: seq<W> := [end];
    depth := map[end := 0];
    ghost var cut: Option<W> := None;
    ghost var lo: nat, m: nat := 0, 1;
    ghost var popped: seq<W> := [];
    SearchStart(relations, start, end);
    while boundary != []
      invariant Searching(relations, start, end, next, depth, boundary, cut, lo, m)
      invariant QueuedOnce(popped + boundary, next, start, end)
      decreases |Words(relations, end) - next.Keys| + |boundary|
    {
      if m == 0 {
        NextLayer(relations, start, end, next, depth, boundary, cut, lo);
        lo, m := lo + 1, |boundary|;
      }
      PopStart(relations, start, end, next, depth, boundary, cut, lo, m);
      var word := boundary[0];
      Pop(popped, boundary, next, start, end);
      boundary, m := boundary[1..], m - 1;
      popped := popped + [word];
      next, boundary, depth, cut := ExamineNeighbours(relations, start, end, word, next, boundary, depth, cut, lo, m, popped);
    }
    Finish(relations, start, end, next, depth, cut, lo, m);
  }

  /**
   Searches from `end`, then walks the predecessor pointers from `start`; on
   success the chain runs from `start` to `end`, each word a neighbour of the
   next, and is as short as any such chain.
   */
  method FindTransformation<W(==,!new)>(relations: Adjacency<W>, start: W, end: W) returns (r: Transformation<W>)
    ensures r.Found? <==> Reachable(relations, start, end)
    ensures r.Found? ==> Shortest(relations, r.chain, start, end) && Distinct(r.chain)
    ensures start == end ==> r == Found([start])
  {
    var next, depth := Search(relations, start, end);
    if start !in next {
      return NoTransformationError;
    }
    var chain := FollowPointers(relations, next, start, end, depth);
    r := Found(chain);
  }

  /**
   What examining the neighbours of `word` did to the search state: earlier
   records are kept, each new record is a neighbour of `word` pointing to it,
   and the words appended to the queue are exactly the new records other than
   the start word.
   */
  ghost predicate Extends<W>(rel: Adjacency<W>, start: W, word: W, next0: map<W, Option<W>>, boundary0: seq<W>,
                             next: map<W, Option<W>>, boundary: seq<W>)
  {
    && boundary0 <= boundary
    && (forall y :: y in next0 ==> y in next && next[y] == next0[y])
    && (forall y :: y in next && y !in next0 ==> y in Neighbours(rel, word) && next[y] == Some(word))
    && (forall i :: |boundary0| <= i < |boundary| ==> boundary[i] in next && boundary[i] !in next0 && boundary[i] != start)
    && (forall y :: y in next && y !in next0 && y != start ==> y in boundary[|boundary0|..])
  }

  /** Recording a new neighbour other than the start word, and queueing it. */
  lemma ExtendsRecord<W>(rel: Adjacency<W>, start: W, word: W, next0: map<W, Option<W>>, boundary0: seq<W>,
                         next: map<W, Option<W>>, boundary: seq<W>, y: W)
    requires Extends(rel, start, word, next0, boundary0, next, boundary)
    requires y !in next && y != start && y in Neighbours(rel, word)
    ensures Extends(rel, start, word, next0, boundary0, next[y := Some(word)], boundary + [y])
  {
    assert (boundary + [y])[|boundary0|..] == boundary[|boundary0|..] + [y];
  }

  /** Recording the start word as a neighbour, without queueing it. */
  lemma ExtendsStart<W>(rel: Adjacency<W>, start: W, word: W, next0: map<W, Option<W>>, boundary0: seq<W>,
                        next: map<W, Option<W>>, boundary: seq<W>)
    requires Extends(rel, start, word, next0, boundary0, next, boundary)
    requires start !in next && start in Neighbours(rel, word)
    ensures Extends(rel, start, word, next0, boundary0, next[start := Some(word)], boundary)
  {
  }

  /**
   The inner loop of the search: records every unrecorded neighbour of `word`
   as reached from `word` and queues it, except that recording the start word
   ends the loop at once, without queueing it. `popped` is the ghost list of
   the words already taken off the queue.
   */
  method ExamineNeighbours<W(==)>(relations: Adjacency<W>, start: W, end: W, word: W,
                                  next0: map<W, Option<W>>, boundary0: seq<W>, ghost depth0: map<W, nat>,
                                  ghost cut0: Option<W>, ghost lo: nat, ghost m: nat, ghost popped: seq<W>)
    returns (next: map<W, Option<W>>, boundary: seq<W>, ghost depth: map<W, nat>, ghost cut: Option<W>)
    requires Expanding(relations, start, end, next0, depth0, boundary0, cut0, lo, m, word, Neighbours(relations, word))
    requires QueuedOnce(popped + boundary0, next0, start, end)
    ensures Searching(relations, start, end, next, depth, boundary, cut, lo, m)
    ensures QueuedOnce(popped + boundary, next, start, end)
    ensures Extends(relations, start, word, next0, boundary0, next, boundary)
    ensures (start in next && start !in next0) || Neighbours(relations, word) <= next.Keys
    ensures |Words(relations, end) - next.Keys| + |boundary| <= |Words(relations, end) - next0.Keys| + |boundary0|
  {
    next, boundary, depth, cut := next0, boundary0, depth0, cut0;
    var todo := Neighbours(relations, word);
    while todo != {}
      invariant Expanding(relations, start, end, next, depth, boundary, cut, lo, m, word, todo)
      invariant QueuedOnce(popped + boundary, next, start, end)
      invariant Extends(relations, start, word, next0, boundary0, next, boundary)
      invariant |Words(relations, end) - next.Keys| + |boundary| <= |Words(relations, end) - next0.Keys| + |boundary0|
      decreases todo
    {
      var relation :| relation in todo;
      if relation in next {
        Skip(relations, start, end, next, depth, boundary, cut, lo, m, word, todo, relation);
        todo := todo - {relation};
      } else if relation == start {
        RecordStart(relations, start, end, next, depth, boundary, cut, lo, m, word, todo);
        RecordShrinks(relations, end, next, word, relation, Some(word));
        RecordedStart(popped + boundary, next, start, end, Some(word));
        ExtendsStart(relations, start, word, next0, boundary0, next, boundary);
        next := next[relation := Some(word)];
        depth, cut := depth[relation := lo + 1], Some(word);
        return;
      } else {
        Record(relations, start, end, next, depth, boundary, cut, lo, m, word, todo, relation);
        RecordShrinks(relations, end, next, word, relation, Some(word));
        Enqueue(popped, boundary, next, start, end, relation, Some(word));
        ExtendsRecord(relations, start, word, next0, boundary0, next, boundary, relation);
        next := next[relation := Some(word)];
        depth := depth[relation := lo + 1];
        boundary := boundary + [relation];
        todo := todo - {relation};
      }
    }
    Close(relations, start, end, next, depth, boundary, cut, lo, m, word);
  }

  /** A word that is not the end word and is nobody's neighbour, or an end word without neighbours, cannot be reached. */
  lemma AbsentWordUnreachable<W(!new)>(rel: Adjacency<W>, start: W, end: W)
    requires start != end
    requires end !in rel || forall k :: k in rel ==> start !in rel[k]
    ensures !Reachable(rel, start, end)
  {
    forall c | Connects(rel, c, start, end)
      ensures c[0] in Neighbours(rel, c[1]) && c[|c| - 2] in Neighbours(rel, c[|c| - 1])
    {
    }
  }

  /** The words of `c` in the opposite order. */
  ghost function Reversed<W>(c: seq<W>): seq<W>
  {
    seq(|c|, i requires 0 <= i < |c| => c[|c| - 1 - i])
  }

  /** Over a symmetric mapping, a chain read backwards is a chain the other way. */
  lemma ReverseChain<W>(rel: Adjacency<W>, c: seq<W>, start: W, end: W)
    requires Symmetric(rel) && Connects(rel, c, start, end)
    ensures Connects(rel, Reversed(c), end, start) && |Reversed(c)| == |c|
  {
    var r, n := Reversed(c), |c|;
    forall k | 0 <= k < n - 1
      ensures r[k] in Neighbours(rel, r[k + 1])
    {
      assert c[n - 2 - k] in Neighbours(rel, c[n - 1 - k]);
    }
  }

  /** Over a symmetric mapping, reachability goes both ways. */
  lemma ReachableSymmetric<W(!new)>(rel: Adjacency<W>, start: W, end: W)
    requires Symmetric(rel)
    ensures Reachable(rel, start, end) <==> Reachable(rel, end, start)
  {
    if c :| Connects(rel, c, start, end) {
      ReverseChain(rel, c, start, end);
    }
    if c :| Connects(rel, c, end, start) {
      ReverseChain(rel, c, end, start);
    }
  }

  /** Over a symmetric mapping, the shortest chains in the two directions have the same length. */
  lemma ShortestSymmetric<W(!new)>(rel: Adjacency<W>, c: seq<W>, d: seq<W>, start: W, end: W)
    requires Symmetric(rel) && Shortest(rel, c, start, end) && Shortest(rel, d, end, start)
    ensures |c| == |d|
  {
    ReverseChain(rel, c, start, end);
    ReverseChain(rel, d, end, start);
  }

  /** Walks the predecessor pointers from `start` until the end word's None marker. */
  method FollowPointers<W>(relations: Adjacency<W>, next: map<W, Option<W>>, start: W, end: W, ghost depth: map<W, nat>)
    returns (chain: seq<W>)
    requires Pointers(relations, end, next, depth) && start in next
    ensures Connects(relations, chain, start, end) && Distinct(chain)
    ensures |chain| == depth[start] + 1
  {
    chain := [];
    var current: Option<W> := Some(start);
    while current.Some?
      invariant current.Some? ==> current.value in next && |chain| + depth[current.value] == depth[start]
      invariant current.None? ==> |chain| == depth[start] + 1
      invariant |chain| == 0 ==> current == Some(start)
      invariant forall k :: 0 <= k < |chain| ==> chain[k] in next && depth[chain[k]] + k == depth[start]
      invariant |chain| > 0 ==> chain[0] == start && next[chain[|chain| - 1]] == current
      invariant IsChain(relations, chain)
      decreases if current.Some? then depth[current.value] + 1 else 0
    {
      chain := chain + [current.value];
      current := next[current.value];
    }
    forall i, j | 0 <= i < j < |chain|
      ensures chain[i] != chain[j]
    {
      assert depth[chain[i]] + i == depth[chain[j]] + j;
    }
  }
}
