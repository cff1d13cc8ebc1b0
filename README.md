# tuxywords in Dafny

A model of the word-ladder core of tuxywords. The package turns one word
into another by changing one letter at a time, so that every intermediate
word is in the dictionary. The model covers four parts:

- **Letter partitions** (`partitions.dfy`, module `Partitions`). A partition is the (prefix, suffix) pair left around one removed letter. Two words are related when they share a partition. `OneLetterApart` is an independent reference relation: same non-zero length and at most one mismatching position. `SharePartitionIff` proves the two agree.
- **The relations builder** (`builder.dfy`, module `Builder`). The class `RelationsBuilder` keeps the partition index: a map from each partition to the set of connected words that have it. `Connect` adds a word to the class of each of its partitions. `Relations` computes the adjacency mapping: every word of a class is related to every member of that class. The pure functions `Connected`, `IndexOf` and `GraphOf` specify those methods. The lemmas prove:
  - the index does not depend on connection order or repetition;
  - the mapping is symmetric;
  - its keys are exactly the non-empty connected words;
  - its edges are exactly the connected pairs one letter apart;
  - the source's example builds.
- **The transformation finder** (`finder.dfy`, module `Finder`). `FindTransformation` is the breadth-first search from the end word, with the predecessor map and the queue of the original. It returns either the chain from the start word to the end word, or `NoTransformationError` when the start word is never reached. Its contract:
  - it succeeds exactly when a chain exists;
  - the chain is as short as any chain;
  - the chain repeats no word;
  - when the start and end words are the same, the chain is the single word.

  The search itself is the method `Search`. Its outer loop keeps a ghost list of the words already taken off the queue. Its invariant `QueuedOnce` covers the popped words together with the queue:
  - they contain no word twice, so each word enters the queue at most once;
  - they are all recorded;
  - every recorded word other than the start word is among them;
  - the start word is among them only when it is the end word.
- **The word filter** (`cleanup.dfy`, module `Cleanup`). `IsValid` accepts a word unless its first character is uppercase or it contains an apostrophe.

Adjacency mappings (`graphs.dfy`, module `Graphs`) are maps from a word to a set of words. Looking up a word that is not a key gives the empty set, as a `defaultdict(set)` does.

## Model

| member | source | states |
|---|---|---|
| Partitions.LetterPartitions | tuxywords/transform.py:45-47 | a word of length n has exactly n partitions, one per position |
| Partitions.PartitionAt | tuxywords/transform.py:45-47 | the i-th partition is the prefix of length i and the rest after the letter at i; prefix, that letter and suffix give back the word |
| Partitions.PartitionMembership | tuxywords/transform.py:45-47 | a pair is a partition of w iff its prefix is shorter than w and prefix + the letter at that position + suffix is w |
| Partitions.PartitionLength | tuxywords/transform.py:41-47 | every partition keeps all letters but one |
| Partitions.SharePartitionIff | tuxywords/transform.py:29-34 | two words have a common partition iff they have the same non-zero length and differ in at most one position |
| Partitions.Examples | tests/test_transform.py:28-47 | the partitions of "a", "lo", "foo" and "wxyz", in position order |
| Builder.Connected | tuxywords/transform.py:60-66 | connecting w adds w's partitions as keys, adds w to the class of each of them, and leaves every other class unchanged |
| Builder.ConnectedClass | tuxywords/transform.py:64-66 | a partition's class gains w exactly when it is a partition of w; a partition is recorded afterwards iff it was before or is one of w's |
| Builder.IndexMembership | tuxywords/transform.py:55-66 | after connecting a list of words, w is in the class of p iff w was connected and p is one of its partitions |
| Builder.IndexKeys | tuxywords/transform.py:55-66 | a partition is recorded iff its class is non-empty |
| Builder.ReconnectUnchanged | tuxywords/transform.py:60-66 | connecting a word a second time leaves the index unchanged |
| Builder.OrderIndependent | tuxywords/transform.py:49-58 | lists with the same set of words build the same index, whatever the order and repetitions |
| Builder.RelationsBuilder.constructor | tuxywords/transform.py:49-58 | the new builder's index is that of connecting the given words in order from an empty index |
| Builder.RelationsBuilder.Connect | tuxywords/transform.py:60-66 | the new index is Connected(old index, word), and the word is appended to the connected words |
| Builder.RelationsBuilder.Relations | tuxywords/transform.py:68-76 | returns the adjacency mapping of the current index, which it does not modify |
| Builder.GraphEdge | tuxywords/transform.py:72-75 | b is a neighbour of a iff some recorded class holds both |
| Builder.GraphSymmetric | tuxywords/transform.py:72-75 | the adjacency mapping of any index is symmetric |
| Builder.BuiltAdjacency | tuxywords/transform.py:68-76 | for a built index, b is a neighbour of a iff both were connected and they are one letter apart |
| Builder.BuiltKeys | tuxywords/transform.py:68-76 | the keys of the built mapping are exactly the connected non-empty words; the empty word is never a key |
| Builder.SelfNeighbour | tuxywords/transform.py:72-75 | a connected non-empty word is its own neighbour |
| Builder.BuiltGraphIs | tuxywords/transform.py:68-76 | any mapping with those keys and those edges is the built mapping |
| Builder.EmptyBuild | tests/test_transform.py:51 | no words give the empty mapping |
| Builder.SingletonBuild | tests/test_transform.py:52 | one non-empty word is related to itself only |
| Builder.TwoWordBuild | tests/test_transform.py:53-56 | "ab" and "ac" are each related to both |
| Builder.FourWordBuild | tests/test_transform.py:57-62 | the four-word example: "bc" is related to "ac" but not "ab", and "dd" only to itself |
| Finder.FindTransformation | tuxywords/transform.py:93-122 | succeeds iff the start word can reach the end word along neighbour edges; the chain is a shortest such chain with no repeated word; start equal to end gives the one-word chain |
| Finder.Search | tuxywords/transform.py:97-115 | the search leaves well-formed predecessor pointers: each recorded word other than the end points to a recorded word it neighbours, one step closer to the end; an unrecorded start word is unreachable, and a recorded start word's depth plus one bounds the length of every chain |
| Finder.ExamineNeighbours | tuxywords/transform.py:108-115 | earlier records are kept unchanged; every new record is a neighbour of the current word with that word as its predecessor; the words appended to the queue are exactly the new records other than the start word; either the start word was newly recorded (the early stop) or every neighbour is recorded; the search invariant and the queued-once invariant are kept |
| Finder.Finish | tuxywords/transform.py:116-118 | once the queue is empty, an unrecorded start word is unreachable, and a recorded one is no deeper than any chain allows |
| Finder.NoChain | tuxywords/transform.py:116-118 | if every recorded word has all its neighbours recorded and the start word is not recorded, no chain from start to end exists |
| Finder.NoShorterChain | tuxywords/transform.py:107-115 | breadth-first depths are lower bounds: every chain from start to end has more words than the start word's depth |
| Finder.FollowPointers | tuxywords/transform.py:119-122 | following the predecessor pointers from the start word gives a chain to the end word with no repeated word, one longer than the start word's depth |
| Finder.AbsentWordUnreachable | tuxywords/transform.py:108-118 | for distinct words, when the start word is in no neighbour set or the end word is not a key, no chain exists, so the search fails |
| Finder.ReachableSymmetric | tuxywords/transform.py:93-96 | over a symmetric mapping, start reaches end iff end reaches start |
| Finder.ShortestSymmetric | tuxywords/transform.py:93-96 | over a symmetric mapping, shortest chains in the two directions have the same length |
| Cleanup.IsValid | tuxywords/cleanup.py:27-37 | a word is valid iff it is empty or its first character is not uppercase, and none of its characters is an apostrophe |
| Cleanup.EmptyValid | tuxywords/cleanup.py:33-37 | the empty word is valid |
| Cleanup.UppercaseRejects | tuxywords/cleanup.py:33-34 | a word whose first character is uppercase is invalid |
| Cleanup.ApostropheRejects | tuxywords/cleanup.py:35-36 | an apostrophe at any position makes the word invalid |
| Cleanup.LaterCaseIrrelevant | tuxywords/cleanup.py:33-37 | replacing a character after the first with another non-apostrophe does not change the verdict |
| Cleanup.AppendValid | tuxywords/cleanup.py:27-37 | for a non-empty a, a + b is valid iff a is valid and b holds no apostrophe |
| Cleanup.Examples | tests/test_cleanup.py:28-38 | the verdicts on the ten test words, under any case table that agrees on their first letters |

## Left out

- `letter_partitions` is a lazy generator; the model returns the whole sequence of partitions.
- `find_transformation` is a generator that yields the chain and raises `NoTransformationError` lazily. The model returns the whole chain, or the `NoTransformationError` value in place of the exception.
- The order in which Python iterates sets and dictionaries is modelled as an arbitrary choice (`:|`). Which shortest chain is returned among several is therefore not specified. Only its length and its properties are proved.
- Reading a missing key of the builder's `defaultdict` inserts an empty set. That side effect is not modelled: lookups of absent keys return the empty set without changing the map. For `relations[word]` in the finder, the model likewise assumes a word with no neighbours has none. A plain `dict` without the word would raise `KeyError` instead, and that case is not modelled.
- `str.isupper` uses Unicode case tables that are not reproduced here. `IsValid` takes the uppercase test as a parameter. `Cleanup.Examples` assumes only the case of the seven first letters involved.
- `TransformationFinder` only stores its relations mapping, so its constructor is not modelled as a class. `FindTransformation` takes the mapping as a parameter.
- `find_transformation` is split into three methods. `Search` is the breadth-first phase. `FindTransformation` raises the error or walks the pointers with `FollowPointers`. The inner `for` loop is the separate method `ExamineNeighbours`. The `break` on finding the start word is its early `return`. The outer loop then carries on draining the queue, as in the source.
- `RelationsBuilder.__init__` takes an optional word list (`words=None`). The constructor always takes a list; passing no words corresponds to the empty list `[]`.
- The `enumerate` position counter `pos` in `find_transformation` is never used and is not modelled.
- `cleanup.main`, the word-list file handling and `setup.py` are not part of this model. They are file I/O and packaging.
- All character and string handling is on Dafny's `char`; there is no encoding or normalisation.
