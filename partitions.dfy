/**
 Letter partitions of a word and the one-letter-substitution relation they
 induce. A partition of a word is the pair (prefix, suffix) left around one
 removed letter; two words share a partition exactly when they have the same
 non-zero length and differ in at most one position.
 */
module Partitions {

  type Partition<C> = (seq<C>, seq<C>)

  /** The partitions of `w`, one per position, in position order. */
  function LetterPartitions<C>(w: seq<C>): (ps: seq<Partition<C>>)
    ensures |ps| == |w|
  {
    seq(|w|, i requires 0 <= i < |w| => (w[..i], w[i + 1..]))
  }

  /** The i-th partition is a prefix of length i and the suffix after the letter at i. */
  lemma PartitionAt<C>(w: seq<C>, i: nat)
    requires i < |w|
    ensures |LetterPartitions(w)[i].0| == i
    ensures LetterPartitions(w)[i].0 + [w[i]] + LetterPartitions(w)[i].1 == w
  {
    assert w == w[..i] + [w[i]] + w[i + 1..];
  }

  /** A pair is a partition of `w` iff it is `w` with the letter at position |prefix| removed. */
  lemma PartitionMembership<C>(w: seq<C>, p: Partition<C>)
    ensures p in LetterPartitions(w) <==> |p.0| < |w| && p.0 + [w[|p.0|]] + p.1 == w
  {
    var ps := LetterPartitions(w);
    if p in ps {
      var i :| 0 <= i < |ps| && ps[i] == p;
      PartitionAt(w, i);
    }
    if |p.0| < |w| && p.0 + [w[|p.0|]] + p.1 == w {
      var i := |p.0|;
      PartitionAt(w, i);
      assert p.0 == w[..i] == ps[i].0;
      assert p.1 == w[i + 1..] == ps[i].1;
    }
  }

  /** Every partition of `w` leaves exactly |w| - 1 letters. */
  lemma PartitionLength<C>(w: seq<C>, p: Partition<C>)
    requires p in LetterPartitions(w)
    ensures |p.0| + |p.1| + 1 == |w|
  {
    PartitionMembership(w, p);
  }

  /** Number of positions at which two words of equal length differ. */
  function Mismatches<C(==)>(a: seq<C>, b: seq<C>): (n: nat)
    requires |a| == |b|
    ensures n <= |a|
    ensures n == 0 <==> a == b
  {
    if |a| == 0 then 0
    else
      assert a == [a[0]] + a[1..] && b == [b[0]] + b[1..];
      (if a[0] == b[0] then 0 else 1) + Mismatches(a[1..], b[1..])
  }

  /** The word-ladder relation, stated without partitions. */
  predicate OneLetterApart<C(==)>(a: seq<C>, b: seq<C>)
  {
    |a| == |b| && |a| > 0 && Mismatches(a, b) <= 1
  }

  ghost predicate SharePartition<C>(a: seq<C>, b: seq<C>)
  {
    exists p :: p in LetterPartitions(a) && p in LetterPartitions(b)
  }

  /** Words that agree outside position i differ in at most one position. */
  lemma {:induction false} AgreeOutside<C>(a: seq<C>, b: seq<C>, i: nat)
    requires |a| == |b| && i < |a|
    requires a[..i] == b[..i] && a[i + 1..] == b[i + 1..]
    ensures Mismatches(a, b) <= 1
  {
    if i == 0 {
      assert a[1..] == b[1..];
    } else {
      assert a[0] == a[..i][0] == b[..i][0] == b[0];
      assert a[1..][..i - 1] == a[1..i] == a[..i][1..];
      assert b[1..][..i - 1] == b[1..i] == b[..i][1..];
      assert a[1..][i..] == a[i + 1..] && b[1..][i..] == b[i + 1..];
      AgreeOutside(a[1..], b[1..], i - 1);
    }
  }

  /** Removing the first letter gives a partition. */
  lemma HeadPartition<C>(x: C, t: seq<C>)
    ensures ([], t) in LetterPartitions([x] + t)
  {
    PartitionMembership([x] + t, ([], t));
  }

  /** A partition of a tail extends to a partition of the whole word. */
  lemma ConsPartition<C>(x: C, t: seq<C>, q: Partition<C>)
    requires q in LetterPartitions(t)
    ensures ([x] + q.0, q.1) in LetterPartitions([x] + t)
  {
    PartitionMembership(t, q);
    var w, p := [x] + t, ([x] + q.0, q.1);
    assert w[|p.0|] == t[|q.0|];
    assert p.0 + [w[|p.0|]] + p.1 == [x] + (q.0 + [t[|q.0|]] + q.1);
    PartitionMembership(w, p);
  }

  /** Words at most one letter apart share a partition. */
  lemma {:induction false} CommonPartition<C>(a: seq<C>, b: seq<C>)
    requires OneLetterApart(a, b)
    ensures SharePartition(a, b)
  {
    assert a == [a[0]] + a[1..] && b == [b[0]] + b[1..];
    if a[0] != b[0] || |a| == 1 {
      assert a[1..] == b[1..];
      HeadPartition(a[0], a[1..]);
      HeadPartition(b[0], b[1..]);
    } else {
      CommonPartition(a[1..], b[1..]);
      var q :| q in LetterPartitions(a[1..]) && q in LetterPartitions(b[1..]);
      ConsPartition(a[0], a[1..], q);
      ConsPartition(b[0], b[1..], q);
    }
  }

  /** Words that share a partition are at most one letter apart. */
  lemma SharedPartitionApart<C>(a: seq<C>, b: seq<C>, p: Partition<C>)
    requires p in LetterPartitions(a) && p in LetterPartitions(b)
    ensures OneLetterApart(a, b)
  {
    PartitionMembership(a, p);
    PartitionMembership(b, p);
    var i := |p.0|;
    assert a[..i] == p.0 == b[..i];
    assert a[i + 1..] == p.1 == b[i + 1..];
    AgreeOutside(a, b, i);
  }

  /** Two words share a partition iff they are at most one letter apart. */
  lemma SharePartitionIff<C>(a: seq<C>, b: seq<C>)
    ensures SharePartition(a, b) <==> OneLetterApart(a, b)
  {
    if SharePartition(a, b) {
      var p :| p in LetterPartitions(a) && p in LetterPartitions(b);
      SharedPartitionApart(a, b, p);
    }
    if OneLetterApart(a, b) {
      CommonPartition(a, b);
    }
  }

  /** The partitions of the words in the source's examples, in position order. */
  lemma Examples()
    ensures LetterPartitions("a") == [("", "")]
    ensures LetterPartitions("lo") == [("", "o"), ("l", "")]
    ensures LetterPartitions("foo") == [("", "oo"), ("f", "o"), ("fo", "")]
    ensures LetterPartitions("wxyz") == [("", "xyz"), ("w", "yz"), ("wx", "z"), ("wxy", "")]
  {
    var w := "wxyz";
    assert w[..0] == "" && w[1..] == "xyz";
    assert w[..1] == "w" && w[2..] == "yz";
    assert w[..2] == "wx" && w[3..] == "z";
    assert w[..3] == "wxy" && w[4..] == "";
    var f := "foo";
    assert f[..0] == "" && f[1..] == "oo";
    assert f[..1] == "f" && f[2..] == "o";
    assert f[..2] == "fo" && f[3..] == "";
    var l := "lo";
    assert l[..0] == "" && l[1..] == "o";
    assert l[..1] == "l" && l[2..] == "";
    assert "a"[..0] == "" && "a"[1..] == "";
  }
}
