/**
 * The enumeration of `more_itertools.partitions`, re-specified: every way to
 * cut a sequence into contiguous non-empty blocks, each way exactly once.
 */
module Segmentation {
  import opened Sequences

  /** `p` cuts `s` into non-empty contiguous blocks. */
  ghost predicate IsComposition<T>(p: seq<seq<T>>, s: seq<T>)
  {
    Concat(p) == s && forall k :: 0 <= k < |p| ==> p[k] != []
  }

  /** A cut right after the head `x`: `x` becomes a block of its own. */
  function CutAfter<T>(x: T, ps: seq<seq<seq<T>>>): seq<seq<seq<T>>>
  {
    seq(|ps|, k requires 0 <= k < |ps| => [[x]] + ps[k])
  }

  /** No cut after the head `x`: `x` joins the block that follows it. */
  function MergeHead<T>(x: T, p: seq<seq<T>>): seq<seq<T>>
  {
    if p == [] then [[x]] else [[x] + p[0]] + p[1..]
  }

  function MergeInto<T>(x: T, ps: seq<seq<seq<T>>>): seq<seq<seq<T>>>
  {
    seq(|ps|, k requires 0 <= k < |ps| => MergeHead(x, ps[k]))
  }

  /**
   * Every partition of `s`: for each of the |s| - 1 boundaries, cut or not,
   * decided from the front. Like `more_itertools.partitions`, the empty
   * sequence has the single partition made of one empty block.
   */
  function Partitions<T>(s: seq<T>): (r: seq<seq<seq<T>>>)
    ensures |s| >= 1 ==> |r| == Pow2(|s| - 1)
    decreases |s|
  {
    if |s| <= 1 then [[s]]
    else
      var rest := Partitions(s[1..]);
      CutAfter(s[0], rest) + MergeInto(s[0], rest)
  }

  /** Every enumerated partition concatenates back to the sequence; for a non-empty one, its blocks are non-empty. */
  lemma {:induction false} PartitionsSound<T>(s: seq<T>, p: seq<seq<T>>)
    requires p in Partitions(s)
    ensures Concat(p) == s
    ensures |s| >= 1 ==> IsComposition(p, s)
    decreases |s|
  {
    if |s| <= 1 {
      assert p == [s];
      ConcatCons(s, []);
      assert [s] + [] == [s];
      assert s + [] == s;
    } else {
      var rest := Partitions(s[1..]);
      var cut, merged := CutAfter(s[0], rest), MergeInto(s[0], rest);
      assert p in cut || p in merged;
      if p in cut {
        var k :| 0 <= k < |cut| && cut[k] == p;
        PartitionsSound(s[1..], rest[k]);
        CutAfterSound(s, rest[k]);
      } else {
        var k :| 0 <= k < |merged| && merged[k] == p;
        PartitionsSound(s[1..], rest[k]);
        MergeHeadSound(s, rest[k]);
      }
    }
  }

  lemma CutAfterSound<T>(s: seq<T>, q: seq<seq<T>>)
    requires |s| >= 2 && IsComposition(q, s[1..])
    ensures IsComposition([[s[0]]] + q, s)
  {
    ConcatCons([s[0]], q);
    assert s == [s[0]] + s[1..];
    var p := [[s[0]]] + q;
    forall k | 0 <= k < |p|
      ensures p[k] != []
    {
      if k > 0 {
        assert p[k] == q[k - 1];
      }
    }
  }

  lemma MergeHeadSound<T>(s: seq<T>, q: seq<seq<T>>)
    requires |s| >= 2 && IsComposition(q, s[1..])
    ensures q != [] && MergeHead(s[0], q) == [[s[0]] + q[0]] + q[1..]
    ensures IsComposition(MergeHead(s[0], q), s)
  {
    assert Concat(q) != [];
    ConcatCons([s[0]] + q[0], q[1..]);
    assert q == [q[0]] + q[1..];
    ConcatCons(q[0], q[1..]);
    assert s == [s[0]] + s[1..];
    var p := [[s[0]] + q[0]] + q[1..];
    forall k | 0 <= k < |p|
      ensures p[k] != []
    {
      if k > 0 {
        assert p[k] == q[k];
      }
    }
  }

  /** Every way to cut a non-empty sequence into non-empty blocks is enumerated. */
  lemma {:induction false} PartitionsComplete<T>(s: seq<T>, p: seq<seq<T>>)
    requires |s| >= 1
    requires IsComposition(p, s)
    ensures p in Partitions(s)
    decreases |s|
  {
    FirstBlock(s, p);
    if |s| == 1 {
      assert p == [s];
    } else {
      var rest := Partitions(s[1..]);
      var cut, merged := CutAfter(s[0], rest), MergeInto(s[0], rest);
      if |p[0]| == 1 {
        CutTail(s, p);
        PartitionsComplete(s[1..], p[1..]);
        CutAfterHas(s[0], rest, p[1..]);
        assert p in cut;
      } else {
        var q := MergeTail(s, p);
        PartitionsComplete(s[1..], q);
        MergeIntoHas(s[0], rest, q);
        assert p in merged;
      }
      assert p in cut + merged;
    }
  }

  lemma CutAfterHas<T>(x: T, ps: seq<seq<seq<T>>>, q: seq<seq<T>>)
    requires q in ps
    ensures [[x]] + q in CutAfter(x, ps)
  {
    var k :| 0 <= k < |ps| && ps[k] == q;
    assert CutAfter(x, ps)[k] == [[x]] + q;
  }

  lemma MergeIntoHas<T>(x: T, ps: seq<seq<seq<T>>>, q: seq<seq<T>>)
    requires q in ps
    ensures MergeHead(x, q) in MergeInto(x, ps)
  {
    var k :| 0 <= k < |ps| && ps[k] == q;
    assert MergeInto(x, ps)[k] == MergeHead(x, q);
  }

  /** A composition starts with a non-empty block that is a prefix of the sequence. */
  lemma FirstBlock<T>(s: seq<T>, p: seq<seq<T>>)
    requires |s| >= 1 && IsComposition(p, s)
    ensures p != [] && p == [p[0]] + p[1..] && s == p[0] + Concat(p[1..])
    ensures p[0] != [] && p[0][0] == s[0]
    ensures |s| == 1 ==> p == [s]
  {
    assert Concat(p) != [];
    ConcatCons(p[0], p[1..]);
    assert p == [p[0]] + p[1..];
    if |s| == 1 {
      assert |Concat(p[1..])| == 0;
      assert p[1..] == [];
      assert Concat(p[1..]) == [];
      assert s == p[0];
    }
  }

  /** A first block of length one is cut off: the other blocks compose the tail. */
  lemma CutTail<T>(s: seq<T>, p: seq<seq<T>>)
    requires |s| >= 2 && IsComposition(p, s)
    requires p != [] && |p[0]| == 1 && s == p[0] + Concat(p[1..]) && p[0][0] == s[0]
    ensures IsComposition(p[1..], s[1..])
    ensures p == [[s[0]]] + p[1..]
  {
    var q := p[1..];
    assert Concat(q) == s[1..];
    forall k | 0 <= k < |q|
      ensures q[k] != []
    {
      assert q[k] == p[k + 1];
    }
    assert p[0] == [s[0]];
    assert p == [p[0]] + q;
  }

  /** A longer first block loses its head: the result composes the tail and merges back to `p`. */
  lemma MergeTail<T>(s: seq<T>, p: seq<seq<T>>) returns (q: seq<seq<T>>)
    requires |s| >= 2 && IsComposition(p, s)
    requires p != [] && |p[0]| >= 2 && s == p[0] + Concat(p[1..]) && p[0][0] == s[0]
    ensures IsComposition(q, s[1..])
    ensures MergeHead(s[0], q) == p
  {
    var b := p[0];
    q := [b[1..]] + p[1..];
    ConcatCons(b[1..], p[1..]);
    assert b == [s[0]] + b[1..];
    assert Concat(q) == s[1..];
    forall k | 0 <= k < |q|
      ensures q[k] != []
    {
      if k > 0 {
        assert q[k] == p[k];
      }
    }
    assert q[0] == b[1..] && q[1..] == p[1..];
    assert p == [p[0]] + p[1..];
  }

  /** Merging the head into the first block can be undone: merged partitions stay distinct. */
  lemma MergeUndone<T>(x: T, q: seq<seq<T>>)
    requires q != []
    ensures MergeHead(x, q)[0][1..] == q[0]
    ensures MergeHead(x, q)[1..] == q[1..]
    ensures q == [q[0]] + q[1..]
  {
  }

  /** No partition is enumerated twice. */
  lemma {:induction false} PartitionsDistinct<T>(s: seq<T>)
    ensures Distinct(Partitions(s))
    decreases |s|
  {
    if |s| > 1 {
      var rest := Partitions(s[1..]);
      PartitionsDistinct(s[1..]);
      PartitionsNonEmpty(s[1..]);
      CutAfterDistinct(s[0], rest);
      MergeIntoDistinct(s[0], rest);
      CutMergeDisjoint(s[0], rest);
      DistinctAppend(CutAfter(s[0], rest), MergeInto(s[0], rest));
    }
  }

  /** The partitions of a non-empty sequence have a first block, and it is not empty. */
  lemma PartitionsNonEmpty<T>(s: seq<T>)
    requires |s| >= 1
    ensures forall k :: 0 <= k < |Partitions(s)| ==> Partitions(s)[k] != [] && Partitions(s)[k][0] != []
  {
    forall k | 0 <= k < |Partitions(s)|
      ensures Partitions(s)[k] != [] && Partitions(s)[k][0] != []
    {
      PartitionsSound(s, Partitions(s)[k]);
      FirstBlock(s, Partitions(s)[k]);
    }
  }

  lemma CutAfterDistinct<T>(x: T, ps: seq<seq<seq<T>>>)
    requires Distinct(ps)
    ensures Distinct(CutAfter(x, ps))
  {
    var cut := CutAfter(x, ps);
    forall i, j | 0 <= i < j < |cut|
      ensures cut[i] != cut[j]
    {
      assert cut[i][1..] == ps[i] && cut[j][1..] == ps[j];
    }
  }

  lemma MergeIntoDistinct<T>(x: T, ps: seq<seq<seq<T>>>)
    requires Distinct(ps)
    requires forall k :: 0 <= k < |ps| ==> ps[k] != []
    ensures Distinct(MergeInto(x, ps))
  {
    var merged := MergeInto(x, ps);
    forall i, j | 0 <= i < j < |merged|
      ensures merged[i] != merged[j]
    {
      MergeUndone(x, ps[i]);
      MergeUndone(x, ps[j]);
    }
  }

  /** A partition that cuts after the head is never one that merges it. */
  lemma CutMergeDisjoint<T>(x: T, ps: seq<seq<seq<T>>>)
    requires forall k :: 0 <= k < |ps| ==> ps[k] != [] && ps[k][0] != []
    ensures forall i, j :: 0 <= i < |ps| && 0 <= j < |ps| ==> CutAfter(x, ps)[i] != MergeInto(x, ps)[j]
  {
    forall i, j | 0 <= i < |ps| && 0 <= j < |ps|
      ensures CutAfter(x, ps)[i] != MergeInto(x, ps)[j]
    {
      assert |CutAfter(x, ps)[i][0]| == 1;
      assert |MergeInto(x, ps)[j][0]| == 1 + |ps[j][0]|;
    }
  }

  /**
   * The partitions of a non-empty sequence are exactly its compositions, each
   * enumerated once: 2^(n-1) of them for a sequence of length n.
   */
  lemma PartitionsExact<T>(s: seq<T>)
    requires |s| >= 1
    ensures forall p :: p in Partitions(s) <==> IsComposition(p, s)
    ensures Distinct(Partitions(s))
    ensures |Partitions(s)| == Pow2(|s| - 1)
  {
    forall p
      ensures p in Partitions(s) <==> IsComposition(p, s)
    {
      if p in Partitions(s) {
        PartitionsSound(s, p);
      }
      if IsComposition(p, s) {
        PartitionsComplete(s, p);
      }
    }
    PartitionsDistinct(s);
  }
}
