/**
 * The pronouncing table and its inversion (`invert_CMPD`): from
 * word -> pronunciations to pronunciation -> words.
 */
module PronouncingIndex {
  import opened Sequences

  type Word = string
  type Phoneme = string
  /** An ordered sequence of phoneme symbols such as ["HH", "IY1", "R"]. */
  type Pronunciation = seq<Phoneme>
  /** The pronouncing dictionary: each word's pronunciations, in order. */
  type Table = map<Word, seq<Pronunciation>>
  /** The inverted dictionary: the words sharing each pronunciation. */
  type Index = map<Pronunciation, seq<Word>>

  /** The corpus contract: every word has a pronunciation and none is empty. */
  ghost predicate WellFormedTable(t: Table)
  {
    forall w :: w in t ==> t[w] != [] && forall k :: 0 <= k < |t[w]| ==> t[w][k] != []
  }

  /** `inverted.get(p, [])`. */
  function Bucket(inv: Index, p: Pronunciation): seq<Word>
  {
    if p in inv then inv[p] else []
  }

  /** One step of the inner loop: `w` appended to the bucket of `p`. */
  function Add(inv: Index, p: Pronunciation, w: Word): Index
  {
    inv[p := Bucket(inv, p) + [w]]
  }

  /** The inner loop over `w`'s pronunciations, one `Add` each, in order. */
  function AddAll(inv: Index, w: Word, prons: seq<Pronunciation>): Index
  {
    if prons == [] then inv
    else Add(AddAll(inv, w, prons[..|prons| - 1]), prons[|prons| - 1], w)
  }

  /** What the nested loop builds from the empty dictionary, visiting the words of `ks` in order. */
  function Inverted(t: Table, ks: seq<Word>): Index
    requires forall i :: 0 <= i < |ks| ==> ks[i] in t
  {
    if ks == [] then map[]
    else
      var w := ks[|ks| - 1];
      AddAll(Inverted(t, ks[..|ks| - 1]), w, t[w])
  }

  /**
   * `invert_CMPD`: the nested loop of the source over the table's items in
   * the dictionary's iteration order `order`. Every word lands in the bucket
   * of each of its pronunciations, once per listing, and in no other bucket.
   */
  method Invert(t: Table, order: seq<Word>) returns (inv: Index)
    requires IsKeyOrder(t, order)
    ensures inv == Inverted(t, order)
    ensures forall p, w :: multiset(Bucket(inv, p))[w] == if w in t then multiset(t[w])[p] else 0
    ensures forall p :: p in inv ==> inv[p] != []
  {
    inv := map[];
    var i := 0;
    while i < |order|
      invariant 0 <= i <= |order|
      invariant inv == Inverted(t, order[..i])
    {
      var w := order[i];
      inv := AddPronunciations(inv, w, t[w]);
      InvertedStep(t, order, i);
      i := i + 1;
    }
    assert order[..i] == order;
    InvertedCounts(t, order);
    InvertedBucketsNonEmpty(t, order);
  }

  /** The inner loop of `invert_CMPD`: `w` appended to the bucket of each of `prons`, in order. */
  method AddPronunciations(inv: Index, w: Word, prons: seq<Pronunciation>) returns (r: Index)
    ensures r == AddAll(inv, w, prons)
    ensures forall p :: Bucket(r, p) == Bucket(inv, p) + Matches(w, prons, p)
  {
    r := inv;
    var j := 0;
    while j < |prons|
      invariant 0 <= j <= |prons|
      invariant r == AddAll(inv, w, prons[..j])
    {
      var p := prons[j];
      var bucket := if p in r then r[p] else [];
      r := r[p := bucket + [w]];
      assert prons[..j + 1][..j] == prons[..j];
      j := j + 1;
    }
    assert prons[..j] == prons;
    forall p
      ensures Bucket(r, p) == Bucket(inv, p) + Matches(w, prons, p)
    {
      AddAllBucket(inv, w, prons, p);
    }
  }

  lemma InvertedStep(t: Table, order: seq<Word>, i: nat)
    requires i < |order| && forall k :: 0 <= k < |order| ==> order[k] in t
    ensures Inverted(t, order[..i + 1]) == AddAll(Inverted(t, order[..i]), order[i], t[order[i]])
  {
    assert order[..i + 1][..i] == order[..i];
  }

  // ---------------------------------------------------------------------
  // A reference definition of one bucket
  // ---------------------------------------------------------------------

  /** `w` once for every occurrence of `p` among `prons`. */
  function Matches<W, P(==)>(w: W, prons: seq<P>, p: P): seq<W>
  {
    if prons == [] then []
    else Matches(w, prons[..|prons| - 1], p) + (if prons[|prons| - 1] == p then [w] else [])
  }

  /** `[w for w in ks for q in t[w] if q == p]`: the bucket of `p`, read off the table. */
  function BucketOf(t: Table, ks: seq<Word>, p: Pronunciation): seq<Word>
    requires forall i :: 0 <= i < |ks| ==> ks[i] in t
  {
    if ks == [] then []
    else BucketOf(t, ks[..|ks| - 1], p) + Matches(ks[|ks| - 1], t[ks[|ks| - 1]], p)
  }

  lemma {:induction false} AddAllBucket(inv: Index, w: Word, prons: seq<Pronunciation>, p: Pronunciation)
    ensures Bucket(AddAll(inv, w, prons), p) == Bucket(inv, p) + Matches(w, prons, p)
  {
    if prons != [] {
      AddAllBucket(inv, w, prons[..|prons| - 1], p);
    }
  }

  /** The inverted bucket of `p` is the table's words having `p`, in table order. */
  lemma {:induction false} InvertedBucket(t: Table, ks: seq<Word>, p: Pronunciation)
    requires forall i :: 0 <= i < |ks| ==> ks[i] in t
    ensures Bucket(Inverted(t, ks), p) == BucketOf(t, ks, p)
  {
    if ks != [] {
      var w := ks[|ks| - 1];
      InvertedBucket(t, ks[..|ks| - 1], p);
      AddAllBucket(Inverted(t, ks[..|ks| - 1]), w, t[w], p);
    }
  }

  lemma {:induction false} MatchesCount<W, P>(w: W, prons: seq<P>, p: P, v: W)
    ensures multiset(Matches(w, prons, p))[v] == if v == w then multiset(prons)[p] else 0
  {
    if prons != [] {
      var init, last := prons[..|prons| - 1], prons[|prons| - 1];
      MatchesCount(w, init, p, v);
      assert prons == init + [last];
    }
  }

  lemma {:induction false} BucketOfCount(t: Table, ks: seq<Word>, p: Pronunciation, v: Word)
    requires forall i :: 0 <= i < |ks| ==> ks[i] in t
    requires Distinct(ks)
    ensures multiset(BucketOf(t, ks, p))[v] == if v in ks then multiset(t[v])[p] else 0
  {
    if ks != [] {
      var init, w := ks[..|ks| - 1], ks[|ks| - 1];
      BucketOfCount(t, init, p, v);
      MatchesCount(w, t[w], p, v);
      assert ks == init + [w];
      assert w !in init;
    }
  }

  /**
   * Index membership: a word occurs in the bucket of `p` once per occurrence
   * of `p` among its pronunciations, and words outside the table never occur.
   */
  lemma InvertedCounts(t: Table, order: seq<Word>)
    requires IsKeyOrder(t, order)
    ensures forall p, w :: multiset(Bucket(Inverted(t, order), p))[w]
                           == if w in t then multiset(t[w])[p] else 0
  {
    forall p, w
      ensures multiset(Bucket(Inverted(t, order), p))[w] == if w in t then multiset(t[w])[p] else 0
    {
      InvertedBucket(t, order, p);
      BucketOfCount(t, order, p, w);
    }
  }

  /** The two-way reading of index membership. */
  lemma InvertedMembers(t: Table, order: seq<Word>, p: Pronunciation, w: Word)
    requires IsKeyOrder(t, order)
    ensures w in Bucket(Inverted(t, order), p) <==> w in t && p in t[w]
  {
    InvertedCounts(t, order);
    assert w in Bucket(Inverted(t, order), p) <==> multiset(Bucket(Inverted(t, order), p))[w] > 0;
    if w in t {
      assert p in t[w] <==> multiset(t[w])[p] > 0;
    }
  }

  /** `get` then `append` never leaves an empty bucket behind. */
  lemma {:induction false} InvertedBucketsNonEmpty(t: Table, ks: seq<Word>)
    requires forall i :: 0 <= i < |ks| ==> ks[i] in t
    ensures forall p :: p in Inverted(t, ks) ==> Inverted(t, ks)[p] != []
  {
    forall p | p in Inverted(t, ks)
      ensures Inverted(t, ks)[p] != []
    {
      InvertedBucket(t, ks, p);
      BucketOfKeys(t, ks, p);
    }
  }

  lemma {:induction false} BucketOfKeys(t: Table, ks: seq<Word>, p: Pronunciation)
    requires forall i :: 0 <= i < |ks| ==> ks[i] in t
    ensures p in Inverted(t, ks) <==> BucketOf(t, ks, p) != []
  {
    if ks != [] {
      var init, w := ks[..|ks| - 1], ks[|ks| - 1];
      BucketOfKeys(t, init, p);
      AddAllKeys(Inverted(t, init), w, t[w], p);
      MatchesEmpty(w, t[w], p);
    }
  }

  lemma {:induction false} AddAllKeys(inv: Index, w: Word, prons: seq<Pronunciation>, p: Pronunciation)
    ensures p in AddAll(inv, w, prons) <==> p in inv || p in prons
  {
    if prons != [] {
      var init := prons[..|prons| - 1];
      AddAllKeys(inv, w, init, p);
      assert prons == init + [prons[|prons| - 1]];
    }
  }

  lemma {:induction false} MatchesEmpty(w: Word, prons: seq<Pronunciation>, p: Pronunciation)
    ensures Matches(w, prons, p) == [] <==> p !in prons
  {
    if prons != [] {
      var init := prons[..|prons| - 1];
      MatchesEmpty(w, init, p);
      assert prons == init + [prons[|prons| - 1]];
    }
  }

  /** A pronunciation is a key of the index exactly when some word of the table has it. */
  lemma InvertedKeys(t: Table, order: seq<Word>, p: Pronunciation)
    requires IsKeyOrder(t, order)
    ensures p in Inverted(t, order) <==> exists w :: w in t && p in t[w]
  {
    if p in Inverted(t, order) {
      InvertedBucketsNonEmpty(t, order);
      var w := Inverted(t, order)[p][0];
      InvertedMembers(t, order, p, w);
    }
    if exists w :: w in t && p in t[w] {
      var w :| w in t && p in t[w];
      InvertedMembers(t, order, p, w);
    }
  }

  // ---------------------------------------------------------------------
  // Index size: one entry per (word, pronunciation) pair
  // ---------------------------------------------------------------------

  /** The total length of the lists a map holds, whatever order its keys are taken in. */
  ghost function SumSizes<K, V>(m: map<K, seq<V>>): nat
    decreases |m|
  {
    if |m| == 0 then 0
    else
      var k := PickKey(m);
      |m[k]| + SumSizes(m - {k})
  }

  ghost function PickKey<K, V>(m: map<K, V>): (k: K)
    requires |m| > 0
    ensures k in m && |m - {k}| == |m| - 1
  {
    assert |m.Keys| > 0;
    var k :| k in m.Keys;
    assert (m - {k}).Keys == m.Keys - {k};
    k
  }

  lemma {:induction false} SumSizesRemove<K, V>(m: map<K, seq<V>>, q: K)
    requires q in m
    ensures SumSizes(m) == |m[q]| + SumSizes(m - {q})
    decreases |m|
  {
    var k := PickKey(m);
    if k != q {
      assert (m - {k}) - {q} == (m - {q}) - {k};
      SumSizesRemove(m - {k}, q);
      SumSizesRemove(m - {q}, k);
      assert |m - {q}| == |m| - 1 by {
        assert (m - {q}).Keys == m.Keys - {q};
      }
    }
  }

  /** `SumSizes`, summed along a listing of the keys. */
  function SizesAlong<K, V>(m: map<K, seq<V>>, ks: seq<K>): nat
    requires forall i :: 0 <= i < |ks| ==> ks[i] in m
  {
    if ks == [] then 0 else SizesAlong(m, ks[..|ks| - 1]) + |m[ks[|ks| - 1]]|
  }

  lemma {:induction false} SumSizesAlong<K(!new), V>(m: map<K, seq<V>>, ks: seq<K>)
    requires IsKeyOrder(m, ks)
    ensures SumSizes(m) == SizesAlong(m, ks)
  {
    if ks == [] {
      assert m.Keys == {};
    } else {
      var init, k := ks[..|ks| - 1], ks[|ks| - 1];
      SumSizesRemove(m, k);
      KeyOrderRemoveLast(m, ks);
      SumSizesAlong(m - {k}, init);
      SizesAlongSame(m, m - {k}, init);
    }
  }

  lemma KeyOrderRemoveLast<K(!new), V>(m: map<K, V>, ks: seq<K>)
    requires IsKeyOrder(m, ks) && ks != []
    ensures IsKeyOrder(m - {ks[|ks| - 1]}, ks[..|ks| - 1])
    ensures forall i :: 0 <= i < |ks| - 1 ==> ks[i] != ks[|ks| - 1]
  {
    var init, k := ks[..|ks| - 1], ks[|ks| - 1];
    assert ks == init + [k];
    forall x
      ensures x in m - {k} <==> x in init
    {
      if x in init {
        var i :| 0 <= i < |init| && init[i] == x;
        assert ks[i] == x;
      }
    }
  }

  lemma {:induction false} SizesAlongSame<K, V>(m: map<K, seq<V>>, m': map<K, seq<V>>, ks: seq<K>)
    requires forall i :: 0 <= i < |ks| ==> ks[i] in m && ks[i] in m' && m[ks[i]] == m'[ks[i]]
    ensures SizesAlong(m, ks) == SizesAlong(m', ks)
  {
    if ks != [] {
      SizesAlongSame(m, m', ks[..|ks| - 1]);
    }
  }

  lemma {:induction false} SumSizesAdd(inv: Index, p: Pronunciation, w: Word)
    ensures SumSizes(Add(inv, p, w)) == SumSizes(inv) + 1
  {
    var inv' := Add(inv, p, w);
    SumSizesRemove(inv', p);
    assert inv' - {p} == inv - {p};
    if p in inv {
      SumSizesRemove(inv, p);
    } else {
      assert inv - {p} == inv;
    }
  }

  lemma {:induction false} SumSizesAddAll(inv: Index, w: Word, prons: seq<Pronunciation>)
    ensures SumSizes(AddAll(inv, w, prons)) == SumSizes(inv) + |prons|
  {
    if prons != [] {
      var init := prons[..|prons| - 1];
      SumSizesAddAll(inv, w, init);
      SumSizesAdd(AddAll(inv, w, init), prons[|prons| - 1], w);
    }
  }

  lemma {:induction false} SumSizesInverted(t: Table, ks: seq<Word>)
    requires forall i :: 0 <= i < |ks| ==> ks[i] in t
    ensures SumSizes(Inverted(t, ks)) == SizesAlong(t, ks)
  {
    if ks != [] {
      var init, w := ks[..|ks| - 1], ks[|ks| - 1];
      SumSizesInverted(t, init);
      SumSizesAddAll(Inverted(t, init), w, t[w]);
    }
  }

  /**
   * Index size: the buckets hold as many entries in all as the table holds
   * (word, pronunciation) pairs, since each pair appends exactly one entry.
   */
  lemma InvertedSize(t: Table, order: seq<Word>)
    requires IsKeyOrder(t, order)
    ensures SumSizes(Inverted(t, order)) == SumSizes(t)
  {
    SumSizesInverted(t, order);
    SumSizesAlong(t, order);
  }
}
