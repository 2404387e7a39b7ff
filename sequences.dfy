/** Failure-carrying values: a block lookup that misses, a word that is unknown. */
module Wrappers {

  datatype Option<+T> = None | Some(value: T)

  datatype Result<+T, +E> = Success(value: T) | Failure(error: E)
}

/**
 * The sequence combinators the engine is built from: flattening, the
 * Cartesian product of `itertools.product`, and `' '.join`.
 */
module Sequences {

  /** `[x for s in ss for x in s]`: the blocks of `ss` laid end to end. */
  function Concat<T>(ss: seq<seq<T>>): seq<T>
  {
    if ss == [] then [] else ss[0] + Concat(ss[1..])
  }

  lemma ConcatCons<T>(a: seq<T>, ss: seq<seq<T>>)
    ensures Concat([a] + ss) == a + Concat(ss)
  {
    assert ([a] + ss)[1..] == ss;
  }

  lemma {:induction false} ConcatAppend<T>(ss: seq<seq<T>>, tt: seq<seq<T>>)
    ensures Concat(ss + tt) == Concat(ss) + Concat(tt)
  {
    if ss == [] {
      assert ss + tt == tt;
    } else {
      assert (ss + tt)[1..] == ss[1..] + tt;
      ConcatAppend(ss[1..], tt);
    }
  }

  /** No element occurs twice. */
  ghost predicate Distinct<T>(s: seq<T>)
  {
    forall i, j :: 0 <= i < j < |s| ==> s[i] != s[j]
  }

  /** Two duplicate-free sequences with no element in common concatenate without duplicates. */
  lemma DistinctAppend<T>(a: seq<T>, b: seq<T>)
    requires Distinct(a) && Distinct(b)
    requires forall i, j :: 0 <= i < |a| && 0 <= j < |b| ==> a[i] != b[j]
    ensures Distinct(a + b)
  {
    var ab := a + b;
    forall i, j | 0 <= i < j < |ab|
      ensures ab[i] != ab[j]
    {
      if j < |a| {
        assert ab[i] == a[i] && ab[j] == a[j];
      } else if i >= |a| {
        assert ab[i] == b[i - |a|] && ab[j] == b[j - |a|];
      } else {
        assert ab[i] == a[i] && ab[j] == b[j - |a|];
      }
    }
  }

  /** `order` lists every key of `m` exactly once (a dictionary's iteration order). */
  ghost predicate IsKeyOrder<K(!new), V>(m: map<K, V>, order: seq<K>)
  {
    (forall k :: k in m <==> k in order) && Distinct(order)
  }

  function Pow2(n: nat): (r: nat)
    ensures r >= 1
  {
    if n == 0 then 1 else 2 * Pow2(n - 1)
  }

  // ---------------------------------------------------------------------
  // itertools.product
  // ---------------------------------------------------------------------

  /** `x` put in front of every tail, in order. */
  function Prefix<T>(x: T, tails: seq<seq<T>>): seq<seq<T>>
  {
    seq(|tails|, k requires 0 <= k < |tails| => [x] + tails[k])
  }

  /** For each choice `x` of `xs` in order, every tail prefixed with `x`. */
  function Extend<T>(xs: seq<T>, tails: seq<seq<T>>): seq<seq<T>>
  {
    if xs == [] then [] else Prefix(xs[0], tails) + Extend(xs[1..], tails)
  }

  /**
   * The tuples of `itertools.product(*ls)`, in the order it yields them: the
   * choice for `ls[0]` varies slowest. The product of no lists is the one
   * empty tuple.
   */
  function Product<T>(ls: seq<seq<T>>): seq<seq<T>>
  {
    if ls == [] then [[]] else Extend(ls[0], Product(ls[1..]))
  }

  /** The product of the lengths of the lists. */
  function LengthProduct<T>(ls: seq<seq<T>>): nat
  {
    if ls == [] then 1 else |ls[0]| * LengthProduct(ls[1..])
  }

  /** `c` picks one element from each list of `ls`, in order. */
  ghost predicate IsChoice<T>(c: seq<T>, ls: seq<seq<T>>)
  {
    |c| == |ls| && forall i :: 0 <= i < |c| ==> c[i] in ls[i]
  }

  lemma {:induction false} ExtendLength<T>(xs: seq<T>, tails: seq<seq<T>>)
    ensures |Extend(xs, tails)| == |xs| * |tails|
  {
    if xs != [] {
      ExtendLength(xs[1..], tails);
      calc {
        |Extend(xs, tails)|;
        |tails| + |Extend(xs[1..], tails)|;
        |tails| + (|xs| - 1) * |tails|;
        |xs| * |tails|;
      }
    }
  }

  lemma {:induction false} ExtendMembers<T>(xs: seq<T>, tails: seq<seq<T>>, c: seq<T>)
    ensures c in Extend(xs, tails) <==> |c| > 0 && c[0] in xs && c[1..] in tails
  {
    if xs != [] {
      ExtendMembers(xs[1..], tails, c);
      if c in Prefix(xs[0], tails) {
        var k :| 0 <= k < |tails| && Prefix(xs[0], tails)[k] == c;
        assert c[1..] == tails[k];
      }
      if |c| > 0 && c[0] == xs[0] && c[1..] in tails {
        var k :| 0 <= k < |tails| && tails[k] == c[1..];
        assert Prefix(xs[0], tails)[k] == c;
      }
      if |c| > 0 {
        assert c[0] in xs <==> c[0] == xs[0] || c[0] in xs[1..] by {
          assert xs == [xs[0]] + xs[1..];
        }
      }
    }
  }

  /** The product yields exactly as many tuples as the lengths multiply to. */
  lemma {:induction false} ProductCount<T>(ls: seq<seq<T>>)
    ensures |Product(ls)| == LengthProduct(ls)
  {
    if ls != [] {
      ProductCount(ls[1..]);
      ExtendLength(ls[0], Product(ls[1..]));
    }
  }

  /** A tuple is in the product exactly when it picks one element per list. */
  lemma {:induction false} ProductMembers<T>(ls: seq<seq<T>>, c: seq<T>)
    ensures c in Product(ls) <==> IsChoice(c, ls)
  {
    if ls == [] {
      assert c in Product(ls) <==> c == [];
    } else {
      ExtendMembers(ls[0], Product(ls[1..]), c);
      if |c| > 0 {
        ProductMembers(ls[1..], c[1..]);
        if IsChoice(c, ls) {
          assert IsChoice(c[1..], ls[1..]) by {
            forall i | 0 <= i < |c| - 1
              ensures c[1..][i] in ls[1..][i]
            {
              assert c[i + 1] in ls[i + 1];
            }
          }
        }
        if c[0] in ls[0] && IsChoice(c[1..], ls[1..]) {
          forall i | 0 <= i < |c|
            ensures c[i] in ls[i]
          {
            if i > 0 {
              assert c[1..][i - 1] in ls[1..][i - 1];
            }
          }
        }
      }
    }
  }

  // ---------------------------------------------------------------------
  // A loop that extends a list with f(x) for every x
  // ---------------------------------------------------------------------

  /** `out = []; for x in xs: out.extend(f(x))`. */
  function FlatMap<A, B>(f: A -> seq<B>, xs: seq<A>): seq<B>
  {
    if xs == [] then [] else FlatMap(f, xs[..|xs| - 1]) + f(xs[|xs| - 1])
  }

  /** One more iteration extends the output with `f` of the next element. */
  lemma FlatMapStep<A, B>(f: A -> seq<B>, xs: seq<A>, i: nat)
    requires i < |xs|
    ensures FlatMap(f, xs[..i + 1]) == FlatMap(f, xs[..i]) + f(xs[i])
  {
    assert xs[..i + 1][..i] == xs[..i];
  }

  /** The outputs for `a` stay in place, ahead of those for `b`. */
  lemma {:induction false} FlatMapAppend<A, B>(f: A -> seq<B>, a: seq<A>, b: seq<A>)
    ensures FlatMap(f, a + b) == FlatMap(f, a) + FlatMap(f, b)
  {
    if b == [] {
      assert a + b == a;
    } else {
      var init := b[..|b| - 1];
      assert (a + b)[..|a + b| - 1] == a + init;
      assert (a + b)[|a + b| - 1] == b[|b| - 1];
      FlatMapAppend(f, a, init);
    }
  }

  /** An output element comes from `f` of some element of `xs`, and every such element is output. */
  lemma {:induction false} FlatMapMembers<A, B>(f: A -> seq<B>, xs: seq<A>, y: B)
    ensures y in FlatMap(f, xs) <==> exists i :: 0 <= i < |xs| && y in f(xs[i])
  {
    if xs != [] {
      var init := xs[..|xs| - 1];
      FlatMapMembers(f, init, y);
      if exists i :: 0 <= i < |xs| && y in f(xs[i]) {
        var i :| 0 <= i < |xs| && y in f(xs[i]);
        if i < |xs| - 1 {
          assert init[i] == xs[i];
        }
      }
      if exists i :: 0 <= i < |init| && y in f(init[i]) {
        var i :| 0 <= i < |init| && y in f(init[i]);
        assert xs[i] == init[i];
      }
    }
  }

  // ---------------------------------------------------------------------
  // ' '.join and its inverse str.split(' ')
  // ---------------------------------------------------------------------

  /** `' '.join(ws)`: the words separated by single spaces. */
  function Join(ws: seq<string>): string
  {
    if |ws| == 0 then "" else if |ws| == 1 then ws[0] else ws[0] + " " + Join(ws[1..])
  }

  lemma JoinPair(a: string, b: string)
    ensures Join([a, b]) == a + " " + b
  {
    assert [a, b][1..] == [b];
  }

  /** `s.split(' ')`: the pieces between single spaces, empty pieces kept. */
  function Split(s: string): (r: seq<string>)
    ensures |r| >= 1
  {
    if s == [] then [""]
    else
      var rest := Split(s[1..]);
      if s[0] == ' ' then [""] + rest else [[s[0]] + rest[0]] + rest[1..]
  }

  lemma {:induction false} SplitWord(w: string, tail: string)
    requires ' ' !in w
    ensures Split(w + tail) == [w + Split(tail)[0]] + Split(tail)[1..]
  {
    if w != [] {
      assert (w + tail)[0] == w[0];
      assert (w + tail)[1..] == w[1..] + tail;
      SplitWord(w[1..], tail);
      assert [w[0]] + (w[1..] + Split(tail)[0]) == w + Split(tail)[0];
    } else {
      assert w + tail == tail;
      assert w + Split(tail)[0] == Split(tail)[0];
      assert Split(tail) == [Split(tail)[0]] + Split(tail)[1..];
    }
  }

  /**
   * Joining words that contain no space and splitting the phrase again gives
   * the words back: a phrase determines the word list it was joined from.
   */
  lemma {:induction false} SplitJoin(ws: seq<string>)
    requires |ws| >= 1
    requires forall i :: 0 <= i < |ws| ==> ' ' !in ws[i]
    ensures Split(Join(ws)) == ws
  {
    if |ws| == 1 {
      SplitWord(ws[0], "");
      assert ws[0] + "" == ws[0];
    } else {
      var rest := Join(ws[1..]);
      SplitJoin(ws[1..]);
      assert ws[0] + " " + rest == ws[0] + (" " + rest);
      SplitWord(ws[0], " " + rest);
      assert (" " + rest)[1..] == rest;
      assert Split(" " + rest) == [""] + ws[1..];
      assert ws[0] + "" == ws[0];
    }
  }
}
