/**
 * From the words of a phrase to its whole-phrase pronunciations:
 * `get_word_pronunciations` then `get_phrase_pronunciations`.
 */
module Expansion {
  import opened Wrappers
  import opened Sequences
  import opened PronouncingIndex

  /**
   * `get_word_pronunciations`: the table entry of every word, in order. The
   * source maps the lookup over the words and lets the first `KeyError`
   * escape, so an unknown word fails the whole lookup and names that word.
   */
  function LookupWords(ws: seq<Word>, t: Table): (r: Result<seq<seq<Pronunciation>>, Word>)
    ensures r.Success? <==> forall i :: 0 <= i < |ws| ==> ws[i] in t
    ensures r.Success? ==> |r.value| == |ws| && forall i :: 0 <= i < |ws| ==> r.value[i] == t[ws[i]]
    ensures r.Failure? ==> exists i :: 0 <= i < |ws| && ws[i] == r.error && ws[i] !in t
                                       && forall j :: 0 <= j < i ==> ws[j] in t
  {
    if ws == [] then Success([])
    else if ws[0] !in t then Failure(ws[0])
    else
      match LookupWords(ws[1..], t)
      case Failure(w) => Failure(w)
      case Success(rest) => Success([t[ws[0]]] + rest)
  }

  /**
   * `get_phrase_pronunciations`: one pronunciation chosen per word, in every
   * combination `itertools.product` yields, each flattened into one phoneme
   * sequence.
   */
  function Expand(wps: seq<seq<Pronunciation>>): seq<Pronunciation>
  {
    var combos := Product(wps);
    seq(|combos|, k requires 0 <= k < |combos| => Concat(combos[k]))
  }

  /** There are as many phrase pronunciations as the per-word counts multiply to. */
  lemma ExpandCount(wps: seq<seq<Pronunciation>>)
    ensures |Expand(wps)| == LengthProduct(wps)
  {
    ProductCount(wps);
  }

  /**
   * A phoneme sequence is a phrase pronunciation exactly when it is the
   * in-order concatenation of one pronunciation per word.
   */
  lemma ExpandMembers(wps: seq<seq<Pronunciation>>, x: Pronunciation)
    ensures x in Expand(wps) <==> exists c :: IsChoice(c, wps) && x == Concat(c)
  {
    var combos := Product(wps);
    if x in Expand(wps) {
      var k :| 0 <= k < |combos| && Expand(wps)[k] == x;
      ProductMembers(wps, combos[k]);
    }
    if exists c :: IsChoice(c, wps) && x == Concat(c) {
      var c :| IsChoice(c, wps) && x == Concat(c);
      ProductMembers(wps, c);
      var k :| 0 <= k < |combos| && combos[k] == c;
      assert Expand(wps)[k] == x;
    }
  }

  /** The chosen pronunciations `c` of a phrase give one of its phrase pronunciations. */
  lemma ExpandHas(wps: seq<seq<Pronunciation>>, c: seq<Pronunciation>)
    requires IsChoice(c, wps)
    ensures Concat(c) in Expand(wps)
  {
    ExpandMembers(wps, Concat(c));
  }

  /**
   * A word with two pronunciations followed by a word with one: two phrase
   * pronunciations, the second word's pronunciation after each of the first's.
   */
  lemma ExpandTwoByOne(a: Pronunciation, b: Pronunciation, h: Pronunciation)
    ensures Expand([[a, b], [h]]) == [a + h, b + h]
  {
    var tails: seq<seq<Pronunciation>> := [[]];
    assert [[a, b], [h]][1..] == [[h]];
    assert Product([[h]]) == [[h]] by {
      assert [[h]][1..] == [];
      assert Product([[h]]) == Extend([h], tails);
      assert Prefix(h, tails)[0] == [h];
      assert [h][1..] == [];
      assert Extend([h], tails) == Prefix(h, tails) + Extend([], tails);
    }
    assert Product([[a, b], [h]]) == [[a, h], [b, h]] by {
      assert [a, b][1..] == [b];
      assert [b][1..] == [];
      assert Prefix(a, [[h]])[0] == [a, h];
      assert Prefix(b, [[h]])[0] == [b, h];
      assert Extend([a, b], [[h]]) == Prefix(a, [[h]]) + Extend([b], [[h]]);
      assert Extend([b], [[h]]) == Prefix(b, [[h]]) + Extend([], [[h]]);
    }
    assert Concat([h]) == h by {
      ConcatCons(h, []);
      assert [h] + [] == [h];
    }
    assert Concat([a, h]) == a + h by {
      ConcatCons(a, [h]);
      assert [a] + [h] == [a, h];
    }
    assert Concat([b, h]) == b + h by {
      ConcatCons(b, [h]);
      assert [b] + [h] == [b, h];
    }
    var e := Expand([[a, b], [h]]);
    assert |e| == 2 && e[0] == a + h && e[1] == b + h;
  }

  /**
   * The docstring example: "pajamas" has two pronunciations and "hear" one,
   * so the phrase has exactly two pronunciations, in this order.
   */
  lemma PajamasHear()
    ensures Expand([[["P", "AH0", "JH", "AA1", "M", "AH0", "Z"], ["P", "AH0", "JH", "AE1", "M", "AH0", "Z"]],
                    [["HH", "IY1", "R"]]])
         == [["P", "AH0", "JH", "AA1", "M", "AH0", "Z", "HH", "IY1", "R"],
             ["P", "AH0", "JH", "AE1", "M", "AH0", "Z", "HH", "IY1", "R"]]
  {
    var a: Pronunciation := ["P", "AH0", "JH", "AA1", "M", "AH0", "Z"];
    var b: Pronunciation := ["P", "AH0", "JH", "AE1", "M", "AH0", "Z"];
    var h: Pronunciation := ["HH", "IY1", "R"];
    ExpandTwoByOne(a, b, h);
    assert a + h == ["P", "AH0", "JH", "AA1", "M", "AH0", "Z", "HH", "IY1", "R"];
    assert b + h == ["P", "AH0", "JH", "AE1", "M", "AH0", "Z", "HH", "IY1", "R"];
  }
}
