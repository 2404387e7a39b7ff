/**
 * Reconstruction and search: `part_to_phrases`, `get_phrases` and the
 * composition inside `wordsmith`, with the theorems that the search finds
 * exactly the homophonous word sequences.
 */
module Homophones {
  import opened Wrappers
  import opened Sequences
  import opened PronouncingIndex
  import opened Expansion
  import opened Segmentation

  /** Words joined by single spaces. */
  type Phrase = string

  // ---------------------------------------------------------------------
  // part_to_phrases
  // ---------------------------------------------------------------------

  /** Every block of the partition is a key of the index. */
  predicate AllFound(part: seq<Pronunciation>, inv: Index)
  {
    forall k :: 0 <= k < |part| ==> part[k] in inv
  }

  /** The bucket of each block, in block order. */
  function Buckets(part: seq<Pronunciation>, inv: Index): seq<seq<Word>>
    requires AllFound(part, inv)
  {
    seq(|part|, k requires 0 <= k < |part| => inv[part[k]])
  }

  /** `[' '.join(c) for c in combos]`. */
  function JoinEach(combos: seq<seq<Word>>): seq<Phrase>
  {
    seq(|combos|, k requires 0 <= k < |combos| => Join(combos[k]))
  }

  /**
   * What `part_to_phrases` computes: `None` stands for the `KeyError` of a
   * block missing from the index; otherwise one phrase per combination of
   * one word per block.
   */
  function Reconstruct(part: seq<Pronunciation>, inv: Index): Option<seq<Phrase>>
  {
    if AllFound(part, inv) then Some(JoinEach(Product(Buckets(part, inv)))) else None
  }

  /**
   * `part_to_phrases`: look every block up in order, stopping at the first
   * miss; then join each combination of the per-block word lists.
   */
  method PartToPhrases(part: seq<Pronunciation>, inv: Index) returns (r: Option<seq<Phrase>>)
    ensures r == Reconstruct(part, inv)
    ensures r.Some? <==> AllFound(part, inv)
  {
    var lists: seq<seq<Word>> := [];
    var i := 0;
    while i < |part|
      invariant 0 <= i <= |part|
      invariant AllFound(part[..i], inv)
      invariant lists == Buckets(part[..i], inv)
    {
      if part[i] !in inv {
        return None;
      }
      lists := lists + [inv[part[i]]];
      i := i + 1;
    }
    assert part[..i] == part;
    r := Some(JoinEach(Product(lists)));
  }

  /** `vs` reads the blocks of `part` one word per block: each word is in its block's bucket. */
  ghost predicate Spelled(vs: seq<Word>, part: seq<Pronunciation>, inv: Index)
  {
    |vs| == |part| && forall k :: 0 <= k < |part| ==> part[k] in inv && vs[k] in inv[part[k]]
  }

  /** What a lookup contributes to the result: nothing when it missed. */
  function Emitted(r: Option<seq<Phrase>>): seq<Phrase>
  {
    if r.Some? then r.value else []
  }

  /**
   * Block reconstruction: the phrases of a partition are exactly the joins
   * of the word sequences that read its blocks; if a block misses there are
   * none.
   */
  lemma ReconstructMembers(part: seq<Pronunciation>, inv: Index, x: Phrase)
    ensures x in Emitted(Reconstruct(part, inv)) <==> exists vs :: Spelled(vs, part, inv) && x == Join(vs)
  {
    if AllFound(part, inv) {
      var bs := Buckets(part, inv);
      var combos := Product(bs);
      if x in Emitted(Reconstruct(part, inv)) {
        var k :| 0 <= k < |combos| && JoinEach(combos)[k] == x;
        ProductMembers(bs, combos[k]);
        assert Spelled(combos[k], part, inv);
      }
      if exists vs :: Spelled(vs, part, inv) && x == Join(vs) {
        var vs :| Spelled(vs, part, inv) && x == Join(vs);
        assert IsChoice(vs, bs);
        ProductMembers(bs, vs);
        var k :| 0 <= k < |combos| && combos[k] == vs;
        assert JoinEach(combos)[k] == x;
      }
    } else {
      var k :| 0 <= k < |part| && part[k] !in inv;
      assert forall vs :: !Spelled(vs, part, inv) by {
        forall vs
          ensures !Spelled(vs, part, inv)
        {
          if |vs| == |part| {
            assert part[k] !in inv;
          }
        }
      }
    }
  }

  /** When every block is found there is one phrase per combination: the bucket sizes multiplied. */
  lemma ReconstructCount(part: seq<Pronunciation>, inv: Index)
    requires AllFound(part, inv)
    ensures Reconstruct(part, inv).Some?
    ensures |Reconstruct(part, inv).value| == LengthProduct(Buckets(part, inv))
  {
    ProductCount(Buckets(part, inv));
  }

  // ---------------------------------------------------------------------
  // get_phrases
  // ---------------------------------------------------------------------

  /** What one partition contributes to the result. */
  function EmittedBy(inv: Index): seq<Pronunciation> -> seq<Phrase>
  {
    part => Emitted(Reconstruct(part, inv))
  }

  /** The reconstructions of the partitions `parts`, concatenated in order, misses dropped. */
  function PhrasesOfParts(parts: seq<seq<Pronunciation>>, inv: Index): seq<Phrase>
  {
    FlatMap(EmittedBy(inv), parts)
  }

  /** What one phrase pronunciation contributes: the reconstructions of all its partitions. */
  function PhrasesOfPron(inv: Index): Pronunciation -> seq<Phrase>
  {
    pron => PhrasesOfParts(Partitions(pron), inv)
  }

  /** What `get_phrases` returns: for each phrase pronunciation in order, the reconstructions of all its partitions. */
  function PhrasesOf(prons: seq<Pronunciation>, inv: Index): seq<Phrase>
  {
    FlatMap(PhrasesOfPron(inv), prons)
  }

  /**
   * `get_phrases`: the loop over the phrase pronunciations, extending the
   * result with the reconstructions of every partition of each.
   */
  method GetPhrases(prons: seq<Pronunciation>, inv: Index) returns (phrases: seq<Phrase>)
    ensures phrases == PhrasesOf(prons, inv)
  {
    phrases := [];
    var i := 0;
    while i < |prons|
      invariant 0 <= i <= |prons|
      invariant phrases == PhrasesOf(prons[..i], inv)
    {
      var parts := Partitions(prons[i]);
      phrases := ExtendWithParts(phrases, parts, inv);
      PhrasesOfStep(prons, i, inv, parts);
      i := i + 1;
    }
    assert prons[..i] == prons;
  }

  /**
   * The inner loop of `get_phrases`: every partition in order, each
   * reconstruction that did not miss appended to the result.
   */
  method ExtendWithParts(phrases: seq<Phrase>, parts: seq<seq<Pronunciation>>, inv: Index)
    returns (r: seq<Phrase>)
    ensures r == phrases + PhrasesOfParts(parts, inv)
  {
    r := phrases;
    var j := 0;
    while j < |parts|
      invariant 0 <= j <= |parts|
      invariant r == phrases + PhrasesOfParts(parts[..j], inv)
    {
      var found := PartToPhrases(parts[j], inv);
      if found.Some? {
        r := r + found.value;
      }
      ExtendStep(phrases, parts, j, inv, found);
      j := j + 1;
    }
    assert parts[..j] == parts;
  }

  lemma PhrasesOfStep(prons: seq<Pronunciation>, i: nat, inv: Index, parts: seq<seq<Pronunciation>>)
    requires i < |prons| && parts == Partitions(prons[i])
    ensures PhrasesOf(prons[..i + 1], inv) == PhrasesOf(prons[..i], inv) + PhrasesOfParts(parts, inv)
  {
    FlatMapStep(PhrasesOfPron(inv), prons, i);
  }

  lemma PhrasesOfPartsStep(parts: seq<seq<Pronunciation>>, j: nat, inv: Index, found: Option<seq<Phrase>>)
    requires j < |parts| && found == Reconstruct(parts[j], inv)
    ensures PhrasesOfParts(parts[..j + 1], inv) == PhrasesOfParts(parts[..j], inv) + Emitted(found)
  {
    FlatMapStep(EmittedBy(inv), parts, j);
    assert EmittedBy(inv)(parts[j]) == Emitted(found);
  }

  lemma ExtendStep(phrases: seq<Phrase>, parts: seq<seq<Pronunciation>>, j: nat, inv: Index,
                   found: Option<seq<Phrase>>)
    requires j < |parts| && found == Reconstruct(parts[j], inv)
    ensures phrases + PhrasesOfParts(parts[..j + 1], inv)
            == phrases + PhrasesOfParts(parts[..j], inv) + Emitted(found)
  {
    PhrasesOfPartsStep(parts, j, inv, found);
  }

  /**
   * Result order: the phrases of later pronunciations come after those of
   * earlier ones, which are never removed, reordered or deduplicated.
   */
  lemma PhrasesAppend(a: seq<Pronunciation>, b: seq<Pronunciation>, inv: Index)
    ensures PhrasesOf(a + b, inv) == PhrasesOf(a, inv) + PhrasesOf(b, inv)
  {
    FlatMapAppend(PhrasesOfPron(inv), a, b);
  }

  /**
   * A phrase is in the result exactly when some partition of some phrase
   * pronunciation reconstructs it.
   */
  lemma PhrasesMembers(prons: seq<Pronunciation>, inv: Index, x: Phrase)
    ensures x in PhrasesOf(prons, inv)
            <==> exists i, part :: 0 <= i < |prons| && part in Partitions(prons[i])
                                   && x in Emitted(Reconstruct(part, inv))
  {
    FlatMapMembers(PhrasesOfPron(inv), prons, x);
    if x in PhrasesOf(prons, inv) {
      var i :| 0 <= i < |prons| && x in PhrasesOfPron(inv)(prons[i]);
      var parts := Partitions(prons[i]);
      FlatMapMembers(EmittedBy(inv), parts, x);
      var k :| 0 <= k < |parts| && x in EmittedBy(inv)(parts[k]);
      assert parts[k] in Partitions(prons[i]);
    }
    if exists i, part :: 0 <= i < |prons| && part in Partitions(prons[i])
                         && x in Emitted(Reconstruct(part, inv)) {
      var i, part :| 0 <= i < |prons| && part in Partitions(prons[i])
                     && x in Emitted(Reconstruct(part, inv));
      var parts := Partitions(prons[i]);
      var k :| 0 <= k < |parts| && parts[k] == part;
      FlatMapMembers(EmittedBy(inv), parts, x);
      assert x in PhrasesOfPron(inv)(prons[i]);
    }
  }

  // ---------------------------------------------------------------------
  // wordsmith
  // ---------------------------------------------------------------------

  /** What `wordsmith` returns for an already tokenized, lower-cased phrase. */
  function Search(ws: seq<Word>, t: Table, inv: Index): Result<seq<Phrase>, Word>
  {
    match LookupWords(ws, t)
    case Failure(w) => Failure(w)
    case Success(wps) => Success(PhrasesOf(Expand(wps), inv))
  }

  /**
   * `wordsmith` after tokenization: look the words up, expand their
   * pronunciations, and reconstruct every partition of every phrase
   * pronunciation. An unknown word fails the whole query.
   */
  method Wordsmith(ws: seq<Word>, t: Table, inv: Index) returns (r: Result<seq<Phrase>, Word>)
    ensures r == Search(ws, t, inv)
    ensures r.Failure? <==> exists i :: 0 <= i < |ws| && ws[i] !in t
  {
    var wps := LookupWords(ws, t);
    if wps.Failure? {
      return Failure(wps.error);
    }
    var prons := Expand(wps.value);
    var phrases := GetPhrases(prons, inv);
    r := Success(phrases);
  }

  /** `c[i]` is one of the table's pronunciations of `ws[i]`, for every `i`. */
  ghost predicate Pronounces(t: Table, ws: seq<Word>, c: seq<Pronunciation>)
  {
    |ws| == |c| && forall i :: 0 <= i < |ws| ==> ws[i] in t && c[i] in t[ws[i]]
  }

  /** `vs` can be pronounced exactly like `ws`, phoneme for phoneme. */
  ghost predicate Homophonous(t: Table, ws: seq<Word>, vs: seq<Word>)
  {
    exists c, d :: Pronounces(t, ws, c) && Pronounces(t, vs, d) && Concat(c) == Concat(d)
  }

  /** An unknown word fails the query, naming the first unknown word; otherwise it succeeds. */
  lemma SearchUnknownWord(ws: seq<Word>, t: Table, inv: Index)
    ensures Search(ws, t, inv).Failure? <==> exists i :: 0 <= i < |ws| && ws[i] !in t
    ensures Search(ws, t, inv).Failure? ==>
              exists i :: 0 <= i < |ws| && ws[i] == Search(ws, t, inv).error && ws[i] !in t
                          && forall j :: 0 <= j < i ==> ws[j] in t
  {
  }

  /** Only homophones are found: every result joins words pronounced like the query. */
  lemma SearchSound(ws: seq<Word>, t: Table, order: seq<Word>, x: Phrase)
    requires IsKeyOrder(t, order)
    requires Search(ws, t, Inverted(t, order)).Success?
    requires x in Search(ws, t, Inverted(t, order)).value
    ensures exists vs :: x == Join(vs) && Homophonous(t, ws, vs)
  {
    var inv := Inverted(t, order);
    var wps := LookupWords(ws, t).value;
    var prons := Expand(wps);
    PhrasesMembers(prons, inv, x);
    var i, part :| 0 <= i < |prons| && part in Partitions(prons[i])
                   && x in Emitted(Reconstruct(part, inv));
    ReconstructMembers(part, inv, x);
    var vs :| Spelled(vs, part, inv) && x == Join(vs);
    ExpandMembers(wps, prons[i]);
    var c :| IsChoice(c, wps) && prons[i] == Concat(c);
    assert Pronounces(t, ws, c);
    PartitionsSound(prons[i], part);
    forall k | 0 <= k < |vs|
      ensures vs[k] in t && part[k] in t[vs[k]]
    {
      InvertedMembers(t, order, part[k], vs[k]);
    }
    assert Pronounces(t, vs, part);
  }

  /**
   * Every homophone is found: a word sequence pronounced like the query, by
   * any choice of pronunciations and across any word boundaries, is in the
   * result.
   */
  lemma SearchComplete(ws: seq<Word>, t: Table, order: seq<Word>, vs: seq<Word>,
                       c: seq<Pronunciation>, d: seq<Pronunciation>)
    requires IsKeyOrder(t, order) && WellFormedTable(t)
    requires |ws| >= 1
    requires Pronounces(t, ws, c) && Pronounces(t, vs, d) && Concat(c) == Concat(d)
    ensures Search(ws, t, Inverted(t, order)).Success?
    ensures Join(vs) in Search(ws, t, Inverted(t, order)).value
  {
    var inv := Inverted(t, order);
    var wps := LookupWords(ws, t).value;
    var pron := Concat(c);
    assert IsChoice(c, wps);
    ExpandHas(wps, c);
    var i :| 0 <= i < |Expand(wps)| && Expand(wps)[i] == pron;
    assert |pron| >= 1 by {
      assert c == [c[0]] + c[1..];
      ConcatCons(c[0], c[1..]);
    }
    assert IsComposition(d, pron);
    PartitionsComplete(pron, d);
    forall k | 0 <= k < |d|
      ensures d[k] in inv && vs[k] in inv[d[k]]
    {
      InvertedMembers(t, order, d[k], vs[k]);
    }
    assert Spelled(vs, d, inv);
    ReconstructMembers(d, inv, Join(vs));
    PhrasesMembers(Expand(wps), inv, Join(vs));
  }

  /** The phrase itself is always among its homophones. */
  lemma SearchFindsIdentity(ws: seq<Word>, t: Table, order: seq<Word>)
    requires IsKeyOrder(t, order) && WellFormedTable(t)
    requires |ws| >= 1
    requires forall i :: 0 <= i < |ws| ==> ws[i] in t
    ensures Search(ws, t, Inverted(t, order)).Success?
    ensures Join(ws) in Search(ws, t, Inverted(t, order)).value
  {
    var c := seq(|ws|, i requires 0 <= i < |ws| => t[ws[i]][0]);
    SearchComplete(ws, t, order, ws, c, c);
  }
}
