/** The worked examples of the homophone search, on small tables. */
module SearchExamples {
  import opened Sequences
  import opened PronouncingIndex
  import opened Homophones

  /** "hear" and "here" share their one pronunciation. */
  function HearHereTable(): Table
  {
    map["hear" := [["HH", "IY1", "R"]], "here" := [["HH", "IY1", "R"]]]
  }

  /** Searching "here" finds both spellings. */
  lemma HearHere()
    ensures Search(["here"], HearHereTable(), Inverted(HearHereTable(), ["hear", "here"])).Success?
    ensures "hear" in Search(["here"], HearHereTable(), Inverted(HearHereTable(), ["hear", "here"])).value
    ensures "here" in Search(["here"], HearHereTable(), Inverted(HearHereTable(), ["hear", "here"])).value
  {
    var t, order := HearHereTable(), ["hear", "here"];
    var p: Pronunciation := ["HH", "IY1", "R"];
    assert IsKeyOrder(t, order);
    assert WellFormedTable(t);
    assert Pronounces(t, ["here"], [p]) && Pronounces(t, ["hear"], [p]);
    SearchComplete(["here"], t, order, ["hear"], [p], [p]);
    SearchComplete(["here"], t, order, ["here"], [p], [p]);
  }

  function IceCreamTable(): Table
  {
    map["ice" := [["AY1", "S"]], "cream" := [["K", "R", "IY1", "M"]],
        "i" := [["AY1"]], "scream" := [["S", "K", "R", "IY1", "M"]]]
  }

  lemma IceCreamTableFacts()
    ensures IsKeyOrder(IceCreamTable(), ["ice", "cream", "i", "scream"])
    ensures WellFormedTable(IceCreamTable())
  {
  }

  lemma IceCreamPronounced()
    ensures Pronounces(IceCreamTable(), ["ice", "cream"], [["AY1", "S"], ["K", "R", "IY1", "M"]])
    ensures Pronounces(IceCreamTable(), ["i", "scream"], [["AY1"], ["S", "K", "R", "IY1", "M"]])
    ensures Concat([["AY1", "S"], ["K", "R", "IY1", "M"]]) == Concat([["AY1"], ["S", "K", "R", "IY1", "M"]])
  {
    var ice: Pronunciation := ["AY1", "S"];
    var cream: Pronunciation := ["K", "R", "IY1", "M"];
    var i: Pronunciation := ["AY1"];
    var scream: Pronunciation := ["S", "K", "R", "IY1", "M"];
    assert Concat([ice, cream]) == ice + cream by {
      ConcatCons(ice, [cream]);
      ConcatCons(cream, []);
      assert [ice] + [cream] == [ice, cream];
      assert [cream] + [] == [cream];
    }
    assert Concat([i, scream]) == i + scream by {
      ConcatCons(i, [scream]);
      ConcatCons(scream, []);
      assert [i] + [scream] == [i, scream];
      assert [scream] + [] == [scream];
    }
    assert ice + cream == i + scream;
  }

  /** The index of the "ice cream" table, in the order its words are listed. */
  function IceCreamIndex(): Index
  {
    Inverted(IceCreamTable(), ["ice", "cream", "i", "scream"])
  }

  /** The query's own pronunciation, cut after "AY1", reads "i scream". */
  lemma IceCreamFindsIScream()
    ensures Search(["ice", "cream"], IceCreamTable(), IceCreamIndex()).Success?
    ensures "i scream" in Search(["ice", "cream"], IceCreamTable(), IceCreamIndex()).value
  {
    JoinPair("i", "scream");
    assert "i" + " " + "scream" == "i scream";
    IceCreamTableFacts();
    IceCreamPronounced();
    SearchComplete(["ice", "cream"], IceCreamTable(), ["ice", "cream", "i", "scream"], ["i", "scream"],
                   [["AY1", "S"], ["K", "R", "IY1", "M"]], [["AY1"], ["S", "K", "R", "IY1", "M"]]);
  }

  /** The query itself is found. */
  lemma IceCreamFindsItself()
    ensures Search(["ice", "cream"], IceCreamTable(), IceCreamIndex()).Success?
    ensures "ice cream" in Search(["ice", "cream"], IceCreamTable(), IceCreamIndex()).value
  {
    JoinPair("ice", "cream");
    assert "ice" + " " + "cream" == "ice cream";
    IceCreamTableFacts();
    IceCreamPronounced();
    var c: seq<Pronunciation> := [["AY1", "S"], ["K", "R", "IY1", "M"]];
    SearchComplete(["ice", "cream"], IceCreamTable(), ["ice", "cream", "i", "scream"], ["ice", "cream"], c, c);
  }

  /**
   * The docstring example of `wordsmith`: the phonemes of "ice cream" cut at
   * another boundary read "i scream", and both phrases are found.
   */
  lemma IceCream()
    ensures Search(["ice", "cream"], IceCreamTable(), IceCreamIndex()).Success?
    ensures "i scream" in Search(["ice", "cream"], IceCreamTable(), IceCreamIndex()).value
    ensures "ice cream" in Search(["ice", "cream"], IceCreamTable(), IceCreamIndex()).value
  {
    IceCreamFindsIScream();
    IceCreamFindsItself();
  }
}
