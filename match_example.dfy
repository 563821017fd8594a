/**
 * A worked example of the whole match: two participants, one entering
 * "Pizza" and "Sushi", the other "pizza " and "Tacos". The shared key
 * "pizza" comes first with count 2 and the first participant's spelling
 * as label; "sushi" and "tacos" follow with count 1, in key order.
 * The ranking is first derived for any key function giving the four
 * items their keys ("Pizza" and "pizza " both key to "pizza"); the
 * Latin-1 normalizer is then shown to give exactly those keys, and `Match`
 * to return that ranking.
 */
module MatchExample {
  import opened Text
  import opened Normalizer
  import opened Ranking
  import opened Matcher
  import opened NormalizerExamples

  function Users(): seq<seq<string>> {
    [["Pizza", "Sushi"], ["pizza ", "Tacos"]]
  }

  function Ranked(): seq<MatchResult> {
    [MatchResult("pizza", "Pizza", 2), MatchResult("sushi", "Sushi", 1), MatchResult("tacos", "Tacos", 1)]
  }

  /** The keys of the four items. */
  predicate ExampleKeys(key: string -> string) {
    key("Pizza") == "pizza" && key("pizza ") == "pizza" && key("Sushi") == "sushi" && key("Tacos") == "tacos"
  }

  lemma ExampleEntries()
    ensures Entries(Users()) == ["Pizza", "Sushi", "pizza ", "Tacos"]
  {
    var us := Users();
    assert us[..1] == [["Pizza", "Sushi"]];
    assert us[..1][..0] == [];
  }

  lemma ExampleKeySets(key: string -> string)
    requires ExampleKeys(key)
    ensures KeySet(key, Users()[0]) == {"pizza", "sushi"}
    ensures KeySet(key, Users()[1]) == {"pizza", "tacos"}
    ensures KeySet(key, Entries(Users())) == {"pizza", "sushi", "tacos"}
  {
    var a, b := Users()[0], Users()[1];
    KeySetSnoc(key, ["Pizza"], "Sushi");
    KeySetSnoc(key, [], "Pizza");
    assert [] + ["Pizza"] == ["Pizza"] && ["Pizza"] + ["Sushi"] == a;
    KeySetSnoc(key, ["pizza "], "Tacos");
    KeySetSnoc(key, [], "pizza ");
    assert [] + ["pizza "] == ["pizza "] && ["pizza "] + ["Tacos"] == b;
    ExampleEntries();
    KeySetAppend(key, a, b);
    assert a + b == ["Pizza", "Sushi", "pizza ", "Tacos"];
  }

  lemma ExampleHolders(key: string -> string)
    requires ExampleKeys(key)
    ensures Holders(key, Users(), "pizza") == 2
    ensures Holders(key, Users(), "sushi") == 1
    ensures Holders(key, Users(), "tacos") == 1
  {
    ExampleKeySets(key);
    var us := Users();
    HoldersSnoc(key, us, 0, "pizza");
    HoldersSnoc(key, us, 1, "pizza");
    HoldersSnoc(key, us, 0, "sushi");
    HoldersSnoc(key, us, 1, "sushi");
    HoldersSnoc(key, us, 0, "tacos");
    HoldersSnoc(key, us, 1, "tacos");
    assert us[..2] == us;
  }

  lemma ExampleFirstRaws(key: string -> string)
    requires ExampleKeys(key)
    ensures FirstRaw(key, Entries(Users()), "pizza") == "Pizza"
    ensures FirstRaw(key, Entries(Users()), "sushi") == "Sushi"
    ensures FirstRaw(key, Entries(Users()), "tacos") == "Tacos"
  {
    ExampleEntries();
    var raws := Entries(Users());
    FirstRawIsFirst(key, raws, "pizza", 0);
    FirstRawIsFirst(key, raws, "sushi", 1);
    FirstRawIsFirst(key, raws, "tacos", 3);
  }

  /** The expected record of a key whose first item is a word without
      surrounding whitespace is labelled with that word. */
  lemma ExpectedWord(key: string -> string, k: string, word: string, n: nat)
    requires FirstRaw(key, Entries(Users()), k) == word && Holders(key, Users(), k) == n
    requires word != [] && !IsSpace(word[0]) && !IsSpace(word[|word| - 1])
    ensures Expected(key, Users(), k) == MatchResult(k, word, n)
  {
    assert Trim(word) == word;
  }

  lemma RankedSorted()
    ensures Sorted(Ranked())
  {
    var r := Ranked();
    assert LexLess(r[1].value, r[2].value);
    assert Before(r[0], r[1]) && Before(r[0], r[2]) && Before(r[1], r[2]);
  }

  lemma RankedValues()
    ensures Values(Ranked()) == {"pizza", "sushi", "tacos"}
  {
    var r := Ranked();
    assert r[0].value == "pizza" && r[1].value == "sushi" && r[2].value == "tacos";
  }

  /** Each record of the expected list is the expected record of its key. */
  lemma RankedRecords(key: string -> string, i: nat)
    requires ExampleKeys(key) && i < 3
    ensures Ranked()[i] == Expected(key, Users(), Ranked()[i].value)
  {
    ExampleHolders(key);
    ExampleFirstRaws(key);
    if i == 0 {
      ExpectedWord(key, "pizza", "Pizza", 2);
    } else if i == 1 {
      ExpectedWord(key, "sushi", "Sushi", 1);
    } else {
      ExpectedWord(key, "tacos", "Tacos", 1);
    }
  }

  /** The expected list is a ranking of the example. */
  lemma RankedIsRanking(key: string -> string)
    requires ExampleKeys(key)
    ensures IsRanking(key, Users(), Ranked())
  {
    ExampleKeySets(key);
    RankedSorted();
    RankedValues();
    forall i | 0 <= i < |Ranked()| ensures Ranked()[i] == Expected(key, Users(), Ranked()[i].value) {
      RankedRecords(key, i);
    }
  }

  /** With any key function that agrees on the four items, the ranking
      of the example is the expected list. */
  lemma ExampleRanking(key: string -> string, results: seq<MatchResult>)
    requires ExampleKeys(key)
    requires IsRanking(key, Users(), results)
    ensures results == Ranked()
  {
    RankedIsRanking(key);
    RankingUnique(key, Users(), results, Ranked());
  }

  /** A capitalized word over `[a-z0-9]` keys to `lower`, its lowercase
      form. */
  lemma CapitalizedWord(word: string, lower: string)
    requires word != [] && 'A' <= word[0] <= 'Z' && IsKey(word[1..])
    requires lower == Latin1Lower(word[0]) + word[1..]
    ensures NormalizeText(Latin1(), word) == lower
  {
    Latin1Capitalized(word[0], word[1..]);
    assert [word[0]] + word[1..] == word;
  }

  lemma PizzaKey()
    ensures NormalizeText(Latin1(), "Pizza") == "pizza"
  {
    CapitalizedWord("Pizza", "pizza");
  }

  lemma SushiKey()
    ensures NormalizeText(Latin1(), "Sushi") == "sushi"
  {
    CapitalizedWord("Sushi", "sushi");
  }

  lemma TacosKey()
    ensures NormalizeText(Latin1(), "Tacos") == "tacos"
  {
    CapitalizedWord("Tacos", "tacos");
  }

  lemma SpaceKey()
    ensures NormalizeText(Latin1(), " ") == ""
  {
    Latin1SpacesStayBlank();
  }

  lemma LowerPizzaKey()
    ensures NormalizeText(Latin1(), "pizza") == "pizza"
  {
    Latin1KeepsKey("pizza");
  }

  /** The trailing space of "pizza " does not reach the key. */
  lemma PizzaSpaceKey()
    ensures NormalizeText(Latin1(), "pizza" + " ") == "pizza"
  {
    LowerPizzaKey();
    SpaceKey();
    NormalizeAppend(Latin1(), "pizza", " ");
  }

  /** The Latin-1 normalizer gives the four items the keys of the example. */
  lemma Latin1ExampleKeys()
    ensures ExampleKeys(KeyOf(Latin1()))
  {
    PizzaKey();
    SushiKey();
    TacosKey();
    PizzaSpaceKey();
    assert "pizza" + " " == "pizza ";
  }

  /** Matching the example with the Latin-1 tables gives the expected
      list, out of two participants. */
  method ExampleMatch() returns (results: seq<MatchResult>, total: nat)
    ensures results == Ranked() && total == 2
  {
    results, total := Match(Latin1(), Users());
    Latin1ExampleKeys();
    ExampleRanking(KeyOf(Latin1()), results);
  }
}
