/** The broken-word stage on letters spelled out with single spaces, and on a spelled-out
    run that runs into a longer word. */
module CleanTextExamples {
  import opened Outcomes
  import opened Chars
  import opened Text
  import opened TextCleaner

  /** `cs` spelled out: its characters with one space between neighbours, so that "invoice"
      becomes "i n v o i c e". */
  function Spaced(cs: string): (s: string)
    ensures cs != [] ==> |s| == 2 * |cs| - 1 && s[0] == cs[0]
  {
    if |cs| <= 1 then cs else [cs[0], ' '] + Spaced(cs[1..])
  }

  /** Every character of `cs` is a word character. */
  predicate AllWord(cs: string) {
    forall k :: 0 <= k < |cs| ==> IsWord(cs[k])
  }

  /** Where a spelled-out word runs to the end of `s`, the longest chain runs to the end. */
  lemma {:induction false} ChainToEnd(s: string, i: nat, cs: string)
    requires i <= |s| && s[i..] == Spaced(cs) && cs != [] && AllWord(cs)
    ensures i < |s| && IsWord(s[i])
    ensures ChainEnd(s, i) == |s|
    decreases |cs|
  {
    assert s[i] == s[i..][0] == cs[0];
    if |cs| > 1 {
      var rest := Spaced(cs[1..]);
      assert s[i..] == [cs[0], ' '] + rest;
      assert s[i + 2..] == rest by {
        assert s[i + 2..] == s[i..][2..];
      }
      assert s[i + 1] == ' ';
      ChainToEnd(s, i + 2, cs[1..]);
    }
  }

  /** Dropping the spaces of a spelled-out word gives the word back. */
  lemma {:induction false} RemoveSpaceCharsSpaced(cs: string)
    requires AllWord(cs)
    ensures RemoveSpaceChars(Spaced(cs)) == cs
  {
    if |cs| > 1 {
      var rest := Spaced(cs[1..]);
      var s := [cs[0], ' '] + rest;
      assert s[1..] == [' '] + rest && ([' '] + rest)[1..] == rest;
      assert cs[0] != ' ';
      RemoveSpaceCharsSpaced(cs[1..]);
      assert cs == [cs[0]] + cs[1..];
    }
  }

  /** Two or more word characters spelled out with single spaces are joined back into one
      word ("i n v o i c e" becomes "invoice"). */
  lemma SpacedWordJoined(cs: string)
    requires |cs| >= 2 && AllWord(cs)
    ensures JoinBrokenWords(Spaced(cs)) == cs
  {
    var s := Spaced(cs);
    assert s[0..] == s;
    ChainToEnd(s, 0, cs);
    assert BrokenWordMatch(s, 0) == Some(|s|);
    assert s[0..|s|] == s;
    RemoveSpaceCharsSpaced(cs);
  }

  /** The example given in `clean_text`'s broken-word comment. */
  lemma InvoiceIsJoined()
    ensures JoinBrokenWords(Spaced("invoice")) == "invoice"
  {
    SpacedWordJoined("invoice");
  }

  /** In "a b cd" the longest chain at 0 is "a b c"; a word character follows it, so the
      engine gives back one pair and matches "a b". */
  lemma ChainBeforeLongerWordMatch()
    ensures BrokenWordMatch("a b cd", 0) == Some(3)
  {
    var s := "a b cd";
    assert ChainEnd(s, 4) == 5;
    assert ChainEnd(s, 2) == 5;
    assert ChainEnd(s, 0) == 5;
  }

  /** After the match, " cd" is copied: "c" follows a space but starts no chain, and "d"
      follows a word character. */
  lemma ChainBeforeLongerWordRest()
    ensures JoinFrom("a b cd", 3) == " cd"
  {
    var s := "a b cd";
    assert BrokenWordMatch(s, 5) == None;
    assert BrokenWordMatch(s, 4) == None by {
      assert ChainEnd(s, 4) == 5;
    }
    assert BrokenWordMatch(s, 3) == None;
  }

  /** A chain followed by a longer word gives back its last pair: only "a b" is joined. */
  lemma ChainBeforeLongerWord()
    ensures JoinBrokenWords("a b cd") == "ab cd"
  {
    var s := "a b cd";
    ChainBeforeLongerWordMatch();
    ChainBeforeLongerWordRest();
    assert s[0..3] == "a b";
    PairJoined();
  }

  lemma PairJoined()
    ensures RemoveSpaceChars("a b") == "ab"
  {
    assert RemoveSpaceChars("a b"[1..]) == "b";
  }

  /** A spelled-out word ends with the word's last character. */
  lemma {:induction false} SpacedLast(cs: string)
    requires cs != []
    ensures Spaced(cs)[|Spaced(cs)| - 1] == cs[|cs| - 1]
  {
    if |cs| > 1 {
      SpacedLast(cs[1..]);
    }
  }

  /** A spelled-out word is single-spaced. */
  lemma {:induction false} SpacedSingleSpaced(cs: string)
    requires AllWord(cs)
    ensures SingleSpaced(Spaced(cs))
  {
    if |cs| > 1 {
      var rest := Spaced(cs[1..]);
      SpacedSingleSpaced(cs[1..]);
      SingleSpacedCons(' ', rest);
      SingleSpacedCons(cs[0], [' '] + rest);
      assert Spaced(cs) == [cs[0]] + ([' '] + rest);
    }
  }

  /** A word of word characters comes through the filter and the final strip unchanged. */
  lemma WordKept(cs: string)
    requires AllWord(cs)
    ensures Strip(RemoveSpecial(cs)) == cs
  {
    RemoveSpecialAllKept(cs);
    StripStripped(cs);
  }

  /** The whole cleaner joins a spelled-out word of two or more word characters back into
      the word: the collapse and the strips leave "i n v o i c e" as it is, the broken-word
      stage joins it, and the filter keeps it. */
  lemma CleanTextSpaced(cs: string)
    requires |cs| >= 2 && AllWord(cs)
    ensures CleanText(Spaced(cs)) == cs
  {
    SpacedCollapsed(cs);
    SpacedWordJoined(cs);
    WordKept(cs);
    CleanTextThrough(Spaced(cs), cs);
  }

  /** The collapse and the strip leave a spelled-out word unchanged. */
  lemma SpacedCollapsed(cs: string)
    requires cs != [] && AllWord(cs)
    ensures Strip(CollapseSpaces(Spaced(cs))) == Spaced(cs)
  {
    var s := Spaced(cs);
    SpacedSingleSpaced(cs);
    CollapseSingleSpaced(s);
    SpacedLast(cs);
    StripStripped(s);
  }

  /** A text that the collapse and strip leave alone and whose broken words join into a word
      the filter keeps is cleaned into that word. */
  lemma CleanTextThrough(text: string, w: string)
    ensures Strip(CollapseSpaces(text)) == text && JoinBrokenWords(text) == w && Strip(RemoveSpecial(w)) == w
      ==> CleanText(text) == w
  {
    CleanTextStages(text);
  }

  /** "invoice" spelled out. */
  lemma SpacedInvoice()
    ensures Spaced("invoice") == "i n v o i c e"
  {
  }

  /** `clean_text("i n v o i c e") == "invoice"`. */
  lemma CleanTextInvoice()
    ensures CleanText(Spaced("invoice")) == "invoice"
  {
    CleanTextSpaced("invoice");
  }

  /** Two separate short words keep the space between them: "ab cd" is already clean. */
  lemma CleanTextKeepsShortWords()
    ensures CleanText("ab cd") == "ab cd"
  {
    ShortWordsClean();
    CleanTextKeepsClean("ab cd");
  }

  /** "ab cd" is single-spaced, stripped, made of kept characters, and has no lone word
      character. */
  lemma ShortWordsClean()
    ensures SingleSpaced("ab cd") && Stripped("ab cd") && AllKept("ab cd")
    ensures NoLoneWordChar("ab cd")
  {
    var s := "ab cd";
    assert WordNeighbour(s, 0) && WordNeighbour(s, 1);
    assert WordNeighbour(s, 3) && WordNeighbour(s, 4);
  }
}
