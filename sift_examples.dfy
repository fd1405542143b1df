/**
 * Worked examples of `_siftReqId` on concrete names, showing the leftmost-match and the
 * first-rule-decides behaviour of the cascade.
 */
module SiftExamples {
  import opened Wrappers
  import opened Text
  import opened Status
  import opened ReqIdSift

  /** Seven digits before ` -`: rule 5 cannot match at the start and finds the last six digits. */
  const SevenDigits: string := "1234567 -"

  /** A bracketed ID followed by a scnzb tag with ID 0. */
  const TaggedZero: string := "[123] [scnzb@efnet][0]"

  lemma SevenDigitsAtStart()
    ensures DigitsDashAt(SevenDigits, 0) == None
  {
    RunUnique(IsDigit, SevenDigits, 0, 7);
  }

  lemma SevenDigitsAtOne()
    ensures DigitsDashAt(SevenDigits, 1) == Some("234567")
  {
    RunUnique(IsDigit, SevenDigits, 1, 7);
    assert SevenDigits[1..7] == "234567";
  }

  /** Rule 5 on "1234567 -" captures "234567": the match starts one character in. */
  lemma SevenDigitsCapture()
    ensures DigitsDash(SevenDigits) == Some("234567")
  {
    SevenDigitsAtStart();
    SevenDigitsAtOne();
    SearchFinds(DigitsDashAt, SevenDigits, 0, 1, "234567");
  }

  lemma TaggedZeroRuns()
    ensures Run(IsSpace, TaggedZero, 1) == 0 && Run(IsDigit, TaggedZero, 1) == 3 && Run(IsSpace, TaggedZero, 4) == 0
  {
    RunUnique(IsSpace, TaggedZero, 1, 1);
    RunUnique(IsDigit, TaggedZero, 1, 4);
    RunUnique(IsSpace, TaggedZero, 4, 4);
  }

  lemma TaggedZeroBracket()
    ensures BracketAt(TaggedZero, 0) == Some("123")
  {
    TaggedZeroRuns();
    assert TaggedZero[1..4] == "123";
  }

  lemma TaggedZeroNoTagAtStart()
    ensures ScnzbTagAt(TaggedZero, 0) == None
  {
    assert Opt(TaggedZero, 1, ' ') == 1;
    assert Opt(TaggedZero, 1, '#') == 1;
    assert TaggedZero[1] != 's';
  }

  lemma TaggedZeroNoTagBefore(i: nat)
    requires 0 < i < 6
    ensures ScnzbTagAt(TaggedZero, i) == None
  {
    assert TaggedZero[i] != '[';
  }

  lemma TaggedZeroNoTagUpTo()
    ensures forall i | 0 <= i < 6 :: ScnzbTagAt(TaggedZero, i) == None
  {
    TaggedZeroNoTagAtStart();
    forall i | 0 < i < 6 ensures ScnzbTagAt(TaggedZero, i) == None {
      TaggedZeroNoTagBefore(i);
    }
  }

  lemma TaggedZeroTagParts()
    ensures Opt(TaggedZero, 7, ' ') == 7 && Opt(TaggedZero, 7, '#') == 7 && LitAt(TaggedZero, 7, "scnzb")
    ensures Opt(TaggedZero, 12, '@') == 13 && LitAt(TaggedZero, 13, "efnet")
    ensures Opt(TaggedZero, 18, ' ') == 18 && LitAt(TaggedZero, 18, "][")
  {
  }

  lemma TaggedZeroTag()
    ensures ScnzbTagAt(TaggedZero, 6) == Some("0")
  {
    TaggedZeroTagParts();
    RunUnique(IsDigit, TaggedZero, 20, 21);
    assert TaggedZero[20..21] == "0";
  }

  /** The leftmost scnzb tag of the name is the one at position 6, with ID `0`. */
  lemma TaggedZeroScnzb()
    ensures ScnzbTag(TaggedZero) == Some("0")
  {
    TaggedZeroTag();
    TaggedZeroNoTagUpTo();
    SearchFinds(ScnzbTagAt, TaggedZero, 0, 6, "0");
  }

  /** On its own the bracket rule would capture `123`, at the very start of the name. */
  lemma TaggedZeroBracketCapture()
    ensures Bracket(TaggedZero) == Some("123")
  {
    TaggedZeroBracket();
    SearchFinds(BracketAt, TaggedZero, 0, 0, "123");
  }

  /**
   * The scnzb tag is checked before the bracket rule and its ID 0 yields the sentinel,
   * although the bracket rule alone would have found ID 123.
   */
  lemma TaggedZeroIsSentinel()
    ensures Bracket(TaggedZero) == Some("123")
    ensures SiftReqId(TaggedZero) == REQID_ZERO
  {
    TaggedZeroBracketCapture();
    TaggedZeroScnzb();
    SiftScnzbFirst(TaggedZero);
    assert DecimalValue("0") == 0;
  }
}

/** Worked examples of the season guard of `_stageLookup`. */
module GuardExamples {
  import opened Wrappers
  import opened Text
  import opened Status
  import opened PreDb
  import opened StageRouter

  /** An episode title: `S02E04` matches both patterns and the guard lets it through. */
  lemma EpisodeTitleAccepted()
    ensures !SeasonOnly("Some.Show.S02E04.720p.HDTV")
  {
    var t := "Some.Show.S02E04.720p.HDTV";
    assert SeasonEpisodeAt(t, 10, 13);
    EpisodeTitlePassesGuard(t);
  }

  const SeasonPack: string := "Show.S02.720p"

  /** A season pack title carries the `s\d+` marker and no `s\d+e\d+` marker. */
  lemma SeasonPackIsSeasonOnly()
    ensures SeasonOnly(SeasonPack)
  {
    assert SeasonAt(SeasonPack, 5);
    forall i: nat, j: nat | i < j < |SeasonPack| ensures !SeasonEpisodeAt(SeasonPack, i, j) {
    }
  }

  /** The only request row being a season pack, the stage lookup gives `false` and renames nothing. */
  lemma SeasonPackRejected(requestId: int, group: string, name: string, cat: Catalog, k: nat)
    requires requestId != REQID_ZERO
    requires k < |cat.predb| && ByRequest(requestId, cat.groupIdOf(group), cat.predb[k])
    requires forall j | 0 <= j < |cat.predb| && j != k :: !ByRequest(requestId, cat.groupIdOf(group), cat.predb[j])
    requires cat.predb[k].title == SeasonPack
    ensures StageLookup(requestId, group, name, cat, false) == None
  {
    SeasonPackIsSeasonOnly();
    StageUniqueRow(requestId, group, name, cat, k);
  }
}
