/**
  Worked sessions of the checklist, each starting from a fresh store and
  driving it only through the transitions the interface offers.
 */
module Scenarios {
  import opened Wrappers
  import opened Catalog
  import opened Responses
  import opened Scoring

  /** Answers every id of `ids` with `v`, in order. */
  function AnswerAll(s: State, ids: seq<int>, v: int): (r: State)
    ensures r.isFull == s.isFull
    ensures forall k :: k in ids ==> k in r.selections && r.selections[k] == v
    ensures forall k :: k !in ids ==> (k in r.selections <==> k in s.selections)
    ensures forall k :: k !in ids && k in s.selections ==> r.selections[k] == s.selections[k]
    decreases |ids|
  {
    if |ids| == 0 then s
    else AnswerAll(Set(s, ids[0], v), ids[1..], v)
  }

  /** Every catalog item reads as unanswered: a fresh store, or one just reset. */
  predicate AllUnanswered(s: State)
  {
    forall k :: k in CatalogIds ==> ReadResponse(s, k) == Some(Unanswered)
  }

  /** Fresh and reset stores are all-unanswered, the fresh one in short mode. */
  lemma StartingPoints(t: State)
    ensures AllUnanswered(Initial()) && !Initial().isFull
    ensures AllUnanswered(Reset(t, true))
  {
  }

  /** An all-unanswered store holds the unanswered code under `k`. */
  lemma Unset(s: State, k: int)
    requires AllUnanswered(s) && 1 <= k <= 11
    ensures k in s.selections && s.selections[k] == UNSET
  {
    InCatalog(k);
  }

  /** Short mode, all seven short-form items answered yes: 7 of 7, above the cutoff of 4. */
  lemma ShortAllYes(s0: State)
    requires AllUnanswered(s0) && !s0.isFull
    ensures var s := AnswerAll(s0, [1, 2, 5, 6, 8, 9, 10], YES);
      && TotalScore(s) == 7 && MaxScore(s.isFull) == 7
      && Cutoff(s.isFull) == 4 && StateBand(s) == AboveCutoff
  {
    var s := AnswerAll(s0, [1, 2, 5, 6, 8, 9, 10], YES);
    VisibleShort();
    YesCountUniform(s.selections, Visible(false));
  }

  /** Short mode, three items answered yes and the rest left open: 3 points, below the cutoff. */
  lemma ShortThreeYes(s0: State)
    requires AllUnanswered(s0) && !s0.isFull
    ensures var s := AnswerAll(s0, [1, 5, 9], YES);
      && TotalScore(s) == 3 && StateBand(s) == BelowCutoff
  {
    var s := AnswerAll(s0, [1, 5, 9], YES);
    VisibleShort();
    Unset(s0, 2); Unset(s0, 6); Unset(s0, 8); Unset(s0, 10);
    assert AnsweredYes(s.selections, 1) && AnsweredYes(s.selections, 5) && AnsweredYes(s.selections, 9);
    assert !AnsweredYes(s.selections, 2) && !AnsweredYes(s.selections, 6)
        && !AnsweredYes(s.selections, 8) && !AnsweredYes(s.selections, 10);
  }

  /** The full-mode score split after the sixth item. */
  lemma FullScoreSplit(s: State)
    requires s.isFull
    ensures TotalScore(s)
         == YesCount(s.selections, Items[..6]) + YesCount(s.selections, Items[6..])
  {
    VisibleFull();
    assert Items == Items[..6] + Items[6..];
    YesCountAppend(s.selections, Items[..6], Items[6..]);
  }

  /** Full mode, six items answered yes: exactly on the cutoff of 6, which counts as above. */
  lemma FullSixYesOnCutoff(s0: State)
    requires AllUnanswered(s0) && s0.isFull
    ensures var s := AnswerAll(s0, [1, 2, 3, 4, 5, 6], YES);
      && TotalScore(s) == 6 && Cutoff(s.isFull) == 6 && StateBand(s) == AboveCutoff
  {
    var s := AnswerAll(s0, [1, 2, 3, 4, 5, 6], YES);
    FullSixYesScore(s0);
    assert StateBand(s) == Classify(TotalScore(s), s.isFull);
  }

  /** The score of the session in `FullSixYesOnCutoff`: items 1..6 yes, 7..11 unanswered. */
  lemma FullSixYesScore(s0: State)
    requires AllUnanswered(s0) && s0.isFull
    ensures TotalScore(AnswerAll(s0, [1, 2, 3, 4, 5, 6], YES)) == 6
  {
    var s := AnswerAll(s0, [1, 2, 3, 4, 5, 6], YES);
    FullScoreSplit(s);
    FirstSixYes(s0);
    LastFiveOpen(s0);
  }

  /** Items 1..6, each answered yes, score six. */
  lemma FirstSixYes(s0: State)
    ensures YesCount(AnswerAll(s0, [1, 2, 3, 4, 5, 6], YES).selections, Items[..6]) == 6
  {
    FrontIds();
    AnsweredListedCount(s0, [1, 2, 3, 4, 5, 6], Items[..6]);
  }

  /** Items whose ids were all answered yes score one point each. */
  lemma AnsweredListedCount(s0: State, ids: seq<int>, items: seq<Item>)
    requires forall i :: 0 <= i < |items| ==> items[i].id in ids
    ensures YesCount(AnswerAll(s0, ids, YES).selections, items) == |items|
  {
    var s := AnswerAll(s0, ids, YES);
    assert forall i :: 0 <= i < |items| ==> AnsweredYes(s.selections, items[i].id);
    YesCountUniform(s.selections, items);
  }

  /** The first six catalogue items are numbered 1..6. */
  lemma FrontIds()
    ensures |Items[..6]| == 6
    ensures forall i :: 0 <= i < 6 ==> Items[..6][i].id == i + 1
  {
    CatalogShape();
  }

  /** Items 7..11, left unanswered, score nothing. */
  lemma LastFiveOpen(s0: State)
    requires AllUnanswered(s0)
    ensures YesCount(AnswerAll(s0, [1, 2, 3, 4, 5, 6], YES).selections, Items[6..]) == 0
  {
    var s := AnswerAll(s0, [1, 2, 3, 4, 5, 6], YES);
    CatalogShape();
    Unset(s0, 7); Unset(s0, 8); Unset(s0, 9); Unset(s0, 10); Unset(s0, 11);
    YesCountUniform(s.selections, Items[6..]);
  }

  /** Answers to short-form items only leave the full-only items unanswered. */
  lemma FullOnlyStayUnanswered(s0: State, ids: seq<int>, v: int)
    requires AllUnanswered(s0)
    requires forall k :: k in ids ==> k in {1, 2, 5, 6, 8, 9, 10}
    ensures forall k :: k in {3, 4, 7, 11} ==>
      k in AnswerAll(s0, ids, v).selections && AnswerAll(s0, ids, v).selections[k] == UNSET
  {
    Unset(s0, 3); Unset(s0, 4); Unset(s0, 7); Unset(s0, 11);
  }

  /**
    Any answers given to short-form items only, then the mode is switched
    to full: the maximum rises from 7 to 11, the score stays, and the newly
    shown items read as unanswered.
   */
  lemma SwitchToFullAfterShortAnswers(s0: State, ids: seq<int>, v: int)
    requires AllUnanswered(s0) && !s0.isFull
    requires forall k :: k in ids ==> k in {1, 2, 5, 6, 8, 9, 10}
    ensures var s := AnswerAll(s0, ids, v);
      && MaxScore(s.isFull) == 7 && MaxScore(Toggle(s).isFull) == 11
      && TotalScore(Toggle(s)) == TotalScore(s)
      && forall k :: k in {3, 4, 7, 11} ==> ReadResponse(Toggle(s), k) == Some(Unanswered)
  {
    FullOnlyStayUnanswered(s0, ids, v);
    ShortToFullScore(AnswerAll(s0, ids, v));
  }
}
