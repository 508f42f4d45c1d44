/**
  Derived values of the checklist: which items are visible in the current
  mode, the score (visible items answered yes), the maximum score, the
  fixed pilot-data cutoff and the above/below classification against it.
 */
module Scoring {
  import opened Wrappers
  import opened Catalog
  import opened Responses

  /** Whether an item is shown in the given mode. */
  predicate Shown(it: Item, isFull: bool)
  {
    isFull || !it.onlyFull
  }

  /** `a` can be obtained from `b` by deleting elements (order kept). */
  predicate Subsequence(a: seq<Item>, b: seq<Item>)
    decreases |b|
  {
    if |a| == 0 then true
    else if |b| == 0 then false
    else if a[0] == b[0] then Subsequence(a[1..], b[1..])
    else Subsequence(a, b[1..])
  }

  /** The items of `items` shown in the given mode, in their original order. */
  function FilterShown(items: seq<Item>, isFull: bool): (r: seq<Item>)
    ensures |r| <= |items|
    ensures forall i :: 0 <= i < |r| ==> Shown(r[i], isFull)
    decreases |items|
  {
    if |items| == 0 then []
    else if Shown(items[0], isFull) then [items[0]] + FilterShown(items[1..], isFull)
    else FilterShown(items[1..], isFull)
  }

  /** Filtering never invents an id, so distinct ids stay distinct. */
  lemma {:induction false} FilterShownIds(items: seq<Item>, isFull: bool)
    ensures Ids(FilterShown(items, isFull)) <= Ids(items)
    ensures DistinctIds(items) ==> DistinctIds(FilterShown(items, isFull))
    decreases |items|
  {
    if |items| > 0 {
      var rest := FilterShown(items[1..], isFull);
      FilterShownIds(items[1..], isFull);
      IdsCons(items);
      if Shown(items[0], isFull) {
        var r := [items[0]] + rest;
        assert r[1..] == rest;
        IdsCons(r);
        if DistinctIds(items) {
          DistinctHead(items);
          forall i, j | 0 <= i < j < |r| ensures r[i].id != r[j].id {
            if i > 0 {
              assert r[i] == rest[i - 1] && r[j] == rest[j - 1];
            } else {
              assert r[j].id in Ids(rest);
            }
          }
        }
      }
    }
  }

  /** The visible items of the catalog in the given mode. */
  function Visible(isFull: bool): (r: seq<Item>)
    ensures Subsequence(r, Items)
    ensures isFull ==> r == Items
  {
    FilterShownExact(Items, isFull);
    FilterShown(Items, isFull)
  }

  /**
    The filter keeps exactly the shown items, in order: an item is in the
    result iff it is in the input and shown, the result is a subsequence of
    the input, and a filter that shows everything returns its input.
   */
  lemma {:induction false} FilterShownExact(items: seq<Item>, isFull: bool)
    ensures forall it :: it in FilterShown(items, isFull) <==> it in items && Shown(it, isFull)
    ensures Subsequence(FilterShown(items, isFull), items)
    ensures isFull ==> FilterShown(items, isFull) == items
    decreases |items|
  {
    if |items| > 0 {
      FilterShownExact(items[1..], isFull);
      var rest := FilterShown(items[1..], isFull);
      assert items == [items[0]] + items[1..];
      if Shown(items[0], isFull) {
        assert ([items[0]] + rest)[1..] == rest;
      } else {
        SubsequenceSkip(rest, items);
      }
    }
  }

  /** Dropping the head of `b` keeps `a` a subsequence when `a` already was one of the tail. */
  lemma {:induction false} SubsequenceSkip(a: seq<Item>, b: seq<Item>)
    requires |b| > 0 && Subsequence(a, b[1..])
    ensures Subsequence(a, b)
    decreases |b|, 0
  {
    if |a| > 0 && a[0] == b[0] {
      // Matching a[0] with the head of b leaves a[1..] to be found in b[1..].
      SubsequenceTail(a, b[1..]);
    }
  }

  /** A subsequence stays one when its first element is removed. */
  lemma {:induction false} SubsequenceTail(a: seq<Item>, b: seq<Item>)
    requires |a| > 0 && Subsequence(a, b)
    ensures Subsequence(a[1..], b)
    decreases |b|, 1
  {
    if a[0] != b[0] {
      SubsequenceTail(a, b[1..]);
    }
    if |a[1..]| > 0 {
      SubsequenceSkip(a[1..], b);
    }
  }

  /** In short mode the seven items without the full-only flag are visible, in catalog order. */
  lemma VisibleShort()
    ensures Visible(false) == [Item(1, false), Item(2, false), Item(5, false), Item(6, false),
                               Item(8, false), Item(9, false), Item(10, false)]
    ensures |Visible(false)| == 7
  {
  }

  /** In full mode the whole catalog is visible. */
  lemma VisibleFull()
    ensures Visible(true) == Items
    ensures |Visible(true)| == 11
  {
    FilterShownExact(Items, true);
  }

  /** Whether `id` is stored with the yes code; no, unanswered, foreign values and absence all count as not yes. */
  predicate AnsweredYes(sel: Selections, id: int)
  {
    id in sel && sel[id] == YES
  }

  /** Holding the yes code is exactly reading back the named response `Yes`. */
  lemma AnsweredYesIsYes(s: State, id: int)
    ensures AnsweredYes(s.selections, id) <==> ReadResponse(s, id) == Some(Yes)
  {
  }

  /** One point for every item of `items` answered yes. */
  function YesCount(sel: Selections, items: seq<Item>): (n: nat)
    ensures n <= |items|
    decreases |items|
  {
    if |items| == 0 then 0
    else (if AnsweredYes(sel, items[0].id) then 1 else 0) + YesCount(sel, items[1..])
  }

  /** Counting over a concatenation adds the counts of the parts. */
  lemma {:induction false} YesCountAppend(sel: Selections, a: seq<Item>, b: seq<Item>)
    ensures YesCount(sel, a + b) == YesCount(sel, a) + YesCount(sel, b)
    decreases |a|
  {
    if |a| == 0 {
      assert a + b == b;
    } else {
      assert (a + b)[1..] == a[1..] + b;
      YesCountAppend(sel, a[1..], b);
    }
  }

  /** All items answered yes score one each; none answered yes score nothing. */
  lemma {:induction false} YesCountUniform(sel: Selections, items: seq<Item>)
    ensures (forall i :: 0 <= i < |items| ==> AnsweredYes(sel, items[i].id)) ==> YesCount(sel, items) == |items|
    ensures (forall i :: 0 <= i < |items| ==> !AnsweredYes(sel, items[i].id)) ==> YesCount(sel, items) == 0
    decreases |items|
  {
    if |items| > 0 {
      YesCountUniform(sel, items[1..]);
      assert forall i :: 1 <= i < |items| ==> items[1..][i - 1] == items[i];
    }
  }

  /** The maximum score is the number of visible items: 11 in full mode, 7 in short mode. */
  function MaxScore(isFull: bool): (n: nat)
    ensures n == |Visible(isFull)|
    ensures n == if isFull then 11 else 7
  {
    VisibleShort();
    VisibleFull();
    |Visible(isFull)|
  }

  /** The score: visible items answered yes. It never exceeds the maximum score. */
  function TotalScore(s: State): (n: nat)
    ensures n <= MaxScore(s.isFull)
  {
    YesCount(s.selections, Visible(s.isFull))
  }

  /** The keys of `sel` that lie in `ids` and carry the yes code. */
  function YesIds(sel: Selections, ids: set<int>): set<int>
  {
    set k | k in sel && k in ids && sel[k] == YES
  }

  /** Over items with distinct ids, counting items answered yes is counting yes-keys among their ids. */
  lemma {:induction false} YesCountIsYesIds(sel: Selections, items: seq<Item>)
    requires DistinctIds(items)
    ensures YesCount(sel, items) == |YesIds(sel, Ids(items))|
    decreases |items|
  {
    if |items| == 0 {
      assert YesIds(sel, Ids(items)) == {};
    } else {
      var h := items[0].id;
      IdsCons(items);
      DistinctHead(items);
      YesCountIsYesIds(sel, items[1..]);
      var tail := YesIds(sel, Ids(items[1..]));
      assert h !in tail;
      if AnsweredYes(sel, h) {
        assert YesIds(sel, Ids(items)) == {h} + tail;
      } else {
        assert YesIds(sel, Ids(items)) == tail;
      }
    }
  }

  /**
    The score is the number of stored keys that name a visible item and
    carry the yes code: each visible id counts at most once.
   */
  lemma ScoreIsYesKeys(s: State)
    ensures TotalScore(s) == |YesIds(s.selections, Ids(Visible(s.isFull)))|
  {
    CatalogShape();
    FilterShownIds(Items, s.isFull);
    YesCountIsYesIds(s.selections, Visible(s.isFull));
  }

  /** The keys of an entries listing. */
  function EntryKeys(entries: seq<(int, int)>): set<int>
  {
    set i | 0 <= i < |entries| :: entries[i].0
  }

  /** `entries` lists every key of `sel` exactly once, each with its stored value. */
  predicate ListsEntries(entries: seq<(int, int)>, sel: Selections)
  {
    && (forall i :: 0 <= i < |entries| ==> entries[i].0 in sel && sel[entries[i].0] == entries[i].1)
    && EntryKeys(entries) == sel.Keys
    && (forall i, j :: 0 <= i < j < |entries| ==> entries[i].0 != entries[j].0)
  }

  /** Extending a listing by one entry adds exactly that entry's key. */
  lemma EntryKeysSnoc(entries: seq<(int, int)>, i: nat)
    requires i < |entries|
    ensures EntryKeys(entries[..i + 1]) == EntryKeys(entries[..i]) + {entries[i].0}
  {
    assert forall j :: 0 <= j < i ==> entries[..i + 1][j] == entries[..i][j];
    assert entries[..i + 1][i] == entries[i];
  }

  /**
    The score as the interface computes it: walk the stored entries, keep
    those whose key names a visible item, and add one for every yes code.
    Whatever order the entries come in, the sum is the score.
   */
  method EntriesScore(s: State, entries: seq<(int, int)>) returns (sum: nat)
    requires ListsEntries(entries, s.selections)
    ensures sum == TotalScore(s)
  {
    sum := SumYesEntries(s.selections, Ids(Visible(s.isFull)), entries);
    ScoreIsYesKeys(s);
  }

  /** The filter-and-sum over an entries listing of `sel`, keeping keys in `visible`. */
  method SumYesEntries(sel: Selections, visible: set<int>, entries: seq<(int, int)>) returns (sum: nat)
    requires ListsEntries(entries, sel)
    ensures sum == |YesIds(sel, visible)|
  {
    ghost var yes := YesIds(sel, visible);
    sum := 0;
    var i := 0;
    while i < |entries|
      invariant 0 <= i <= |entries|
      invariant sum == |yes * EntryKeys(entries[..i])|
    {
      var (key, val) := entries[i];
      YesEntryStep(sel, visible, entries, i);
      if key in visible && val == YES {
        sum := sum + 1;
      }
      i := i + 1;
    }
    assert entries[..i] == entries;
    assert yes * EntryKeys(entries) == yes;
  }

  /** One more entry of the walk adds one yes-id exactly when its key is visible and its value is yes. */
  lemma YesEntryStep(sel: Selections, visible: set<int>, entries: seq<(int, int)>, i: nat)
    requires ListsEntries(entries, sel) && i < |entries|
    ensures |YesIds(sel, visible) * EntryKeys(entries[..i + 1])|
         == |YesIds(sel, visible) * EntryKeys(entries[..i])|
          + (if entries[i].0 in visible && entries[i].1 == YES then 1 else 0)
  {
    var yes := YesIds(sel, visible);
    var key := entries[i].0;
    var seen := EntryKeys(entries[..i]);
    EntryKeysSnoc(entries, i);
    assert key !in seen by {
      forall j | 0 <= j < i ensures entries[..i][j].0 != key {
        assert entries[..i][j] == entries[j];
      }
    }
    if key in visible && entries[i].1 == YES {
      assert yes * (seen + {key}) == (yes * seen) + {key};
    } else {
      assert yes * (seen + {key}) == yes * seen;
    }
  }

  /** Answering one item changes the count by at most the old and new yes points of that item. */
  lemma {:induction false} YesCountUpdate(sel: Selections, items: seq<Item>, id: int, v: int)
    requires DistinctIds(items)
    ensures YesCount(sel[id := v], items)
         == YesCount(sel, items)
          - (if id in Ids(items) && AnsweredYes(sel, id) then 1 else 0)
          + (if id in Ids(items) && v == YES then 1 else 0)
    decreases |items|
  {
    if |items| > 0 {
      IdsCons(items);
      DistinctHead(items);
      YesCountUpdate(sel, items[1..], id, v);
    }
  }

  /**
    Answering a visible item moves the score by its change in yes points;
    answering a hidden or foreign id leaves the score alone.
   */
  lemma SetScore(s: State, id: int, v: int)
    ensures id in Ids(Visible(s.isFull)) ==>
      TotalScore(Set(s, id, v))
        == TotalScore(s) - (if AnsweredYes(s.selections, id) then 1 else 0) + (if v == YES then 1 else 0)
    ensures id !in Ids(Visible(s.isFull)) ==> TotalScore(Set(s, id, v)) == TotalScore(s)
  {
    CatalogShape();
    FilterShownIds(Items, s.isFull);
    YesCountUpdate(s.selections, Visible(s.isFull), id, v);
  }

  /**
    If none of the hidden items is answered yes, counting over the shown
    items gives the same as counting over all of them.
   */
  lemma {:induction false} HiddenNotYes(sel: Selections, items: seq<Item>, isFull: bool)
    requires forall i :: 0 <= i < |items| && !Shown(items[i], isFull) ==> !AnsweredYes(sel, items[i].id)
    ensures YesCount(sel, FilterShown(items, isFull)) == YesCount(sel, items)
    decreases |items|
  {
    if |items| > 0 {
      HiddenNotYes(sel, items[1..], isFull);
      if Shown(items[0], isFull) {
        assert ([items[0]] + FilterShown(items[1..], isFull))[1..] == FilterShown(items[1..], isFull);
      }
    }
  }

  /** Stored answers survive mode switches, so toggling twice restores the visible set and the score. */
  lemma ToggleTwiceScore(s: State)
    ensures Visible(Toggle(Toggle(s)).isFull) == Visible(s.isFull)
    ensures TotalScore(Toggle(Toggle(s))) == TotalScore(s)
  {
  }

  /**
    Switching from short to full mode raises the maximum from 7 to 11 and
    keeps the score when none of the full-only items 3, 4, 7, 11 is answered yes.
   */
  lemma ShortToFullScore(s: State)
    requires !s.isFull
    requires forall id :: id in {3, 4, 7, 11} ==> !AnsweredYes(s.selections, id)
    ensures MaxScore(s.isFull) == 7 && MaxScore(Toggle(s).isFull) == 11
    ensures TotalScore(Toggle(s)) == TotalScore(s)
  {
    CatalogShape();
    VisibleFull();
    HiddenNotYes(s.selections, Items, false);
  }

  /** The fixed cutoffs from pilot data: 6 in full mode, 4 in short mode, both reachable. */
  function Cutoff(isFull: bool): (c: nat)
    ensures 0 < c <= MaxScore(isFull)
  {
    if isFull then 6 else 4
  }

  /** The two interpretations the checklist reports. */
  datatype Band = AboveCutoff | BelowCutoff

  /** Compares a score with the cutoff of the mode; reaching the cutoff is enough. */
  function Classify(score: int, isFull: bool): (b: Band)
    ensures isFull ==> (b == AboveCutoff <==> score >= 6)
    ensures !isFull ==> (b == AboveCutoff <==> score >= 4)
  {
    if score >= Cutoff(isFull) then AboveCutoff else BelowCutoff
  }

  /** The band of a state. */
  function StateBand(s: State): (b: Band)
    ensures b == AboveCutoff <==> |YesIds(s.selections, Ids(Visible(s.isFull)))| >= Cutoff(s.isFull)
  {
    ScoreIsYesKeys(s);
    Classify(TotalScore(s), s.isFull)
  }

  /**
    The classification is a threshold on the score: monotone, inclusive at
    the cutoff, and below it one point short.
   */
  lemma ClassifyThreshold(a: int, b: int, isFull: bool)
    ensures a <= b && Classify(a, isFull) == AboveCutoff ==> Classify(b, isFull) == AboveCutoff
    ensures Classify(Cutoff(isFull), isFull) == AboveCutoff
    ensures Classify(Cutoff(isFull) - 1, isFull) == BelowCutoff
    ensures Classify(6, true) == AboveCutoff && Classify(5, true) == BelowCutoff
    ensures Classify(4, false) == AboveCutoff && Classify(3, false) == BelowCutoff
  {
  }
}
