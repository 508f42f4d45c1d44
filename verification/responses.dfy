/**
  The response store: a map from item id to an answer code plus the
  full/short mode flag, and the three transitions the interface can make
  (answer an item, toggle the mode, reset after confirmation).

  Answers are stored as the raw codes the application keeps
  (-1 unanswered, 0 no or not examined, 1 yes), because a loaded record may
  put any value under any key; `Response` is the named tri-state read
  back from a code.
 */
module Responses {
  import opened Wrappers
  import opened Catalog

  const UNSET: int := -1
  const NO: int := 0
  const YES: int := 1

  datatype Response = Unanswered | No | Yes

  /** The stored code of a named response. */
  function Code(r: Response): (v: int)
    ensures FromCode(v) == Some(r)
  {
    match r
    case Unanswered => UNSET
    case No => NO
    case Yes => YES
  }

  /** Reads a stored code as a named response; any other value reads as nothing. */
  function FromCode(v: int): (r: Option<Response>)
    ensures r.Some? <==> v in {UNSET, NO, YES}
    ensures r == Some(Unanswered) <==> v == UNSET
    ensures r == Some(No) <==> v == NO
    ensures r == Some(Yes) <==> v == YES
  {
    if v == UNSET then Some(Unanswered)
    else if v == NO then Some(No)
    else if v == YES then Some(Yes)
    else None
  }

  /** Reading a known code back as a response and storing it again gives the same code. */
  lemma CodeRoundTrip(v: int)
    requires FromCode(v).Some?
    ensures Code(FromCode(v).value) == v
  {
  }

  type Selections = map<int, int>

  datatype State = State(selections: Selections, isFull: bool)

  /**
    The entries built from a sequence of items, every one set to the
    unanswered code. The order of the writes does not matter, because
    every value is the same.
   */
  function UnsetEntries(items: seq<Item>): (m: Selections)
    ensures m.Keys == Ids(items)
    ensures forall id :: id in m ==> m[id] == UNSET
    decreases |items|
  {
    if |items| == 0 then map[]
    else
      IdsCons(items);
      UnsetEntries(items[1..])[items[0].id := UNSET]
  }

  /** The selections a fresh session starts with: every catalog id unanswered. */
  function InitialSelections(): (m: Selections)
    ensures m.Keys == CatalogIds
    ensures forall id :: id in m ==> m[id] == UNSET
  {
    UnsetEntries(Items)
  }

  /** The state a fresh session starts with, before anything is loaded. */
  function Initial(): (s: State)
    ensures !s.isFull
    ensures forall id :: id in CatalogIds ==> ReadResponse(s, id) == Some(Unanswered)
    ensures ValidStore(s.selections)
  {
    State(InitialSelections(), false)
  }

  /** The named response stored for `id`, if there is one and it is a known code. */
  function ReadResponse(s: State, id: int): Option<Response>
  {
    if id in s.selections then FromCode(s.selections[id]) else None
  }

  /**
    The store invariant the interface keeps as long as nothing foreign is
    loaded: exactly the catalog ids, each with a known code.
   */
  predicate ValidStore(sel: Selections)
  {
    && sel.Keys == CatalogIds
    && forall id :: id in sel ==> FromCode(sel[id]).Some?
  }

  /** The two codes the answer buttons pass: no and yes. */
  predicate ButtonCode(v: int)
  {
    v == NO || v == YES
  }

  /**
    Answering: records `v` under `id` and touches nothing else. The id is
    not checked against the catalog.
   */
  function Set(s: State, id: int, v: int): (r: State)
    ensures r.isFull == s.isFull
    ensures r.selections.Keys == s.selections.Keys + {id}
    ensures r.selections[id] == v
    ensures ReadResponse(r, id) == FromCode(v)
    ensures forall k :: k != id ==> ReadResponse(r, k) == ReadResponse(s, k)
    ensures forall k :: k != id && k in s.selections ==> r.selections[k] == s.selections[k]
  {
    State(s.selections[id := v], s.isFull)
  }

  /** The mode switch: flips the mode and leaves every stored answer in place. */
  function Toggle(s: State): (r: State)
    ensures r.isFull == !s.isFull
    ensures r.selections == s.selections
    ensures forall id :: ReadResponse(r, id) == ReadResponse(s, id)
  {
    State(s.selections, !s.isFull)
  }

  /**
    Reset after the confirmation dialog: a declined confirmation changes
    nothing; a confirmed one restores every catalog answer to unanswered,
    drops any other key, and keeps the mode.
   */
  function Reset(s: State, confirmed: bool): (r: State)
    ensures !confirmed ==> r == s
    ensures confirmed ==> r.isFull == s.isFull && ValidStore(r.selections)
    ensures confirmed ==> forall id :: id in CatalogIds <==> ReadResponse(r, id) == Some(Unanswered)
  {
    if !confirmed then s
    else State(InitialSelections(), s.isFull)
  }

  /** Answering the same id with the same value twice is the same as once. */
  lemma SetIdempotent(s: State, id: int, v: int)
    ensures Set(Set(s, id, v), id, v) == Set(s, id, v)
  {
  }

  /** Toggling twice restores the state exactly. */
  lemma ToggleTwice(s: State)
    ensures Toggle(Toggle(s)) == s
  {
  }

  /** A confirmed reset lands on the same answers whatever came before. */
  lemma ResetForgetsHistory(s: State, t: State)
    requires s.isFull == t.isFull
    ensures Reset(s, true) == Reset(t, true)
    ensures Reset(s, true) == State(Initial().selections, s.isFull)
  {
  }

  /** Button presses on catalog items, mode switches and resets keep the store invariant. */
  lemma TransitionsKeepValid(s: State, id: int, v: int, confirmed: bool)
    requires ValidStore(s.selections)
    ensures id in CatalogIds && ButtonCode(v) ==> ValidStore(Set(s, id, v).selections)
    ensures ValidStore(Toggle(s).selections)
    ensures ValidStore(Reset(s, confirmed).selections)
  {
  }

  /** Answering an id outside the catalog adds a foreign key: the invariant is lost. */
  lemma SetForeignIdBreaksValid(s: State, id: int, v: int)
    requires id !in CatalogIds
    ensures !ValidStore(Set(s, id, v).selections)
  {
  }
}
