/**
  Persistence of the store in a single browser storage slot. Saving writes
  the record `{selections, isFull}`; loading applies a parsed record to the
  current state field by field, without validating ids or codes. Storage
  access and the JSON text itself are outside the model: what reaches the
  engine is a `Slot` describing the outcome of reading and parsing.
 */
module Persistence {
  import opened Catalog
  import opened Responses

  /** The `selections` field of a parsed record: falsy (absent, null, false, 0, "") or an object. */
  datatype SelectionsField = Falsy | Object(entries: Selections)

  /** The `isFull` field of a parsed record: a boolean, or anything else (absent included). */
  datatype ModeField = Boolean(flag: bool) | NotBoolean

  /** A parsed record; a parsed value that is not an object has both fields absent. */
  datatype Record = Record(selections: SelectionsField, isFull: ModeField)

  /** What reading the slot produced: nothing stored, text that does not parse, or a parsed record. */
  datatype Slot = Empty | Unparsable | Parsed(record: Record)

  /** Applies a parsed record: each field replaces its part of the state only when present in the right shape. */
  function ApplyRecord(s: State, rec: Record): (r: State)
    ensures rec.selections.Falsy? ==> r.selections == s.selections
    ensures rec.selections.Object? ==> r.selections == rec.selections.entries
    ensures rec.isFull.NotBoolean? ==> r.isFull == s.isFull
    ensures rec.isFull.Boolean? ==> r.isFull == rec.isFull.flag
  {
    State(
      if rec.selections.Object? then rec.selections.entries else s.selections,
      if rec.isFull.Boolean? then rec.isFull.flag else s.isFull)
  }

  /** Loading: an empty or unparsable slot leaves the state as it is. */
  function Load(s: State, slot: Slot): (r: State)
    ensures !slot.Parsed? ==> r == s
  {
    match slot
    case Parsed(rec) => ApplyRecord(s, rec)
    case _ => s
  }

  /** Saving: the record written for a state, which loads back to exactly that state from any state. */
  function Save(s: State): (rec: Record)
    ensures forall t :: Load(t, Parsed(rec)) == s
  {
    Record(Object(s.selections), Boolean(s.isFull))
  }

  /** The state a session starts in: the fresh state with whatever the slot holds applied. */
  function Startup(slot: Slot): (r: State)
    ensures !slot.Parsed? ==> r == Initial()
    ensures slot.Parsed? && slot.record.selections.Falsy? ==> r.selections == InitialSelections()
    ensures slot.Parsed? && slot.record.selections.Object? ==> r.selections == slot.record.selections.entries
    ensures slot.Parsed? && slot.record.isFull.NotBoolean? ==> !r.isFull
    ensures slot.Parsed? && slot.record.isFull.Boolean? ==> r.isFull == slot.record.isFull.flag
  {
    Load(Initial(), slot)
  }

  /**
    A session restarted on what the previous one saved resumes exactly
    where it stopped; with nothing usable stored it starts fresh.
   */
  lemma StartupResumes(s: State)
    ensures Startup(Parsed(Save(s))) == s
    ensures Startup(Empty) == Initial() && Startup(Unparsable) == Initial()
  {
  }

  /** Saving what was just loaded from a saved record writes that record again. */
  lemma SaveLoadSave(s: State, t: State)
    ensures Save(Load(t, Parsed(Save(s)))) == Save(s)
  {
  }

  /**
    Loading does not validate: a record whose selections name an unknown id
    is applied as it is, and the result breaks the store invariant.
   */
  lemma LoadAcceptsForeignIds(s: State, rec: Record)
    requires rec.selections.Object?
    requires exists k :: k in rec.selections.entries && k !in CatalogIds
    ensures !ValidStore(Load(s, Parsed(rec)).selections)
  {
  }

  /** A record that carries a valid store, or no selections at all, keeps the store invariant. */
  lemma LoadKeepsValid(s: State, rec: Record)
    requires ValidStore(s.selections)
    requires rec.selections.Object? ==> ValidStore(rec.selections.entries)
    ensures ValidStore(Load(s, Parsed(rec)).selections)
  {
  }

  /** A record without selections changes only the mode, and only when its `isFull` is a boolean. */
  lemma LoadModeOnly(s: State, m: ModeField)
    ensures Load(s, Parsed(Record(Falsy, m))).selections == s.selections
    ensures m.NotBoolean? ==> Load(s, Parsed(Record(Falsy, m))) == s
  {
  }
}
