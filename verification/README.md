# FCD checklist engine — a Dafny model

The application is a clinician-facing checklist of eleven yes/no items that
point towards a functional cognitive disorder (FCD). It can be used in a
short form of seven items or a full form of all eleven. A clinician answers
each shown item "yes" or "no". The points are the number of shown items
answered "yes". They are compared with a fixed cutoff: 4 in the short form
and 6 in the full form. The answers and the form choice are kept in a single
storage slot across sessions.

This project models the engine behind that screen in `src/App.jsx`:

- `Catalog` (`catalog.dfy`): the item catalogue. Each item has an id from 1
  to 11. The flag `onlyFull` marks items 3, 4, 7 and 11, which appear only in
  the full form. The item texts are opaque.
- `Responses` (`responses.dfy`): the response store.
  - It maps item ids to the raw codes -1 (unset), 0 (no) and 1 (yes), as the
    code stores them. A named tri-state `Response` sits on top.
  - The store starts with every catalogue id unset, in the short form.
  - Three transitions change it: set an answer, flip the form, and reset,
    which only acts when the confirmation is accepted.
- `Scoring` (`scoring.dfy`): the shown items, the maximum and total score,
  the cutoff and the band (above or below the cutoff).
  - The score is defined as a count over the shown items.
  - It is proved equal to the code's own computation, which walks the
    store's entries and keeps those whose id is shown.
- `Persistence` (`persistence.dfy`): saving the record
  `{selections, isFull}` and applying a parsed record on start-up. A record
  is applied field by field, exactly as the code does.
- `Scenarios` (`scenarios.dfy`): worked sessions from a fresh or reset store,
  with their scores and bands.
- `Instruction` (`instruction.dfy`): how an item's guidance text is shown.
  - The text is split at line feeds.
  - Each line is trimmed with the ECMAScript whitespace set, and empty lines
    are dropped.
  - If any line starts with `-` or `•`, the result is a list of the lines
    with that marker stripped. Otherwise the text is shown unchanged as one
    paragraph.
- `Wrappers` (`wrappers.dfy`): the `Option` type.

Loading does not validate anything. A parsed record's `selections` object
replaces the whole store whenever it is truthy, whatever ids and values it
holds. Its `isFull` is taken whenever it is a boolean. A validating loader
would reject a record with unknown or missing ids and fall back to the
fresh state, and a checked setter would refuse an id outside the
catalogue. The code does neither, and the model follows the code.
`Persistence.LoadAcceptsForeignIds` and
`Responses.SetForeignIdBreaksValid` show that such inputs break the store
invariant `ValidStore`. The invariant says the keys are exactly the
catalogue ids and every value is a known code. In the model the score
ignores foreign ids, because it only counts keys that equal a shown
catalogue id (`Scoring.ScoreIsYesKeys`). The program is looser: its keys
are strings, and the score turns each one into a number before comparing
it with the shown ids. A loaded key such as "01", "1.0" or " 1" therefore
also counts for item 1. A loaded record with several such keys can raise
the score, even past the maximum, and so move the result above the
cutoff. The model's integer keys cannot express this.

## Model

| member | source | states |
|---|---|---|
| Catalog.CatalogShape | src/App.jsx:6-66 | the catalogue has eleven items with ids 1..11 in order and no repeated id; exactly items 3, 4, 7 and 11 are full-form only, four in all |
| Catalog.InCatalog | src/App.jsx:6-66 | every id from 1 to 11 belongs to the catalogue |
| Responses.Code | src/App.jsx:88 | every response has a stored code that decodes back to it |
| Responses.FromCode | src/App.jsx:88 | a stored value names a response exactly when it is one of the codes -1, 0, 1: -1 is unanswered, 0 is no, 1 is yes |
| Responses.CodeRoundTrip | src/App.jsx:88 | decoding a stored code and encoding the response gives the code back, so the three codes and the three responses correspond one to one |
| Responses.InitialSelections | src/App.jsx:89 | the selections a session starts with have exactly the catalogue ids as keys, each holding -1 |
| Responses.UnsetEntries | src/App.jsx:89 | the initial selections have exactly the catalogue ids as keys, each holding the unset code |
| Responses.Initial | src/App.jsx:93-94 | a fresh session is in the short form, every catalogue item reads unanswered, and the store invariant holds |
| Responses.Set | src/App.jsx:170-172 | setting an answer stores the given value under that id, whatever the value, adds the id if it was missing, and changes no other entry and not the form |
| Responses.SetIdempotent | src/App.jsx:170-172 | setting the same answer twice has the effect of setting it once |
| Responses.Toggle | src/App.jsx:200 | the form switch flips the form and leaves every answer as it was |
| Responses.ToggleTwice | src/App.jsx:200 | flipping the form twice restores the state |
| Responses.Reset | src/App.jsx:174-179 | a declined confirmation changes nothing; an accepted one keeps the form and makes exactly the catalogue ids read unanswered |
| Responses.ResetForgetsHistory | src/App.jsx:174-179 | after an accepted reset, two states with the same form are identical, whatever was answered before |
| Responses.TransitionsKeepValid | src/App.jsx:170-179 | setting a catalogue id to a button code, flipping the form and resetting all keep the store invariant |
| Responses.SetForeignIdBreaksValid | src/App.jsx:170-172 | setting an id outside the catalogue is accepted and leaves a store that breaks the invariant |
| Scoring.FilterShown | src/App.jsx:149 | the filter keeps no more items than it is given, and every item it keeps is shown in the form |
| Scoring.Visible | src/App.jsx:148-151 | the shown items are the catalogue with some items deleted, order kept; in the full form they are the whole catalogue |
| Scoring.FilterShownExact | src/App.jsx:148-151 | an item is shown exactly when it is in the catalogue and either the form is full or it is not full-only; the shown items keep catalogue order; in the full form all items are shown |
| Scoring.FilterShownIds | src/App.jsx:148-151 | the shown ids are catalogue ids and, the catalogue having no repeats, none repeats |
| Scoring.VisibleShort | src/App.jsx:148-151 | the short form shows items 1, 2, 5, 6, 8, 9, 10 in that order |
| Scoring.VisibleFull | src/App.jsx:148-151 | the full form shows all eleven items in catalogue order |
| Scoring.MaxScore | src/App.jsx:161 | the maximum score is the number of shown items: 11 in the full form, 7 in the short form |
| Scoring.YesCount | src/App.jsx:153-159 | the reference count of items stored as yes is never more than the number of items |
| Scoring.AnsweredYesIsYes | src/App.jsx:88 | an id is stored with code 1 exactly when it reads back as the response yes, so the score counts the yes answers |
| Scoring.TotalScore | src/App.jsx:153-159 | with integer store keys, the score never exceeds the maximum for the current form |
| Scoring.YesCountUniform | src/App.jsx:157 | with every shown item answered yes the count is the number of items; with none it is 0 |
| Scoring.YesCountIsYesIds | src/App.jsx:153-159 | counting yes answers item by item equals the size of the set of item ids whose stored value is 1 |
| Scoring.ScoreIsYesKeys | src/App.jsx:153-159 | the score is the number of shown ids stored with value 1, whatever other keys the store holds |
| Scoring.SumYesEntries | src/App.jsx:155-157 | walking the store's entries, keeping the shown ids and adding one per value 1, gives the number of shown ids stored as yes |
| Scoring.YesEntryStep | src/App.jsx:155-157 | each further entry of the walk adds one to the count of yes-ids seen exactly when its key is shown and its value is 1 |
| Scoring.EntriesScore | src/App.jsx:153-159 | the score computed over the store's entries equals the score defined over the shown items |
| Scoring.YesCountUpdate | src/App.jsx:153-172 | storing a value under one id changes a count over distinct items only when the id is among them: it loses a point if the old value was yes and gains one if the new value is yes |
| Scoring.SetScore | src/App.jsx:153-172 | answering a shown item moves the score by its change in yes points (minus one if it was yes, plus one if the new code is yes); answering a hidden or foreign id leaves the score unchanged |
| Scoring.HiddenNotYes | src/App.jsx:148-159 | when no item hidden in a form is answered yes, counting over the shown items equals counting over all items |
| Scoring.ToggleTwiceScore | src/App.jsx:148-200 | flipping the form twice restores the shown items and the score |
| Scoring.ShortToFullScore | src/App.jsx:148-200 | switching from short to full raises the maximum from 7 to 11 and keeps the score when no full-only item is answered yes |
| Scoring.Cutoff | src/App.jsx:164 | the cutoff is positive and at most the form's maximum score |
| Scoring.Classify | src/App.jsx:164-168 | a score is above the cutoff exactly when it is at least 6 in the full form, or at least 4 in the short form |
| Scoring.StateBand | src/App.jsx:153-168 | a state is above the cutoff exactly when the number of shown ids stored as yes reaches the form's cutoff |
| Scoring.ClassifyThreshold | src/App.jsx:164-168 | the band is monotone in the score and the cutoff is inclusive: 6 and 5 fall above and below in the full form, 4 and 3 in the short form |
| Scenarios.AnswerAll | src/App.jsx:170-172 | answering a list of ids one by one stores the value under each listed id, and leaves other ids and the form untouched |
| Scenarios.StartingPoints | src/App.jsx:174-177 | a fresh store and a reset store both read unanswered for every catalogue item; the fresh one is in the short form |
| Scenarios.Unset | src/App.jsx:89 | an all-unanswered store holds the unset code under each of ids 1..11 |
| Scenarios.ShortAllYes | src/App.jsx:148-168 | in the short form, answering all seven shown items yes scores 7 of 7, above the cutoff of 4 |
| Scenarios.ShortThreeYes | src/App.jsx:148-168 | in the short form, three yes answers score 3, below the cutoff |
| Scenarios.FullScoreSplit | src/App.jsx:153-159 | the full-form score is the yes count of items 1..6 plus that of items 7..11 |
| Scenarios.FullSixYesOnCutoff | src/App.jsx:148-168 | in the full form, six yes answers reach exactly the cutoff of 6 and fall above it |
| Scenarios.AnsweredListedCount | src/App.jsx:153-172 | after answering a list of ids yes, items whose ids are all in the list score one point each |
| Scenarios.FullOnlyStayUnanswered | src/App.jsx:170-172 | answering only short-form ids leaves items 3, 4, 7, 11 unanswered |
| Scenarios.SwitchToFullAfterShortAnswers | src/App.jsx:148-200 | after answering short-form items only, switching to the full form raises the maximum to 11, keeps the score and shows the extra items unanswered |
| Persistence.ApplyRecord | src/App.jsx:133-136 | a truthy selections object replaces the whole store and a falsy one leaves it; a boolean isFull replaces the form and anything else leaves it |
| Persistence.Load | src/App.jsx:130-139 | an empty slot or unparsable text leaves the state unchanged |
| Persistence.Save | src/App.jsx:142-146 | the record saved for a state loads back to exactly that state, from any current state |
| Persistence.Startup | src/App.jsx:93-139 | with nothing usable stored a session starts fresh; otherwise a selections object replaces the fresh answers and a boolean isFull sets the form, and each absent or wrong-shaped field leaves the fresh value (all unanswered, short form) |
| Persistence.StartupResumes | src/App.jsx:130-146 | a session started on what the last one saved resumes it exactly; with nothing usable stored it starts from the fresh state |
| Persistence.SaveLoadSave | src/App.jsx:130-146 | saving right after loading a saved record writes the same record |
| Persistence.LoadAcceptsForeignIds | src/App.jsx:135 | a stored selections object naming an id outside the catalogue is applied and breaks the store invariant |
| Persistence.LoadKeepsValid | src/App.jsx:135-136 | a record carrying a valid store, or no selections, keeps the store invariant |
| Persistence.LoadModeOnly | src/App.jsx:135-136 | a record without selections keeps the answers and changes the form only when its isFull is a boolean |
| Instruction.SplitLines | src/App.jsx:70 | splitting gives at least one piece and no piece contains a line feed |
| Instruction.JoinSplit | src/App.jsx:70 | joining the pieces of a text with line feeds gives the text back |
| Instruction.SplitJoin | src/App.jsx:70 | pieces without line feeds, joined and split again, come back unchanged |
| Instruction.TrimStart | src/App.jsx:70 | removing leading whitespace leaves a tail of the line that is empty or starts with a non-whitespace character |
| Instruction.TrimStartDropsSpace | src/App.jsx:70 | what leading trimming removes is all whitespace |
| Instruction.TrimEnd | src/App.jsx:70 | removing trailing whitespace leaves a head of the line that is empty or ends with a non-whitespace character |
| Instruction.TrimEndDropsSpace | src/App.jsx:70 | what trailing trimming removes is all whitespace |
| Instruction.Trim | src/App.jsx:70 | a trimmed line has no whitespace at either end and is no longer than the line |
| Instruction.TrimIsSlice | src/App.jsx:70 | a trimmed line is a contiguous part of the line with only whitespace cut off on either side |
| Instruction.NonEmptyTrimmed | src/App.jsx:70 | the kept lines are no more than the pieces, and each is non-empty and trimmed |
| Instruction.NonEmptyTrimmedSnoc | src/App.jsx:70 | one more piece at the end adds its trimmed form to the kept lines when that is not empty and nothing otherwise, so the kept lines are the non-empty trimmed pieces in order |
| Instruction.Lines | src/App.jsx:70 | a text has no more lines than pieces, and the empty text has none; `LinesClean` states that each line is non-empty, trimmed and free of line feeds |
| Instruction.NonEmptyTrimmedAll | src/App.jsx:70 | when no piece trims to empty, the kept lines are the trimmed pieces one for one |
| Instruction.LinesClean | src/App.jsx:70 | kept lines are non-empty, trimmed and free of line feeds |
| Instruction.StripBullet | src/App.jsx:76 | a line without a marker is kept; from a marked line only the marker and the run of whitespace right after it are removed, leaving a shorter tail that is empty or starts with a non-space |
| Instruction.StripLineClean | src/App.jsx:76 | stripping a clean line leaves a clean tail of it |
| Instruction.StripAll | src/App.jsx:75-76 | the list has one entry per kept line, each the line with its marker stripped |
| Instruction.Render | src/App.jsx:68-86 | an empty text shows nothing; a non-empty text is a paragraph holding the text exactly when none of its lines starts with a marker; otherwise it is a list with one entry per kept line |
| Instruction.ListEntries | src/App.jsx:70-77 | each list entry is its kept line with the marker stripped, a tail of that line, trimmed and free of line feeds |
| Instruction.TrimBulletLine | src/App.jsx:70 | trimming a line made of a dash, a space and a trimmed entry gives the line back, or just the dash when the entry is empty |
| Instruction.RenderBulletText | src/App.jsx:68-86 | a text written as one dash-and-space line per entry renders as exactly that list of entries |

## Left out

- The page layout, the score bar and its percentage, the info panel, the
  legal pop-up, the keyboard and resize handlers, and all German text are
  presentation only and carry no engine logic.
- Browser storage access and JSON text are not modelled. A `Slot` stands
  for what reading and parsing produced, and swallowed exceptions become
  the `Empty`/`Unparsable` cases. The order in which the start-up read and
  the first save run is not modelled either.
- Persistence.ApplyRecord: store keys are integers. Object keys in the
  source are strings that the score turns back into numbers. Keys such as
  "01" or "1.0", which name the same number, are not modelled. Neither are
  stored values that are not integers: they are never 1, so they never
  count.
- Scoring.TotalScore: the bound `score <= MaxScore` holds only because
  store keys are integers, so each shown item is counted at most once.
  The same goes for `Scoring.ScoreIsYesKeys`. In the program, several
  string keys naming the same number ("1", "01", " 1") each add a point
  for the same item, and a loaded record can push the score past the
  maximum.
- Persistence.ApplyRecord: a truthy selections field that is not an
  object (a number, a string, an array) is not modelled. Such a value is
  stored as the selections as it is.
- Rejecting unknown ids when an answer is set is not modelled, because the
  code has no such check. The interface only ever passes a shown item's id
  with the code 0 or 1; `Set` accepts any id and any value, as the code
  does.
- Instruction.IsSpace: strings are sequences of Unicode scalar values
  rather than UTF-16 code units. The space separators are the ones in
  Unicode category Zs at the time of writing.
- The ids of shown list entries and the info button's active-item lookup
  are presentation state and are not modelled.
