# DFA editor engine, modelled in Dafny

The repository is a small tkinter application, `DFA_GUI` in `main.py`, for
defining a deterministic finite automaton and running strings through it.
The user types an alphabet, a list of states, a start state and a list of
accept states as comma-separated text. "Define Transitions" parses and checks
these and opens a grid with one text cell per (state, symbol). "Save
Transitions" copies the grid into the transition table. "Validate DFA" looks
for a missing table entry. "Simulate String" runs an input string from the
start state, builds the path of visited states and announces whether the
string is accepted.

This project models the logic behind those four buttons:

- `parsing.dfy`, module `Parsing`: Python's `str.split(",")` and
  `str.strip()`, and the parsing of one comma-separated field.
- `automaton.dfy`, module `Automaton`: the values (states, symbols, the
  nested transition table, the error variants) and the definitions the
  operations are proved against. These are the definition check, the order of
  the grid's cells, the save, the completeness scan and the run of a string,
  together with the extended transition function `Reach` used as an
  independent reference for runs.
- `gui.dfy`, module `Gui`: class `DfaGui` holds the fields the callbacks
  assign (`alphabet`, `states`, `startState`, `acceptStates`, `transitions`).
  It also holds `cells`, the key order of the grid's `transition_entries`
  dictionary. Its methods `DefineTransitions`, `SaveTransitions`,
  `ValidateDfa`, `SimulateString` and the function `CheckAcceptance` are the
  callbacks, each proved against the matching definition in `Automaton`.
- `scenarios.dfy`, module `Scenarios`: worked examples on a two-state parity
  automaton and on a definition whose start state is undeclared.

Widget reads become parameters: the four field texts, a map from each grid
cell to its text, and the simulation text. Dialogs become returned values:
`Outcome` (`Pass` or `Fail(error)`) and `Result` (`Ok(path)` or `Err(error)`).
Python's exceptions are the variants of `Automaton.Error`.
`EmptyDefinition`, `StartNotAState`, `AcceptNotAState`, `InvalidTransition`,
`MissingTransition`, `TransitionsUndefined` and `SymbolNotInAlphabet` are
the `ValueError`s the callbacks catch and show. `NoSuchState` and
`NoSuchSymbol` are the `KeyError`s raised by indexing the table at
main.py:97, 109 and 129. No handler catches those.

Behaviour of `main.py` that the model keeps, some of it surprising:

- A save is not atomic: the table is reset to one empty row per state, and
  the cells before the first faulty one stay written after a failure
  (main.py:92-97).
- A missing row or entry during simulation is a `KeyError`, raised only when
  the run reaches it (main.py:129). During validation, a state without a row
  is also a `KeyError`, not a `MissingTransition` (main.py:109).
- A failed definition still replaces the four parsed fields, because they
  are assigned before the checks (main.py:53-56). It keeps the previous grid
  and leaves the table alone. A later save on the old grid can then raise a
  `KeyError` for a row that is no longer a state.
- A parsed field is never an empty list. So the emptiness check fires only
  for a blank start state (main.py:58).
- For the same reason an empty accept field parses to one blank token, which
  is refused as "not a valid state" (main.py:56, 64-66): an automaton without
  accept states cannot be defined, unless a trailing comma in the states
  field declares the blank state too (`Automaton.BlankAcceptRefused`,
  `Scenarios.BlankAcceptField`).
- Under the parity table (q0-0->q0, q0-1->q1, q1-0->q1, q1-1->q0), "101"
  runs q0, q1, q1, q0 and ends in q0, which is not an accept state
  (`Scenarios.ParityRun`, `Scenarios.ParityVerdict`).

## Model

| member | source | states |
|---|---|---|
| `Parsing.TrimLeftShape` | main.py:53-56 | stripping the front leaves a suffix that is empty or starts with a non-space, and only whitespace (Python's `isspace` set) was dropped |
| `Parsing.TrimRightShape` | main.py:53-56 | stripping the back leaves a prefix that is empty or ends with a non-space, and only whitespace was dropped |
| `Parsing.StripShape` | main.py:55 | `strip()` returns a middle slice framed by whitespace on both sides, and the slice itself is empty or framed by non-spaces |
| `Parsing.StripUnique` | main.py:55 | any slice with the shape of `StripShape` is the stripped text, so that contract determines `strip()` |
| `Parsing.StripAllSpace` | main.py:55 | an all-whitespace text strips to the empty text |
| `Parsing.StripIdempotent` | main.py:53-56 | stripping a stripped token changes nothing |
| `Parsing.Split` | main.py:53-56 | `split(",")` yields exactly one more piece than there are commas, and no piece contains a comma |
| `Parsing.JoinSplit` | main.py:53-56 | joining the pieces with commas gives back the original text |
| `Parsing.SplitJoin` | main.py:53-56 | splitting the comma-join of comma-free pieces gives back the pieces |
| `Parsing.ParseField` | main.py:53-56 | a parsed field has (number of commas + 1) tokens, never zero, and token i is piece i stripped |
| `Parsing.ParsedTokenShape` | main.py:53-56 | every parsed token is comma-free and already stripped |
| `Automaton.FirstNotIn` | main.py:64-66 | the position of the first accept token that is not a state: all earlier tokens are states |
| `Automaton.CheckDefinitionSpec` | main.py:58-66 | passes iff alphabet and states are non-empty, the start is non-blank, the start is a state and every accept token is a state; otherwise the first failed check in order, naming the start or the first offending accept token |
| `Automaton.BlankAcceptRefused` | main.py:56-66 | a blank accept field parses to one blank token, and the definition is refused naming it unless the blank token is a declared state |
| `Automaton.ParsedDefinitionEmptyOnlyByStart` | main.py:53-59 | on parsed fields the emptiness error occurs iff the stripped start state is blank |
| `Automaton.Row` | main.py:78-81 | one cell per symbol of a state's row, in alphabet order |
| `Automaton.ProductMembers` | main.py:76-81 | the cells created hold exactly the pairs of a state and a symbol |
| `Automaton.ProductLength` | main.py:76-81 | one cell is created per state and symbol: the number of states times the number of symbols |
| `Automaton.ProductAt` | main.py:76-81 | the cell for state i and symbol j is created at position i * (number of symbols) + j: states outer, alphabet inner |
| `Automaton.ProductDistinct` | main.py:76-81 | with no repeated state and no repeated symbol, no cell is created twice |
| `Automaton.Dedup` | main.py:81 | the dictionary keeps the same keys, each once, ordered by the position of their first assignment |
| `Automaton.CellOrderCoversGrid` | main.py:75-81 | the grid's keys are distinct and are exactly the (state, symbol) pairs |
| `Automaton.DedupOfDistinct` | main.py:75-81 | assignments to distinct keys keep their order in the dictionary |
| `Automaton.CellOrderIsProduct` | main.py:75-81 | with no repeated state or symbol the grid order is the plain states-outer, alphabet-inner product |
| `Automaton.EmptyTable` | main.py:92 | the reset table has one row per state, and each row is empty |
| `Automaton.FirstFault` | main.py:93-96 | the position of the first cell whose stripped target is not a state (or whose row is not a state): every earlier cell is fine |
| `Automaton.Fill` | main.py:93-97 | writing cells into the table never adds or removes a row |
| `Automaton.FillEntries` | main.py:92-97 | after writing cells into empty rows, a row holds a symbol iff that cell was written, with the cell's stripped text |
| `Automaton.FillTargets` | main.py:94-97 | cells that passed the check have states as rows, and every target they write is a state |
| `Automaton.SaveStopsAtFirstFault` | main.py:92-97 | after a save, failed or not: every state has a row; the rows hold exactly the cells before the first faulty one, with their stripped texts, all states; Pass iff no cell is faulty, else the first faulty cell's error in grid order |
| `Automaton.SaveSuccess` | main.py:92-97 | after a save that passes, every grid cell's entry is present, equals its stripped text and is a state |
| `Automaton.SaveOnOwnGridFailsOnlyOnTarget` | main.py:76-97 | on the grid of the current definition a save can fail only with `InvalidTransition` on a target that is not a state, a `ValueError`, never with a `KeyError` |
| `Automaton.Walk` | main.py:123-130 | a successful run from q has one more state than characters, starting with q |
| `Automaton.WalkPath` | main.py:123-130 | a successful path starts at the start state, has length of the input + 1, every character is a symbol, and path[i+1] is the table entry for path[i] and character i |
| `Automaton.WalkReach` | main.py:123-130 | path[i] is the extended transition function applied to the first i characters |
| `Automaton.WalkOkIff` | main.py:126-129 | a run succeeds iff every character is in the alphabet and the extended transition function is defined on the whole input |
| `Automaton.WalkErr` | main.py:126-129 | a failed run fails at some step i: all earlier characters are symbols, the state before step i is reached, and the error is step i's fault in check order (symbol, then row, then entry); later steps are never examined |
| `Automaton.PathInStates` | main.py:123-130 | if the start is a state and every table target is a state, every path element is a state |
| `Automaton.CompleteTableRuns` | main.py:126-130 | on a table that passes the completeness scan and whose targets are states, every string over the alphabet runs to the end |
| `Gui.GridCells` | main.py:75-81 | the nested loop over states and alphabet yields the grid's key order `CellOrder` |
| `Gui.CheckFields` | main.py:58-66 | the checks made in order (emptiness, start state, each accept token in turn) return exactly `CheckDefinition` of the parsed fields |
| `Gui.WriteCells` | main.py:92-97 | resetting the table and writing the cells in order up to the first faulty one yields exactly `SaveResult` |
| `Gui.DfaGui.constructor` | main.py:15-19 | empty lists, no start state (the empty string), an empty table and no grid |
| `Gui.DfaGui.DefineTransitions` | main.py:53-66 | assigns the four parsed fields, returns `CheckDefinition` of them, builds the grid only on success, and does not touch the table |
| `Gui.DfaGui.SaveTransitions` | main.py:92-97 | the new table and the outcome are exactly `SaveResult`: reset, then write in grid order up to the first faulty cell |
| `Gui.DfaGui.ValidateDfa` | main.py:107-110 | changes nothing; passes iff every (state, symbol) has a row and an entry; otherwise reports the first missing pair in states-then-alphabet order (`KeyError` for a missing row) |
| `Gui.DfaGui.SimulateString` | main.py:119-130 | the result is `Run` on the stripped input: an empty table fails before any step, and otherwise the path or the first step's error |
| `Gui.DfaGui.CheckAcceptance` | main.py:139-140 | accepted iff the last state of the path is an accept state, and it reports that final state |
| `Gui.AcceptanceIsReach` | main.py:123-140 | the final state reported for a simulated string is the extended transition function on it, and the verdict is its membership in the accept states |
| `Scenarios.ParityRun` | main.py:119-130 | "101" on the parity automaton runs q0, q1, q1, q0 and reaches q0 |
| `Scenarios.ParityVerdict` | main.py:139-140 | with accept states ["q1"], the path ending in q0 is rejected in q0 and the path ending in q1 is accepted in q1 |
| `Scenarios.ParityForeignSymbol` | main.py:126-128 | "2" fails at once as a symbol outside the alphabet |
| `Scenarios.HalfTableRun` | main.py:126-129 | with q1's row empty, "11" fails on the second step with a `KeyError` for q1 and "1" |
| `Scenarios.UndeclaredStart` | main.py:53-62 | start " q2 " against states "q0, q1" is refused as not a state |
| `Scenarios.ParsedParityFields` | main.py:53-54 | "0,1", "q0,q1" and "q0,q1," parse to ["0", "1"], ["q0", "q1"] and ["q0", "q1", ""] |
| `Scenarios.BlankAcceptField` | main.py:56-66 | an empty accept field is refused against states "q0,q1" and passes against "q0,q1," |

## Left out

- Widget creation, the `Entry.get()` reads and the `messagebox` dialogs (main.py:11-48, 68-87, 99-102, 111-113, 134-135, 141-143) are UI. The reads are parameters and the dialogs are returned outcomes.
- The transition window's lifecycle (opening it, destroying it after a successful save) is not modelled. Only the keys of its cells are kept, in `cells`.
- `visualize_simulation` (main.py:146-191) is not modelled. It builds a networkx graph and a matplotlib animation that only consume the path.
- The background thread and the `delayed_check_acceptance` it starts (main.py:180) are not modelled. That method is never defined in the file; this is UI timing.
- The `animation_interrupted` flag and the close handler (main.py:182-186) are UI state and are not modelled.
- The `__main__` entry point (main.py:195-198) is not modelled.
- Gui.DfaGui.SaveTransitions: a save before any successful definition would raise `AttributeError`, since `transition_entries` does not exist yet. The UI cannot do this, because the Save button exists only after a successful definition. The model starts with an empty grid instead. The method also requires a text for every grid cell, as each cell always has its widget.
- Gui.DfaGui.constructor: the initial `start_state = None` is the empty string. No operation can observe the difference: simulation needs a saved table, and a save needs a definition.
- Gui.DfaGui.SimulateString: the path is returned. Handing it to the animation and then to `CheckAcceptance` (main.py:132-133) is left to the caller.
