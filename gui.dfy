/**
 * The DFA editor object: the fields its callbacks assign and the four
 * callbacks that carry the logic, with the widget reads turned into
 * parameters and the dialogs into returned outcomes.
 */
module Gui {

  import opened Parsing
  import opened Automaton

  /** The keys of the transition grid, created row by row (states) and
      column by column (alphabet); a key met again keeps its first place. */
  method GridCells(states: seq<State>, alphabet: seq<Symbol>) returns (cs: seq<Cell>)
    ensures cs == CellOrder(states, alphabet)
  {
    cs := [];
    var i := 0;
    while i < |states|
      invariant 0 <= i <= |states|
      invariant cs == Dedup(Product(states[..i], alphabet))
    {
      var j := 0;
      assert alphabet[..0] == [];
      assert Product(states[..i], alphabet) + Row(states[i], []) == Product(states[..i], alphabet);
      while j < |alphabet|
        invariant 0 <= j <= |alphabet|
        invariant cs == Dedup(Product(states[..i], alphabet) + Row(states[i], alphabet[..j]))
      {
        var c := (states[i], alphabet[j]);
        ghost var before := Product(states[..i], alphabet) + Row(states[i], alphabet[..j]);
        assert alphabet[..j + 1][..j] == alphabet[..j];
        assert Row(states[i], alphabet[..j + 1]) == Row(states[i], alphabet[..j]) + [c];
        assert (before + [c])[..|before|] == before;
        assert Product(states[..i], alphabet) + Row(states[i], alphabet[..j + 1]) == before + [c];
        if c !in cs {
          cs := cs + [c];
        }
        j := j + 1;
      }
      assert alphabet[..j] == alphabet;
      assert states[..i + 1][..i] == states[..i];
      i := i + 1;
    }
    assert states[..i] == states;
  }

  /** The checks of a parsed definition, made in order: emptiness, the
      start state, then each accept state in turn. */
  method CheckFields(alpha: seq<Symbol>, sts: seq<State>, start: State, accept: seq<State>) returns (r: Outcome)
    ensures r == CheckDefinition(alpha, sts, start, accept)
  {
    if |alpha| == 0 || |sts| == 0 || start == "" {
      return Fail(EmptyDefinition);
    }
    if start !in sts {
      return Fail(StartNotAState(start));
    }
    var k := 0;
    while k < |accept|
      invariant 0 <= k <= |accept|
      invariant forall i :: 0 <= i < k ==> accept[i] in sts
    {
      if accept[k] !in sts {
        assert FirstNotIn(accept, sts) == k;
        return Fail(AcceptNotAState(accept[k]));
      }
      k := k + 1;
    }
    r := Pass;
  }

  /** The body of a save on a table reset to one empty row per state:
      writes the cells in order and stops at the first faulty one. */
  method WriteCells(states: seq<State>, cells: seq<Cell>, texts: map<Cell, string>) returns (t: Table, r: Outcome)
    requires HasTexts(cells, texts)
    ensures (t, r) == SaveResult(states, cells, texts)
  {
    var empty := EmptyTable(states);
    t := empty;
    var i := 0;
    while i < |cells|
      invariant 0 <= i <= |cells|
      invariant forall j :: 0 <= j < i ==> CellFault(states, cells[j], texts[cells[j]]).None?
      invariant forall j :: 0 <= j < i ==> cells[j].0 in empty
      invariant t == Fill(empty, cells, i, texts)
    {
      var (state, symbol) := cells[i];
      var toState := Strip(texts[cells[i]]);
      if toState !in states {
        r := Fail(InvalidTransition(state, symbol, toState));
        FirstFaultIs(states, cells, texts, i);
        return;
      }
      if state !in t {
        r := Fail(NoSuchState(state));
        FirstFaultIs(states, cells, texts, i);
        return;
      }
      FillStep(empty, cells, i, texts);
      t := t[state := t[state][symbol := toState]];
      i := i + 1;
    }
    FirstFaultIs(states, cells, texts, |cells|);
    r := Pass;
  }

  class DfaGui {
    var alphabet: seq<Symbol>
    var states: seq<State>
    var startState: State
    var acceptStates: seq<State>
    var transitions: Table
    /** The keys of the transition grid of the last successful definition,
        in the order its cells were created. */
    var cells: seq<Cell>

    constructor ()
      ensures alphabet == [] && states == [] && startState == "" && acceptStates == []
      ensures transitions == map[] && cells == []
    {
      alphabet, states, startState, acceptStates := [], [], "", [];
      transitions, cells := map[], [];
    }

    /** Parses the four definition fields into the object, then checks them;
        only a definition that passes builds a new grid. The fields are
        assigned before the checks, so a failed definition still replaces
        them, and the table is never touched. */
    method DefineTransitions(alphabetText: string, statesText: string, startText: string, acceptText: string)
      returns (r: Outcome)
      modifies this
      ensures alphabet == ParseField(alphabetText) && states == ParseField(statesText)
      ensures startState == Strip(startText) && acceptStates == ParseField(acceptText)
      ensures r == CheckDefinition(alphabet, states, startState, acceptStates)
      ensures cells == if r.Pass? then CellOrder(states, alphabet) else old(cells)
      ensures transitions == old(transitions)
    {
      var alpha, sts, start, accept := ParseField(alphabetText), ParseField(statesText), Strip(startText), ParseField(acceptText);
      alphabet, states, startState, acceptStates := alpha, sts, start, accept;
      r := CheckFields(alpha, sts, start, accept);
      if r.Pass? {
        cells := GridCells(sts, alpha);
      }
    }

    /** Resets the table to one empty row per state, then writes the grid's
        cells in order, stopping at the first faulty one; what was written
        before it stays. */
    method SaveTransitions(texts: map<Cell, string>) returns (r: Outcome)
      requires HasTexts(cells, texts)
      modifies this`transitions
      ensures (transitions, r) == SaveResult(states, cells, texts)
    {
      var t: Table;
      t, r := WriteCells(states, cells, texts);
      transitions := t;
    }

    /** The completeness check: scans the states, and for each the alphabet,
        and reports the first pair the table has no entry for. It changes
        nothing. */
    method ValidateDfa() returns (r: Outcome)
      ensures r.Pass? <==> forall s, a :: s in states && a in alphabet ==> PairFault(transitions, s, a).None?
      ensures r.Fail? ==> exists i, j ::
        && 0 <= i < |states| && 0 <= j < |alphabet|
        && PairFault(transitions, states[i], alphabet[j]) == Some(r.error)
        && forall i', j' :: 0 <= i' < |states| && 0 <= j' < |alphabet| && ScannedBefore(i', j', i, j) ==>
             PairFault(transitions, states[i'], alphabet[j']).None?
    {
      var i := 0;
      while i < |states|
        invariant 0 <= i <= |states|
        invariant forall i', j' :: 0 <= i' < i && 0 <= j' < |alphabet| ==> PairFault(transitions, states[i'], alphabet[j']).None?
      {
        var j := 0;
        while j < |alphabet|
          invariant 0 <= j <= |alphabet|
          invariant forall j' :: 0 <= j' < j ==> PairFault(transitions, states[i], alphabet[j']).None?
        {
          var state, symbol := states[i], alphabet[j];
          assert state in states && symbol in alphabet;
          if state !in transitions {
            return Fail(NoSuchState(state));
          }
          if symbol !in transitions[state] {
            return Fail(MissingTransition(state, symbol));
          }
          j := j + 1;
        }
        i := i + 1;
      }
      r := Pass;
      forall s, a | s in states && a in alphabet ensures PairFault(transitions, s, a).None? {
        var i' :| 0 <= i' < |states| && states[i'] == s;
        var j' :| 0 <= j' < |alphabet| && alphabet[j'] == a;
        assert PairFault(transitions, states[i'], alphabet[j']).None?;
      }
    }

    /** Runs the stripped input from the start state, appending each state
        reached to the path; the table is looked up step by step, so a
        missing entry is only met when the run reaches it. */
    method SimulateString(text: string) returns (r: Result<seq<State>>)
      ensures r == Run(transitions, alphabet, startState, Strip(text))
    {
      var input := Strip(text);
      if transitions == map[] {
        return Err(TransitionsUndefined);
      }
      var current := startState;
      var path := [current];
      var i := 0;
      assert input[0..] == input;
      assert path[..0] == [];
      assert forall p: seq<State> :: [] + p == p;
      while i < |input|
        invariant 0 <= i <= |input|
        invariant |path| > 0 && current == path[|path| - 1]
        invariant Walk(transitions, alphabet, startState, input)
               == Prepend(path[..|path| - 1], Walk(transitions, alphabet, current, input[i..]))
      {
        var symbol := [input[i]];
        assert input[i..][0] == input[i] && input[i..][1..] == input[i + 1..];
        if symbol !in alphabet {
          return Err(SymbolNotInAlphabet(symbol));
        }
        if current !in transitions {
          return Err(NoSuchState(current));
        }
        if symbol !in transitions[current] {
          return Err(NoSuchSymbol(current, symbol));
        }
        ghost var pre := path[..|path| - 1];
        ghost var rest := Walk(transitions, alphabet, transitions[current][symbol], input[i + 1..]);
        assert Walk(transitions, alphabet, current, input[i..]) == Prepend([current], rest);
        PrependTwice(pre, [current], rest);
        current := transitions[current][symbol];
        path := path + [current];
        assert path[..|path| - 1] == pre + [path[|path| - 2]];
        i := i + 1;
      }
      assert path[..|path| - 1] + [current] == path;
      r := Ok(path);
    }

    /** The verdict on a path: accepted exactly when its last state is an
        accept state, reported together with that state. */
    function CheckAcceptance(path: seq<State>): (v: Verdict)
      reads this
      requires |path| > 0
      ensures v.finalState == path[|path| - 1]
      ensures v.Accepted? <==> path[|path| - 1] in acceptStates
    {
      var q := path[|path| - 1];
      if q in acceptStates then Accepted(q) else Rejected(q)
    }
  }

  /** The verdict on a simulated string is membership of the state the
      extended transition function reaches on it. */
  lemma AcceptanceIsReach(d: DfaGui, text: string)
    requires Run(d.transitions, d.alphabet, d.startState, Strip(text)).Ok?
    ensures var path := Run(d.transitions, d.alphabet, d.startState, Strip(text)).value;
      && Reach(d.transitions, d.startState, Strip(text)) == Some(d.CheckAcceptance(path).finalState)
      && (d.CheckAcceptance(path).Accepted? <==> d.CheckAcceptance(path).finalState in d.acceptStates)
  {
    var w := Strip(text);
    WalkReach(d.transitions, d.alphabet, d.startState, w);
    assert w[..|w|] == w;
  }
}
