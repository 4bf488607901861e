/**
 * The values the DFA editor works on and the definitions its operations are
 * proved against: the definition check, the order of the transition grid,
 * the transition save, the completeness scan and the run of a string.
 */
module Automaton {

  import Parsing

  type State = string
  type Symbol = string
  /** A cell of the transition grid: a state row and a symbol column. */
  type Cell = (State, Symbol)
  /** The transition table: one inner map per state, from symbol to target. */
  type Table = map<State, map<Symbol, State>>

  datatype Option<T> = None | Some(value: T)

  /** The failures of the editor. The first seven are raised as `ValueError`
      and shown in a dialog; the last two are the `KeyError`s of indexing the
      table, which no handler catches. */
  datatype Error =
    | EmptyDefinition
    | StartNotAState(start: State)
    | AcceptNotAState(token: State)
    | InvalidTransition(state: State, symbol: Symbol, target: State)
    | MissingTransition(state: State, symbol: Symbol)
    | TransitionsUndefined
    | SymbolNotInAlphabet(symbol: Symbol)
    | NoSuchState(state: State)
    | NoSuchSymbol(state: State, symbol: Symbol)
  {
    predicate IsValueError() {
      !NoSuchState? && !NoSuchSymbol?
    }
  }

  datatype Outcome = Pass | Fail(error: Error)

  datatype Result<T> = Ok(value: T) | Err(error: Error)

  datatype Verdict = Accepted(finalState: State) | Rejected(finalState: State)

  // ---------------------------------------------------------------------
  // Definition check

  /** The position of the first element of `xs` that is not in `states`, or
      `|xs|` when there is none. */
  function FirstNotIn(xs: seq<State>, states: seq<State>): (k: nat)
    ensures k <= |xs|
    ensures forall i :: 0 <= i < k ==> xs[i] in states
    ensures k < |xs| ==> xs[k] !in states
  {
    if xs == [] then 0
    else if xs[0] !in states then 0
    else 1 + FirstNotIn(xs[1..], states)
  }

  /** The checks made on a parsed definition, in the order they are made. */
  function CheckDefinition(alphabet: seq<Symbol>, states: seq<State>, start: State, accept: seq<State>): Outcome {
    if |alphabet| == 0 || |states| == 0 || start == "" then Fail(EmptyDefinition)
    else if start !in states then Fail(StartNotAState(start))
    else
      var k := FirstNotIn(accept, states);
      if k < |accept| then Fail(AcceptNotAState(accept[k])) else Pass
  }

  /** A definition passes exactly when alphabet and states are non-empty,
      the start state is non-blank and declared, and every accept token is
      declared; otherwise it fails with the first check that does not hold,
      naming the start state or the first undeclared accept token. */
  lemma CheckDefinitionSpec(alphabet: seq<Symbol>, states: seq<State>, start: State, accept: seq<State>)
    ensures var r := CheckDefinition(alphabet, states, start, accept);
      && (r == Pass <==>
            && |alphabet| > 0 && |states| > 0 && start != ""
            && start in states
            && forall i :: 0 <= i < |accept| ==> accept[i] in states)
      && (r == Fail(EmptyDefinition) <==> (|alphabet| == 0 || |states| == 0 || start == ""))
      && (r == Fail(StartNotAState(start)) <==>
            |alphabet| > 0 && |states| > 0 && start != "" && start !in states)
      && (r.Fail? && r.error.AcceptNotAState? ==>
            && |alphabet| > 0 && |states| > 0 && start != "" && start in states
            && exists k :: 0 <= k < |accept| && accept[k] == r.error.token && accept[k] !in states
                 && forall i :: 0 <= i < k ==> accept[i] in states)
      && (r.Fail? ==> r.error.EmptyDefinition? || r.error.StartNotAState? || r.error.AcceptNotAState?)
  {
  }

  /** Parsed fields are never empty lists, so the emptiness check fails
      exactly when the stripped start state is blank. */
  lemma ParsedDefinitionEmptyOnlyByStart(alphabetText: string, statesText: string, startText: string, acceptText: string)
    ensures CheckDefinition(Parsing.ParseField(alphabetText), Parsing.ParseField(statesText),
                            Parsing.Strip(startText), Parsing.ParseField(acceptText)) == Fail(EmptyDefinition)
        <==> Parsing.Strip(startText) == ""
  {
  }

  /** A blank accept field parses to the one blank token, so unless a blank
      token was also declared as a state (say through a trailing comma in
      the states field), a definition without accept states is refused. */
  lemma {:induction false} BlankAcceptRefused(alphabet: seq<Symbol>, states: seq<State>, start: State, acceptText: string)
    requires Parsing.AllSpace(acceptText) && ',' !in acceptText
    requires |alphabet| > 0 && start != "" && start in states
    ensures Parsing.ParseField(acceptText) == [""]
    ensures CheckDefinition(alphabet, states, start, Parsing.ParseField(acceptText))
         == if "" in states then Pass else Fail(AcceptNotAState(""))
  {
    Parsing.SplitJoin([acceptText]);
    Parsing.StripAllSpace(acceptText);
  }

  // ---------------------------------------------------------------------
  // The transition grid

  /** The cells of one state row, in alphabet order. */
  function Row(state: State, alphabet: seq<Symbol>): (cells: seq<Cell>)
    ensures |cells| == |alphabet|
    ensures forall j :: 0 <= j < |alphabet| ==> cells[j] == (state, alphabet[j])
  {
    if alphabet == [] then [] else Row(state, alphabet[..|alphabet| - 1]) + [(state, alphabet[|alphabet| - 1])]
  }

  /** The cells of the grid, states outer and alphabet inner. */
  function Product(states: seq<State>, alphabet: seq<Symbol>): seq<Cell> {
    if states == [] then []
    else Product(states[..|states| - 1], alphabet) + Row(states[|states| - 1], alphabet)
  }

  /** The cells created hold exactly the pairs of a state and a symbol. */
  lemma {:induction false} ProductMembers(states: seq<State>, alphabet: seq<Symbol>)
    ensures forall c :: c in Product(states, alphabet) <==> c.0 in states && c.1 in alphabet
  {
    if states != [] {
      var init := states[..|states| - 1];
      var last := states[|states| - 1];
      ProductMembers(init, alphabet);
      var row := Row(last, alphabet);
      assert Product(states, alphabet) == Product(init, alphabet) + row;
      assert states == init + [last];
      forall c ensures c in row <==> c.0 == last && c.1 in alphabet {
        if c in row {
          var j :| 0 <= j < |row| && row[j] == c;
        }
      }
    }
  }

  /** No element of `xs` occurs twice. */
  predicate Distinct<T(==)>(xs: seq<T>) {
    forall i, j :: 0 <= i < j < |xs| ==> xs[i] != xs[j]
  }

  /** The number of cells is the number of states times the number of
      symbols. */
  lemma {:induction false} ProductLength(states: seq<State>, alphabet: seq<Symbol>)
    ensures |Product(states, alphabet)| == |states| * |alphabet|
  {
    if states != [] {
      ProductLength(states[..|states| - 1], alphabet);
      assert (|states| - 1) * |alphabet| + |alphabet| == |states| * |alphabet|;
    }
  }

  /** The cells of the first `n` rows come first. */
  lemma {:induction false} ProductPrefix(states: seq<State>, alphabet: seq<Symbol>, n: nat)
    requires n <= |states|
    ensures Product(states[..n], alphabet) <= Product(states, alphabet)
    decreases |states| - n
  {
    if n < |states| {
      ProductPrefix(states, alphabet, n + 1);
      assert states[..n + 1][..n] == states[..n];
      assert Product(states[..n + 1], alphabet) == Product(states[..n], alphabet) + Row(states[n], alphabet);
    } else {
      assert states[..n] == states;
    }
  }

  /** The first `i + 1` rows are the first `i` rows and then row `i`. */
  lemma ProductSnoc(states: seq<State>, alphabet: seq<Symbol>, i: nat)
    requires i < |states|
    ensures Product(states[..i + 1], alphabet) == Product(states[..i], alphabet) + Row(states[i], alphabet)
  {
    assert states[..i + 1][..i] == states[..i];
  }

  /** Row `i` follows the cells of the rows before it. */
  lemma ProductNextRow(states: seq<State>, alphabet: seq<Symbol>, i: nat, j: nat)
    requires i < |states| && j < |alphabet|
    ensures |Product(states[..i], alphabet)| + j < |Product(states[..i + 1], alphabet)|
    ensures Product(states[..i + 1], alphabet)[|Product(states[..i], alphabet)| + j] == (states[i], alphabet[j])
  {
    ProductSnoc(states, alphabet, i);
    var pre := Product(states[..i], alphabet);
    var row := Row(states[i], alphabet);
    assert (pre + row)[|pre| + j] == row[j];
  }

  /** The cell at row `i` and column `j` of the grid sits at position
      `i * |alphabet| + j`: states outer, alphabet inner. */
  lemma ProductAt(states: seq<State>, alphabet: seq<Symbol>, i: nat, j: nat)
    requires i < |states| && j < |alphabet|
    ensures i * |alphabet| + j < |Product(states, alphabet)|
    ensures Product(states, alphabet)[i * |alphabet| + j] == (states[i], alphabet[j])
  {
    ProductNextRow(states, alphabet, i, j);
    ProductPrefix(states, alphabet, i + 1);
    ProductLength(states[..i], alphabet);
  }

  /** With no repeated state and no repeated symbol, no cell of the grid is
      repeated. */
  lemma {:induction false} ProductDistinct(states: seq<State>, alphabet: seq<Symbol>)
    requires Distinct(states) && Distinct(alphabet)
    ensures Distinct(Product(states, alphabet))
  {
    if states != [] {
      var n := |states|;
      var init := states[..n - 1];
      var last := states[n - 1];
      ProductDistinct(init, alphabet);
      ProductMembers(init, alphabet);
      var p := Product(init, alphabet);
      var row := Row(last, alphabet);
      assert last !in init;
      forall k | 0 <= k < |p| ensures p[k].0 != last {
        assert p[k] in p;
      }
      assert Product(states, alphabet) == p + row;
    }
  }

  /** The position of the first occurrence of `x` in `xs`. */
  function FirstIndex(xs: seq<Cell>, x: Cell): (k: nat)
    requires x in xs
    ensures k < |xs| && xs[k] == x
    ensures forall i :: 0 <= i < k ==> xs[i] != x
  {
    if xs[0] == x then 0 else 1 + FirstIndex(xs[1..], x)
  }

  /** `xs` with every repetition of an element dropped: what is left of a
      list of dictionary assignments once each key keeps the position of its
      first assignment. The keys are the same, each once, in the order of
      their first occurrences. */
  function Dedup(xs: seq<Cell>): (ys: seq<Cell>)
    ensures forall x :: x in ys <==> x in xs
    ensures Distinct(ys)
    ensures forall i, j :: 0 <= i < j < |ys| ==> FirstIndex(xs, ys[i]) < FirstIndex(xs, ys[j])
  {
    if xs == [] then []
    else
      var init := xs[..|xs| - 1];
      var d := Dedup(init);
      FirstIndexOfPrefix(init, xs);
      if xs[|xs| - 1] in d then d else d + [xs[|xs| - 1]]
  }

  /** The contract of FirstIndex determines it. */
  lemma {:induction false} FirstIndexIs(xs: seq<Cell>, x: Cell, k: nat)
    requires k < |xs| && xs[k] == x
    requires forall i :: 0 <= i < k ==> xs[i] != x
    ensures x in xs && FirstIndex(xs, x) == k
  {
    if k > 0 {
      FirstIndexIs(xs[1..], x, k - 1);
    }
  }

  /** Extending a list leaves the first occurrence of an element already in
      it where it was. */
  lemma FirstIndexOfPrefix(init: seq<Cell>, xs: seq<Cell>)
    requires |init| < |xs| && init == xs[..|init|]
    ensures forall x :: x in init ==> x in xs && FirstIndex(xs, x) == FirstIndex(init, x)
  {
    forall x | x in init ensures x in xs && FirstIndex(xs, x) == FirstIndex(init, x) {
      var k := FirstIndex(init, x);
      assert forall i :: 0 <= i <= k ==> xs[i] == init[i];
      FirstIndexIs(xs, x, k);
    }
  }

  /** The keys of the grid in the order its cells were created. */
  function CellOrder(states: seq<State>, alphabet: seq<Symbol>): seq<Cell> {
    Dedup(Product(states, alphabet))
  }

  /** Every cell of the grid appears exactly once. */
  lemma CellOrderCoversGrid(states: seq<State>, alphabet: seq<Symbol>)
    ensures Distinct(CellOrder(states, alphabet))
    ensures forall c :: c in CellOrder(states, alphabet) <==> c.0 in states && c.1 in alphabet
  {
    ProductMembers(states, alphabet);
  }

  /** A list with no repetition is left as it is. */
  lemma {:induction false} DedupOfDistinct(xs: seq<Cell>)
    requires Distinct(xs)
    ensures Dedup(xs) == xs
  {
    if xs != [] {
      var init := xs[..|xs| - 1];
      assert Distinct(init);
      DedupOfDistinct(init);
      assert xs[|xs| - 1] !in init;
      assert init + [xs[|xs| - 1]] == xs;
    }
  }

  /** With no repeated state and no repeated symbol, no cell is dropped: the
      grid is the plain states-outer, alphabet-inner product. */
  lemma CellOrderIsProduct(states: seq<State>, alphabet: seq<Symbol>)
    requires Distinct(states) && Distinct(alphabet)
    ensures CellOrder(states, alphabet) == Product(states, alphabet)
  {
    ProductDistinct(states, alphabet);
    DedupOfDistinct(Product(states, alphabet));
  }

  // ---------------------------------------------------------------------
  // Saving the grid

  /** The table a save starts from: one empty inner map per state. */
  function EmptyTable(states: seq<State>): (t: Table)
    ensures t.Keys == set s | s in states
    ensures forall s :: s in t ==> t[s] == map[]
  {
    map s | s in states :: map[]
  }

  /** What can go wrong with one cell: its stripped text is not a state
      (`ValueError`), or its row is not a key of the table (`KeyError`). */
  function CellFault(states: seq<State>, c: Cell, text: string): Option<Error> {
    var target := Parsing.Strip(text);
    if target !in states then Some(InvalidTransition(c.0, c.1, target))
    else if c.0 !in states then Some(NoSuchState(c.0))
    else None
  }

  predicate HasTexts(cells: seq<Cell>, texts: map<Cell, string>) {
    forall i :: 0 <= i < |cells| ==> cells[i] in texts
  }

  /** The position of the first faulty cell, or `|cells|` when all are fine. */
  function FirstFault(states: seq<State>, cells: seq<Cell>, texts: map<Cell, string>): (k: nat)
    requires HasTexts(cells, texts)
    ensures k <= |cells|
    ensures forall i :: 0 <= i < k ==> CellFault(states, cells[i], texts[cells[i]]).None?
    ensures k < |cells| ==> CellFault(states, cells[k], texts[cells[k]]).Some?
  {
    if cells == [] then 0
    else if CellFault(states, cells[0], texts[cells[0]]).Some? then 0
    else 1 + FirstFault(states, cells[1..], texts)
  }

  /** The contract of FirstFault determines it: a position with only fine
      cells before it and a faulty cell at it (or the end) is the first fault. */
  lemma {:induction false} FirstFaultIs(states: seq<State>, cells: seq<Cell>, texts: map<Cell, string>, k: nat)
    requires HasTexts(cells, texts) && k <= |cells|
    requires forall i :: 0 <= i < k ==> CellFault(states, cells[i], texts[cells[i]]).None?
    requires k < |cells| ==> CellFault(states, cells[k], texts[cells[k]]).Some?
    ensures FirstFault(states, cells, texts) == k
  {
    if cells != [] && k > 0 {
      FirstFaultIs(states, cells[1..], texts, k - 1);
    }
  }

  /** The table after the first `n` cells are written in order, each row
      entry set to the stripped text of its cell. */
  function Fill(t: Table, cells: seq<Cell>, n: nat, texts: map<Cell, string>): (r: Table)
    requires n <= |cells|
    requires forall i :: 0 <= i < n ==> cells[i] in texts && cells[i].0 in t
    ensures r.Keys == t.Keys
  {
    if n == 0 then t
    else
      var c := cells[n - 1];
      var u := Fill(t, cells, n - 1, texts);
      u[c.0 := u[c.0][c.1 := Parsing.Strip(texts[c])]]
  }

  /** One more cell written: its row entry is set to the cell's stripped
      text. */
  lemma FillStep(t: Table, cells: seq<Cell>, n: nat, texts: map<Cell, string>)
    requires n < |cells|
    requires forall i :: 0 <= i <= n ==> cells[i] in texts && cells[i].0 in t
    ensures var u := Fill(t, cells, n, texts);
      cells[n].0 in u &&
      Fill(t, cells, n + 1, texts) == u[cells[n].0 := u[cells[n].0][cells[n].1 := Parsing.Strip(texts[cells[n]])]]
  {
  }

  /** Filling from empty rows: a row holds exactly the symbols of the cells
      written in it, each mapped to the stripped text of that cell. */
  lemma {:induction false} FillEntries(states: seq<State>, cells: seq<Cell>, n: nat, texts: map<Cell, string>, s: State, a: Symbol)
    requires n <= |cells|
    requires forall i :: 0 <= i < n ==> cells[i] in texts && cells[i].0 in states
    requires s in states
    ensures a in Fill(EmptyTable(states), cells, n, texts)[s] <==> (s, a) in cells[..n]
    ensures (s, a) in cells[..n] ==> Fill(EmptyTable(states), cells, n, texts)[s][a] == Parsing.Strip(texts[(s, a)])
  {
    var e := EmptyTable(states);
    if n == 0 {
      assert e[s] == map[];
    } else {
      var c := cells[n - 1];
      FillEntries(states, cells, n - 1, texts, s, a);
      var u := Fill(e, cells, n - 1, texts);
      var row := if c.0 == s then u[s][c.1 := Parsing.Strip(texts[c])] else u[s];
      assert Fill(e, cells, n, texts)[s] == row;
      assert cells[..n] == cells[..n - 1] + [c];
      assert (s, a) in cells[..n] <==> (s, a) in cells[..n - 1] || (s, a) == c;
    }
  }

  /** Every target in the table is a state. */
  predicate TargetsIn(t: Table, states: seq<State>) {
    forall s, a :: s in t && a in t[s] ==> t[s][a] in states
  }

  /** Cells that pass the check have states as rows and write only states. */
  lemma {:induction false} FillTargets(states: seq<State>, cells: seq<Cell>, n: nat, texts: map<Cell, string>)
    requires n <= |cells| && HasTexts(cells, texts)
    requires forall i :: 0 <= i < n ==> CellFault(states, cells[i], texts[cells[i]]).None?
    ensures forall i :: 0 <= i < n ==> cells[i].0 in states
    ensures TargetsIn(Fill(EmptyTable(states), cells, n, texts), states)
  {
    if n > 0 {
      FillTargets(states, cells, n - 1, texts);
    }
  }

  /** A save: the table left behind and its outcome. The table is reset to
      empty rows, the cells before the first faulty one are written, and the
      outcome is that cell's fault, if any. */
  function SaveResult(states: seq<State>, cells: seq<Cell>, texts: map<Cell, string>): (Table, Outcome)
    requires HasTexts(cells, texts)
  {
    var k := FirstFault(states, cells, texts);
    (Fill(EmptyTable(states), cells, k, texts),
     if k == |cells| then Pass else Fail(CellFault(states, cells[k], texts[cells[k]]).value))
  }

  /** What a save leaves behind, failed or not: every state has a row; a row
      holds exactly the cells written before the first faulty cell, each
      with its stripped text, which is a state; the outcome is Pass exactly
      when no cell is faulty, and otherwise the fault of the first faulty
      cell, in grid order. */
  lemma SaveStopsAtFirstFault(states: seq<State>, cells: seq<Cell>, texts: map<Cell, string>)
    requires HasTexts(cells, texts)
    ensures var (t, r) := SaveResult(states, cells, texts);
      var k := FirstFault(states, cells, texts);
      && t.Keys == (set s | s in states)
      && (r == Pass <==> forall i :: 0 <= i < |cells| ==> CellFault(states, cells[i], texts[cells[i]]).None?)
      && (r.Fail? ==> k < |cells| && Some(r.error) == CellFault(states, cells[k], texts[cells[k]]))
      && (forall s, a :: s in states ==> (a in t[s] <==> (s, a) in cells[..k]))
      && (forall s, a :: s in states && (s, a) in cells[..k] ==> t[s][a] == Parsing.Strip(texts[(s, a)]))
      && TargetsIn(t, states)
  {
    var k := FirstFault(states, cells, texts);
    FillTargets(states, cells, k, texts);
    forall s, a | s in states
      ensures a in Fill(EmptyTable(states), cells, k, texts)[s] <==> (s, a) in cells[..k]
      ensures (s, a) in cells[..k] ==> Fill(EmptyTable(states), cells, k, texts)[s][a] == Parsing.Strip(texts[(s, a)])
    {
      FillEntries(states, cells, k, texts, s, a);
    }
  }

  /** A save that passes installs every cell of the grid with its stripped
      text, and every such entry is a state. */
  lemma SaveSuccess(states: seq<State>, cells: seq<Cell>, texts: map<Cell, string>)
    requires HasTexts(cells, texts)
    requires SaveResult(states, cells, texts).1 == Pass
    ensures var t := SaveResult(states, cells, texts).0;
      forall i :: 0 <= i < |cells| ==>
        && cells[i].0 in t && cells[i].1 in t[cells[i].0]
        && t[cells[i].0][cells[i].1] == Parsing.Strip(texts[cells[i]])
        && t[cells[i].0][cells[i].1] in states
  {
    SaveStopsAtFirstFault(states, cells, texts);
    assert cells[..|cells|] == cells;
    forall i | 0 <= i < |cells| ensures cells[i].0 in states && cells[i] in cells[..|cells|] {
      assert CellFault(states, cells[i], texts[cells[i]]).None?;
    }
  }

  /** On the grid of the current definition every row is a state, so a save
      can only fail on a target that is not a state, never with a KeyError. */
  lemma SaveOnOwnGridFailsOnlyOnTarget(states: seq<State>, alphabet: seq<Symbol>, texts: map<Cell, string>)
    requires HasTexts(CellOrder(states, alphabet), texts)
    ensures var r := SaveResult(states, CellOrder(states, alphabet), texts).1;
      r.Fail? ==> r.error.IsValueError() && r.error.InvalidTransition? && r.error.target !in states
  {
    var cells := CellOrder(states, alphabet);
    CellOrderCoversGrid(states, alphabet);
    var k := FirstFault(states, cells, texts);
    if k < |cells| {
      assert cells[k] in cells;
    }
  }

  // ---------------------------------------------------------------------
  // Completeness scan

  /** What the scan finds at one (state, symbol) pair: the state has no row
      (`KeyError`), or its row has no entry for the symbol. */
  function PairFault(t: Table, s: State, a: Symbol): Option<Error> {
    if s !in t then Some(NoSuchState(s))
    else if a !in t[s] then Some(MissingTransition(s, a))
    else None
  }

  /** Pair (i', j') is scanned before pair (i, j): states outer, symbols inner. */
  predicate ScannedBefore(i': int, j': int, i: int, j: int) {
    i' < i || (i' == i && j' < j)
  }

  // ---------------------------------------------------------------------
  // Running a string

  /** What stops one step of a run from state `q` on symbol `a`, checked in
      the order of the simulation loop. */
  function StepFault(t: Table, alphabet: seq<Symbol>, q: State, a: Symbol): Option<Error> {
    if a !in alphabet then Some(SymbolNotInAlphabet(a))
    else if q !in t then Some(NoSuchState(q))
    else if a !in t[q] then Some(NoSuchSymbol(q, a))
    else None
  }

  function Prepend(pre: seq<State>, r: Result<seq<State>>): Result<seq<State>> {
    match r
    case Ok(path) => Ok(pre + path)
    case Err(e) => Err(e)
  }

  lemma PrependTwice(a: seq<State>, b: seq<State>, r: Result<seq<State>>)
    ensures Prepend(a, Prepend(b, r)) == Prepend(a + b, r)
  {
    if r.Ok? {
      assert a + (b + r.value) == (a + b) + r.value;
    }
  }

  /** The path of states visited from `q` while consuming `w`, one character
      at a time, or the error of the first step that cannot be taken. */
  function Walk(t: Table, alphabet: seq<Symbol>, q: State, w: string): (r: Result<seq<State>>)
    ensures r.Ok? ==> |r.value| == |w| + 1 && r.value[0] == q
    decreases |w|
  {
    if w == [] then Ok([q])
    else
      match StepFault(t, alphabet, q, [w[0]])
      case Some(e) => Err(e)
      case None => Prepend([q], Walk(t, alphabet, t[q][[w[0]]], w[1..]))
  }

  /** A simulation: nothing is consumed when the table is empty. */
  function Run(t: Table, alphabet: seq<Symbol>, start: State, w: string): Result<seq<State>> {
    if t == map[] then Err(TransitionsUndefined) else Walk(t, alphabet, start, w)
  }

  /** The extended transition function: the state reached from `q` on `w`,
      if every transition on the way is in the table. */
  function Reach(t: Table, q: State, w: string): Option<State> {
    if w == [] then Some(q)
    else
      match Reach(t, q, w[..|w| - 1])
      case None => None
      case Some(p) =>
        var a := [w[|w| - 1]];
        if p in t && a in t[p] then Some(t[p][a]) else None
  }

  /** Reach read from the front: the first step, then the rest. */
  lemma {:induction false} ReachFront(t: Table, q: State, w: string)
    requires |w| > 0
    ensures Reach(t, q, w) ==
      (var a := [w[0]]; if q in t && a in t[q] then Reach(t, t[q][a], w[1..]) else None)
  {
    if |w| > 1 {
      var init := w[..|w| - 1];
      ReachFront(t, q, init);
      assert init[1..] == w[1..][..|w| - 2];
      assert [init[0]] == [w[0]];
    }
  }

  /** A successful run: the path starts at the start state, has one state
      per consumed character plus one, every character is a symbol of the
      alphabet, and each state follows from the one before by the table. */
  lemma {:induction false} WalkPath(t: Table, alphabet: seq<Symbol>, q: State, w: string)
    requires Walk(t, alphabet, q, w).Ok?
    ensures var path := Walk(t, alphabet, q, w).value;
      && |path| == |w| + 1
      && path[0] == q
      && forall i :: 0 <= i < |w| ==>
           && [w[i]] in alphabet
           && path[i] in t && [w[i]] in t[path[i]]
           && path[i + 1] == t[path[i]][[w[i]]]
    decreases |w|
  {
    if w != [] {
      var next := t[q][[w[0]]];
      WalkPath(t, alphabet, next, w[1..]);
      var rest := Walk(t, alphabet, next, w[1..]).value;
      var path := Walk(t, alphabet, q, w).value;
      assert path == [q] + rest;
      forall i | 0 <= i < |w|
        ensures [w[i]] in alphabet && path[i] in t && [w[i]] in t[path[i]] && path[i + 1] == t[path[i]][[w[i]]]
      {
        if i > 0 {
          assert w[1..][i - 1] == w[i];
        }
      }
    }
  }

  /** Every state of a successful path is the extended transition function
      applied to the prefix consumed so far. */
  lemma {:induction false} WalkReach(t: Table, alphabet: seq<Symbol>, q: State, w: string)
    requires Walk(t, alphabet, q, w).Ok?
    ensures forall i :: 0 <= i <= |w| ==> Reach(t, q, w[..i]) == Some(Walk(t, alphabet, q, w).value[i])
  {
    WalkPath(t, alphabet, q, w);
    var path := Walk(t, alphabet, q, w).value;
    var i := 0;
    while i < |w|
      invariant 0 <= i <= |w|
      invariant forall k :: 0 <= k <= i ==> Reach(t, q, w[..k]) == Some(path[k])
    {
      assert w[..i + 1][..i] == w[..i];
      i := i + 1;
    }
  }

  /** A run from `q` succeeds exactly when every character is a symbol and
      the extended transition function is defined on the whole input. */
  lemma {:induction false} WalkOkIff(t: Table, alphabet: seq<Symbol>, q: State, w: string)
    ensures Walk(t, alphabet, q, w).Ok? <==>
      (forall i :: 0 <= i < |w| ==> [w[i]] in alphabet) && Reach(t, q, w).Some?
    decreases |w|
  {
    if w != [] {
      ReachFront(t, q, w);
      var a := [w[0]];
      if a in alphabet && q in t && a in t[q] {
        WalkOkIff(t, alphabet, t[q][a], w[1..]);
        assert forall i :: 1 <= i < |w| ==> w[1..][i - 1] == w[i];
      }
    }
  }

  /** A run fails at its first faulty step, after every earlier step was
      taken: the earlier characters are symbols, the state reached before the
      faulty step is defined, and the error is that step's fault. Steps
      after it are never looked at. */
  lemma {:induction false} WalkErr(t: Table, alphabet: seq<Symbol>, q: State, w: string)
    requires Walk(t, alphabet, q, w).Err?
    ensures exists i, s ::
      && 0 <= i < |w|
      && (forall j :: 0 <= j < i ==> [w[j]] in alphabet)
      && Reach(t, q, w[..i]) == Some(s)
      && StepFault(t, alphabet, s, [w[i]]) == Some(Walk(t, alphabet, q, w).error)
    decreases |w|
  {
    var e := Walk(t, alphabet, q, w).error;
    var a := [w[0]];
    assert w[..0] == [];
    assert Reach(t, q, w[..0]) == Some(q);
    if StepFault(t, alphabet, q, a).None? {
      var next := t[q][a];
      WalkErr(t, alphabet, next, w[1..]);
      var i, s :|
        && 0 <= i < |w[1..]|
        && (forall j :: 0 <= j < i ==> [w[1..][j]] in alphabet)
        && Reach(t, next, w[1..][..i]) == Some(s)
        && StepFault(t, alphabet, s, [w[1..][i]]) == Some(e);
      WalkErrShift(t, alphabet, q, w, i, s);
    } else {
      assert StepFault(t, alphabet, q, [w[0]]) == Some(e);
    }
  }

  /** A faulty step `i` of the run after the first character is faulty step
      `i + 1` of the whole run. */
  lemma WalkErrShift(t: Table, alphabet: seq<Symbol>, q: State, w: string, i: nat, s: State)
    requires |w| > 0 && StepFault(t, alphabet, q, [w[0]]).None?
    requires i < |w| - 1
    requires forall j :: 0 <= j < i ==> [w[1..][j]] in alphabet
    requires Reach(t, t[q][[w[0]]], w[1..][..i]) == Some(s)
    ensures forall j :: 0 <= j < i + 1 ==> [w[j]] in alphabet
    ensures Reach(t, q, w[..i + 1]) == Some(s)
    ensures [w[1..][i]] == [w[i + 1]]
  {
    ReachFront(t, q, w[..i + 1]);
    assert w[..i + 1][1..] == w[1..][..i];
    assert forall j :: 1 <= j < i + 1 ==> w[1..][j - 1] == w[j];
  }

  /** On a table whose targets are all states, a run from a state visits
      only states. */
  lemma PathInStates(t: Table, alphabet: seq<Symbol>, states: seq<State>, q: State, w: string)
    requires q in states && TargetsIn(t, states)
    requires Walk(t, alphabet, q, w).Ok?
    ensures forall i :: 0 <= i < |Walk(t, alphabet, q, w).value| ==> Walk(t, alphabet, q, w).value[i] in states
  {
    WalkPath(t, alphabet, q, w);
    var path := Walk(t, alphabet, q, w).value;
    forall i | 0 <= i < |path| ensures path[i] in states {
      if i > 0 {
        assert path[i] == t[path[i - 1]][[w[i - 1]]];
      }
    }
  }

  /** A complete table whose targets are states runs every string over the
      alphabet to the end. */
  lemma {:induction false} CompleteTableRuns(t: Table, alphabet: seq<Symbol>, states: seq<State>, q: State, w: string)
    requires q in states && TargetsIn(t, states)
    requires forall s, a :: s in states && a in alphabet ==> PairFault(t, s, a).None?
    requires forall i :: 0 <= i < |w| ==> [w[i]] in alphabet
    ensures Walk(t, alphabet, q, w).Ok?
    decreases |w|
  {
    if w != [] {
      var a := [w[0]];
      assert PairFault(t, q, a).None?;
      assert forall i :: 0 <= i < |w[1..]| ==> w[1..][i] == w[i + 1];
      CompleteTableRuns(t, alphabet, states, t[q][a], w[1..]);
    }
  }
}
