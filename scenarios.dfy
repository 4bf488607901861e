/**
 * Worked examples: a two-state automaton over {0, 1} whose accept state q1
 * is reached by the strings with an odd number of 1s, run on a few inputs,
 * and a definition whose start state is not declared.
 */
module Scenarios {

  import opened Parsing
  import opened Automaton
  import opened Gui

  /** The table of the two-state parity automaton. */
  function ParityTable(): Table {
    map["q0" := map["0" := "q0", "1" := "q1"], "q1" := map["0" := "q1", "1" := "q0"]]
  }

  /** "101" holds two 1s: it runs through q0, q1, q1, q0 and ends in q0,
      which is not an accept state. */
  lemma ParityRun()
    ensures Run(ParityTable(), ["0", "1"], "q0", "101") == Ok(["q0", "q1", "q1", "q0"])
    ensures Reach(ParityTable(), "q0", "101") == Some("q0")
  {
    var t := ParityTable();
    var sigma := ["0", "1"];
    assert "101"[1..] == "01" && "01"[1..] == "1" && "1"[1..] == [];
    assert ["101"[0]] == "1" && ["01"[0]] == "0" && ["1"[0]] == "1";
    assert Walk(t, sigma, "q0", "") == Ok(["q0"]);
    assert StepFault(t, sigma, "q1", "1") == None && t["q1"]["1"] == "q0";
    assert Walk(t, sigma, "q1", "1") == Prepend(["q1"], Walk(t, sigma, "q0", ""));
    assert ["q1"] + ["q0"] == ["q1", "q0"];
    assert StepFault(t, sigma, "q1", "0") == None && t["q1"]["0"] == "q1";
    assert Walk(t, sigma, "q1", "01") == Prepend(["q1"], Walk(t, sigma, "q1", "1"));
    assert ["q1"] + ["q1", "q0"] == ["q1", "q1", "q0"];
    assert StepFault(t, sigma, "q0", "1") == None && t["q0"]["1"] == "q1";
    assert Walk(t, sigma, "q0", "101") == Prepend(["q0"], Walk(t, sigma, "q1", "01"));
    assert ["q0"] + ["q1", "q1", "q0"] == ["q0", "q1", "q1", "q0"];
    WalkReach(t, sigma, "q0", "101");
    assert "101"[..3] == "101";
  }

  /** With q1 as the only accept state, the run of "101" is rejected in q0
      and the run of "1" is accepted in q1. */
  lemma ParityVerdict(d: DfaGui)
    requires d.acceptStates == ["q1"]
    ensures d.CheckAcceptance(["q0", "q1", "q1", "q0"]) == Rejected("q0")
    ensures d.CheckAcceptance(["q0", "q1"]) == Accepted("q1")
  {
    assert "q0" != "q1";
  }

  /** A character outside the alphabet stops the run at once. */
  lemma ParityForeignSymbol()
    ensures Run(ParityTable(), ["0", "1"], "q0", "2") == Err(SymbolNotInAlphabet("2"))
  {
    assert "q0" in ParityTable();
    assert ["2"[0]] == "2";
    assert "2" !in ["0", "1"];
    assert StepFault(ParityTable(), ["0", "1"], "q0", "2") == Some(SymbolNotInAlphabet("2"));
  }

  /** With only q0's row filled in, "11" takes its first step to q1 and then
      fails on q1's missing entry. */
  lemma HalfTableRun()
    ensures Run(map["q0" := map["0" := "q0", "1" := "q1"], "q1" := map[]], ["0", "1"], "q0", "11")
         == Err(NoSuchSymbol("q1", "1"))
  {
    var t := map["q0" := map["0" := "q0", "1" := "q1"], "q1" := map[]];
    assert "11"[1..] == "1";
    assert Walk(t, ["0", "1"], "q1", "1") == Err(NoSuchSymbol("q1", "1"));
  }

  /** A start state that is not among the declared states is refused. */
  lemma UndeclaredStart()
    ensures CheckDefinition(ParseField("0,1"), ParseField("q0, q1"), Strip(" q2 "), ParseField("q1"))
         == Fail(StartNotAState("q2"))
  {
    assert Join(["q0", " q1"]) == "q0, q1";
    SplitJoin(["q0", " q1"]);
    assert Strip(" q1") == "q1";
    assert ParseField("q0, q1") == ["q0", "q1"];
    assert Strip(" q2 ") == "q2";
  }

  /** The fields of the parity automaton, parsed. */
  lemma ParsedParityFields()
    ensures ParseField("0,1") == ["0", "1"]
    ensures ParseField("q0,q1") == ["q0", "q1"]
    ensures ParseField("q0,q1,") == ["q0", "q1", ""]
  {
    ParsedSymbols();
    ParsedStates();
    ParsedStatesTrailingComma();
  }

  lemma ParsedSymbols()
    ensures ParseField("0,1") == ["0", "1"]
  {
    assert Join(["0", "1"]) == "0,1";
    SplitJoin(["0", "1"]);
    assert Strip("0") == "0" && Strip("1") == "1";
  }

  lemma ParsedStates()
    ensures ParseField("q0,q1") == ["q0", "q1"]
  {
    assert Join(["q0", "q1"]) == "q0,q1";
    SplitJoin(["q0", "q1"]);
    assert Strip("q0") == "q0" && Strip("q1") == "q1";
  }

  lemma ParsedStatesTrailingComma()
    ensures ParseField("q0,q1,") == ["q0", "q1", ""]
  {
    assert Join(["q0", "q1", ""]) == "q0,q1,";
    SplitJoin(["q0", "q1", ""]);
    assert Strip("q0") == "q0" && Strip("q1") == "q1" && Strip("") == "";
  }

  /** An empty accept field cannot be saved next to states "q0,q1": its one
      blank token is not a state. A trailing comma in the states field
      declares the blank state and lets it through. */
  lemma BlankAcceptField()
    ensures CheckDefinition(ParseField("0,1"), ParseField("q0,q1"), "q0", ParseField(""))
         == Fail(AcceptNotAState(""))
    ensures CheckDefinition(ParseField("0,1"), ParseField("q0,q1,"), "q0", ParseField(""))
         == Pass
  {
    ParsedParityFields();
    BlankAcceptRefused(["0", "1"], ["q0", "q1"], "q0", "");
    BlankAcceptRefused(["0", "1"], ["q0", "q1", ""], "q0", "");
  }
}
