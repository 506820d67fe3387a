// One step of the simulation, `proximo`, as a function of the states map and the run
// state (`estadoAtual`, `cadeiaEntrada`, `posicaoFita`, `pilha`, `executando`), with the
// stack discipline of `inserirNaPilha`.

module Engine {
  import opened Labels
  import opened Automaton

  /** The run state. The stack lists its symbols bottom first, as the array `pilha` does. */
  datatype Run = Run(current: Option<nat>, input: string, head: nat, stack: seq<char>, running: bool)

  /** The run state before any string is confirmed, and after `limpar`. */
  const Idle := Run(None, "", 0, [], false)

  datatype StepOutcome = NotRunning | NoCurrentState | UnknownState | Rejected | Moved | Accepted

  // ---------------------------------------------------------------------------------
  // the stack
  // ---------------------------------------------------------------------------------

  function Reverse(w: string): (r: seq<char>)
    ensures |r| == |w|
    ensures forall i :: 0 <= i < |w| ==> r[i] == w[|w| - 1 - i]
  {
    if w == [] then [] else Reverse(w[1..]) + [w[0]]
  }

  lemma {:induction false} ReverseReverse(w: string)
    ensures Reverse(Reverse(w)) == w
  {
    var r := Reverse(w);
    assert forall i :: 0 <= i < |w| ==> Reverse(r)[i] == w[i];
  }

  /** `inserirNaPilha(w)`: ε and ? push nothing; otherwise the characters of `w` are pushed
      from the last to the first, so that `w[0]` ends on top. */
  function Pushed(stack: seq<char>, w: string): (r: seq<char>)
    ensures w == Epsilon || w == Wildcard ==> r == stack
    ensures w != Epsilon && w != Wildcard ==>
              |r| == |stack| + |w| && r[..|stack|] == stack
              && (w != [] ==> r[|r| - 1] == w[0])
              && (forall i :: 0 <= i < |w| ==> r[|r| - 1 - i] == w[i])
  {
    if w == Epsilon || w == Wildcard then stack else stack + Reverse(w)
  }

  /** Reading the pushed part back from the top gives `w`. */
  lemma PushedReadsBack(stack: seq<char>, w: string)
    requires w != Epsilon && w != Wildcard
    ensures Reverse(Pushed(stack, w)[|stack|..]) == w
  {
    assert Pushed(stack, w)[|stack|..] == Reverse(w);
    ReverseReverse(w);
  }

  /** `pilha.pop()`, which leaves an empty array as it is. */
  function Pop(stack: seq<char>): (r: seq<char>)
    ensures stack == [] ==> r == []
    ensures stack != [] ==> r + [stack[|stack| - 1]] == stack
  {
    if |stack| > 0 then stack[..|stack| - 1] else stack
  }

  /** The character under the tape head, `""` once the input is used up. */
  function TapeSymbol(input: string, head: nat): (s: string)
    ensures |s| <= 1
    ensures s == [] <==> head >= |input|
    ensures head < |input| ==> s == [input[head]]
  {
    if head < |input| then [input[head]] else ""
  }

  /** The top of the stack, `""` when it is empty. */
  function StackTop(stack: seq<char>): (s: string)
    ensures |s| <= 1
    ensures s == [] <==> stack == []
    ensures stack != [] ==> s == [stack[|stack| - 1]]
  {
    if |stack| > 0 then [stack[|stack| - 1]] else ""
  }

  /** A field other than "" and "?" reads a symbol: the head advances or the top is popped. */
  predicate Consumes(field: string) {
    field != "" && field != Wildcard
  }

  /** A tape or stack test: "" and "?" pass always, any other field only on its symbol. */
  predicate Accepts(test: string, symbol: string) {
    test == "" || test == Wildcard || test == symbol
  }

  // ---------------------------------------------------------------------------------
  // candidate transitions
  // ---------------------------------------------------------------------------------

  /** An entry of the list `proximo` builds: the parsed label, one destination, the label. */
  datatype Candidate = Candidate(trans: Transition, dest: nat, text: string)

  // The list is built for any label parser `parse`; `proximo` uses `parsearTransicao`
  // (`Candidates`). Stating the order and membership facts for every parser keeps them
  // independent of how labels are parsed.

  /** The entries one label contributes: one per destination, none if it does not parse. */
  function Expand(parse: string -> Option<Transition>, text: string, ds: seq<nat>): seq<Candidate> {
    match parse(text)
    case None => []
    case Some(t) => seq(|ds|, i requires 0 <= i < |ds| => Candidate(t, ds[i], text))
  }

  /** The candidates of the labels in `labels`, label by label in that order. */
  function CandidatesOf(parse: string -> Option<Transition>, labels: seq<string>,
                        targets: map<string, seq<nat>>): seq<Candidate>
  {
    if labels == [] then []
    else
      var last := labels[|labels| - 1];
      var ds := if last in targets then targets[last] else [];
      CandidatesOf(parse, labels[..|labels| - 1], targets) + Expand(parse, last, ds)
  }

  /** The list `proximo` builds from a state's table. */
  function Candidates(t: Table): seq<Candidate> {
    CandidatesOf(Parse, t.labels, t.targets)
  }

  /** A candidate comes from a label of the table that parses and from one of its
      destinations, and every such pair gives one. */
  lemma {:induction false} CandidateMembership(parse: string -> Option<Transition>, labels: seq<string>,
                                                targets: map<string, seq<nat>>, c: Candidate)
    ensures c in CandidatesOf(parse, labels, targets) <==>
            && c.text in labels && parse(c.text) == Some(c.trans)
            && c.text in targets && c.dest in targets[c.text]
  {
    if labels != [] {
      var last := labels[|labels| - 1];
      CandidateMembership(parse, labels[..|labels| - 1], targets, c);
      assert labels == labels[..|labels| - 1] + [last];
      var ds := if last in targets then targets[last] else [];
      if parse(last).Some? && c.text == last && parse(c.text) == Some(c.trans) && c.dest in ds {
        var i :| 0 <= i < |ds| && ds[i] == c.dest;
        assert Expand(parse, last, ds)[i] == c;
      }
    }
  }

  /** Candidates keep label order: those of earlier labels come first. */
  lemma {:induction false} CandidatesConcat(parse: string -> Option<Transition>, xs: seq<string>,
                                             ys: seq<string>, targets: map<string, seq<nat>>)
    ensures CandidatesOf(parse, xs + ys, targets)
            == CandidatesOf(parse, xs, targets) + CandidatesOf(parse, ys, targets)
    decreases |ys|
  {
    if ys == [] {
      assert xs + ys == xs;
    } else {
      var init, last := ys[..|ys| - 1], ys[|ys| - 1];
      var e := Expand(parse, last, if last in targets then targets[last] else []);
      CandidatesConcat(parse, xs, init, targets);
      assert (xs + ys)[..|xs + ys| - 1] == xs + init;
      assert (xs + ys)[|xs + ys| - 1] == last;
      assert CandidatesOf(parse, xs + ys, targets) == CandidatesOf(parse, xs + init, targets) + e;
      assert CandidatesOf(parse, ys, targets) == CandidatesOf(parse, init, targets) + e;
    }
  }

  predicate Enabled(c: Candidate, symbol: string, top: string) {
    Accepts(c.trans.readTape, symbol) && Accepts(c.trans.readStack, top)
  }

  /** The index of the first enabled candidate at or after `from`. */
  function FirstMatch(cands: seq<Candidate>, symbol: string, top: string, from: nat): (r: Option<nat>)
    ensures r.Some? ==> from <= r.value < |cands| && Enabled(cands[r.value], symbol, top)
    ensures r.Some? ==> forall j :: from <= j < r.value ==> !Enabled(cands[j], symbol, top)
    ensures r.None? ==> forall j :: from <= j < |cands| ==> !Enabled(cands[j], symbol, top)
    decreases |cands| - from
  {
    if from >= |cands| then None
    else if Enabled(cands[from], symbol, top) then Some(from)
    else FirstMatch(cands, symbol, top, from + 1)
  }

  // ---------------------------------------------------------------------------------
  // starting a run
  // ---------------------------------------------------------------------------------

  datatype ConfirmOutcome = EmptyInput | NoStates | Started

  /** `confirmarCadeia`: refuse an empty string or an empty automaton; otherwise look up
      the initial state, store it as the global reference and start from it with the
      head at 0 and an empty stack. */
  function Start(m: Model, run: Run, text: string): (r: (Model, Run, ConfirmOutcome))
    ensures r.2 == EmptyInput <==> text == ""
    ensures r.2 == NoStates <==> text != "" && m.nodes == []
    ensures r.2 != Started ==> r.0 == m && r.1 == run
    ensures r.2 == Started ==>
              && r.0 == Confirmed(m)
              && r.1 == Run(r.0.initial, text, 0, [], true)
              && r.1.current.Some? && r.1.current.value in m.nodes
  {
    if text == "" then (m, run, EmptyInput)
    else if m.nodes == [] then (m, run, NoStates)
    else
      var m' := Confirmed(m);
      (m', Run(m'.initial, text, 0, [], true), Started)
  }

  /** A run starts from a state that has a record (so the first step finds it), namely the
      state flagged initial when there is one, and the first state of the diagram otherwise. */
  lemma StartState(m: Model, run: Run, text: string)
    requires ModelValid(m) && text != "" && m.nodes != []
    ensures var (m', run', o) := Start(m, run, text);
            && ModelValid(m')
            && run'.current.Some? && run'.current.value in m'.states
            && Step(m'.states, run').1 != UnknownState
            && (forall s: nat :: Flagged(m.states, s) ==> run'.current == Some(s))
            && ((forall s: nat :: s in m.nodes ==> !Flagged(m.states, s)) ==> run'.current == Some(m.nodes[0]))
  {
    ConfirmedValid(m);
    forall s: nat | Flagged(m.states, s) ensures Start(m, run, text).1.current == Some(s) {
      InitialOfFindsFlagged(m, s);
    }
  }

  // ---------------------------------------------------------------------------------
  // a step
  // ---------------------------------------------------------------------------------

  /** `estadosFinais.includes(d)`: the states whose final box was checked. */
  predicate IsFinal(states: map<nat, State>, d: nat) {
    d in states && states[d].isFinal
  }

  /** The run state after taking candidate `c`: the head, the stack, the state, and
      whether the run stops on acceptance. */
  function Take(states: map<nat, State>, run: Run, c: Candidate): (Run, StepOutcome) {
    var head := if Consumes(c.trans.readTape) then run.head + 1 else run.head;
    var popped := if Consumes(c.trans.readStack) then Pop(run.stack) else run.stack;
    var stack := if Consumes(c.trans.writeStack) then Pushed(popped, c.trans.writeStack) else popped;
    var accepted := IsFinal(states, c.dest) && head >= |run.input|;
    (Run(Some(c.dest), run.input, head, stack, !accepted), if accepted then Accepted else Moved)
  }

  /** `proximo`. */
  function Step(states: map<nat, State>, run: Run): (r: (Run, StepOutcome))
    ensures r.0.input == run.input
    ensures r.1 in {NotRunning, NoCurrentState} <==> r.0 == run && (!run.running || run.current.None?)
  {
    if !run.running then (run, NotRunning)
    else if run.current.None? then (run, NoCurrentState)
    else
      var q := run.current.value;
      if q !in states then (run.(running := false), UnknownState)
      else
        var cands := Candidates(states[q].transitions);
        match FirstMatch(cands, TapeSymbol(run.input, run.head), StackTop(run.stack), 0)
        case None => (run.(running := false), Rejected)
        case Some(k) => Take(states, run, cands[k])
  }

  /** Nothing happens unless a run is in progress from a known state. */
  lemma StepIdle(states: map<nat, State>, run: Run)
    ensures !run.running ==> Step(states, run) == (run, NotRunning)
    ensures run.running && run.current.None? ==> Step(states, run) == (run, NoCurrentState)
    ensures run.running && run.current.Some? && run.current.value !in states ==>
              Step(states, run) == (run.(running := false), UnknownState)
  {
  }

  /** With no enabled candidate the run stops and rejects, whether or not the current state
      is final; the tape, the stack and the state stay where they were. */
  lemma StepRejects(states: map<nat, State>, run: Run)
    requires run.running && run.current.Some? && run.current.value in states
    ensures var cands := Candidates(states[run.current.value].transitions);
            var sym, top := TapeSymbol(run.input, run.head), StackTop(run.stack);
            (forall j :: 0 <= j < |cands| ==> !Enabled(cands[j], sym, top)) <==>
            Step(states, run) == (run.(running := false), Rejected)
  {
  }

  /** A move takes the first enabled candidate: in label insertion order, then in the
      order of that label's destinations. */
  lemma StepTakesFirst(states: map<nat, State>, run: Run)
    requires Step(states, run).1 in {Moved, Accepted}
    ensures run.running && run.current.Some? && run.current.value in states
    ensures var cands := Candidates(states[run.current.value].transitions);
            var sym, top := TapeSymbol(run.input, run.head), StackTop(run.stack);
            exists k :: 0 <= k < |cands| && Enabled(cands[k], sym, top)
              && (forall j :: 0 <= j < k ==> !Enabled(cands[j], sym, top))
              && Step(states, run) == Take(states, run, cands[k])
  {
    var cands := Candidates(states[run.current.value].transitions);
    var sym, top := TapeSymbol(run.input, run.head), StackTop(run.stack);
    var k := FirstMatch(cands, sym, top, 0).value;
    assert Step(states, run) == Take(states, run, cands[k]);
  }

  /** What a move does to the tape, the stack and the state, and when it accepts. The
      stack loses its top when the stack field reads a symbol, then gains the written text
      reversed, so that its first character ends on top. */
  lemma TakeEffects(states: map<nat, State>, run: Run, c: Candidate)
    requires Enabled(c, TapeSymbol(run.input, run.head), StackTop(run.stack))
    ensures var (run', o) := Take(states, run, c);
            && run'.current == Some(c.dest)
            && run'.input == run.input
            && run'.head == (if Consumes(c.trans.readTape) then run.head + 1 else run.head)
            && (run.head <= |run.input| ==> run'.head <= |run.input|)
            && (Consumes(c.trans.readStack) ==> run.stack != [] && run'.stack[..|run.stack| - 1] == run.stack[..|run.stack| - 1])
            && (!Consumes(c.trans.readStack) && !Consumes(c.trans.writeStack) ==> run'.stack == run.stack)
            && (o == Accepted <==> IsFinal(states, c.dest) && run'.head >= |run.input|)
            && (o == Accepted <==> !run'.running)
            && o in {Accepted, Moved}
    ensures var below := if Consumes(c.trans.readStack) then run.stack[..|run.stack| - 1] else run.stack;
            Take(states, run, c).0.stack
            == below + (if Consumes(c.trans.writeStack) && c.trans.writeStack != Epsilon
                        then Reverse(c.trans.writeStack) else [])
  {
    var (run', o) := Take(states, run, c);
    if Consumes(c.trans.readStack) {
      var popped := Pop(run.stack);
      assert popped == run.stack[..|run.stack| - 1];
      assert run'.stack[..|popped|] == popped;
    }
  }

  /** The tape head never passes the end of the input, and moves by at most one. */
  lemma StepKeepsHead(states: map<nat, State>, run: Run)
    requires run.head <= |run.input|
    ensures Step(states, run).0.head <= |run.input|
    ensures Step(states, run).0.head in {run.head, run.head + 1}
  {
    if Step(states, run).1 in {Moved, Accepted} {
      StepTakesFirst(states, run);
      var cands := Candidates(states[run.current.value].transitions);
      var k := FirstMatch(cands, TapeSymbol(run.input, run.head), StackTop(run.stack), 0).value;
      TakeEffects(states, run, cands[k]);
    }
  }

  /** As written, `adicionar` stores no state record, so a run started on a freshly added
      initial state stops at once because its state is unknown; with the record stored the
      same run gets to look for a transition (and, with none, rejects). */
  lemma MissingRecordAsWritten()
    ensures var m := AddStateAsWritten(Cleared, false, true, "", "", "", []).0;
            var (m', run, o) := Start(m, Idle, "a");
            o == Started && run.current == Some(0) && Step(m'.states, run).1 == UnknownState
    ensures var m := AddState(Cleared, false, true, "", "", "", []).0;
            var (m', run, o) := Start(m, Idle, "a");
            o == Started && run.current == Some(0) && Step(m'.states, run).1 == Rejected
  {
    var m := AddState(Cleared, false, true, "", "", "", []).0;
    assert m.states[0].transitions == EmptyTable;
    assert Candidates(EmptyTable) == [];
  }

  /** A run stops exactly when it accepts, rejects or finds its state gone. */
  lemma StepStops(states: map<nat, State>, run: Run)
    requires run.running
    ensures !Step(states, run).0.running <==> Step(states, run).1 in {Accepted, Rejected, UnknownState}
  {
    if Step(states, run).1 in {Moved, Accepted} {
      StepTakesFirst(states, run);
      var cands := Candidates(states[run.current.value].transitions);
      var k := FirstMatch(cands, TapeSymbol(run.input, run.head), StackTop(run.stack), 0).value;
      TakeEffects(states, run, cands[k]);
    }
  }
}
