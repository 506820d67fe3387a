// The script's module-level state as one object: the automaton (`automato.estados`, the
// diagram's node list, `estadoInicial`, `nextNodeId`) and the run (`estadoAtual`,
// `cadeiaEntrada`, `posicaoFita`, `pilha`, `executando`). Each handler is a method that
// updates the fields in place, proved against the functions of Automaton and Engine.

module Simulator {
  import opened Labels
  import opened Automaton
  import opened Engine

  /** The inner loop of `removerEstado` over one state's `transicoes`: filter each list,
      store it back if something was removed, and delete the key once its list is empty. */
  method PruneTable(t: Table, r: nat) returns (u: Table)
    requires TableValid(t)
    ensures u == Prune(t, r)
  {
    u := t;
    var i := 0;
    while i < |t.labels|
      invariant 0 <= i <= |t.labels|
      invariant u == PruneLoop(t, r, i)
    {
      PruneLoopBefore(t, r, i);
      u := PruneKey(u, t.labels[i], r);
      i := i + 1;
    }
    PrunedAll(t, r);
  }

  /** One turn of that loop, on key `l`: store the filtered list if something was
      removed, then delete the key if its list is empty. */
  method PruneKey(u: Table, l: string, r: nat) returns (v: Table)
    requires l in u.targets
    ensures v == PruneTurn(u, l, r)
  {
    v := u;
    var original := v.targets[l];
    var filtered := Filter(original, r);
    if |original| != |filtered| {
      v := v.(targets := v.targets[l := filtered]);
    } else {
      UpdateSame(v.targets, l);
    }
    if |v.targets[l]| == 0 {
      v := Table(Without(v.labels, l), v.targets - {l});
    }
  }

  /** The loop of `conectarNovoEstado` on the origin's table: for each checked
      destination, in order, create the list under the label when it is new, then push. */
  method PushTargets(t: Table, text: string, targets: seq<nat>) returns (u: Table)
    ensures u == AddTargets(t, text, targets)
  {
    u := t;
    var i := 0;
    while i < |targets|
      invariant 0 <= i <= |targets|
      invariant u == AddTargets(t, text, targets[..i])
    {
      CreateThenPush(u, text, targets[i]);
      if text !in u.targets {
        u := Table(u.labels + [text], u.targets[text := []]);
      }
      u := Table(u.labels, u.targets[text := u.targets[text] + [targets[i]]]);
      assert targets[..i + 1][..i] == targets[..i];
      i := i + 1;
    }
    assert targets[..i] == targets;
  }

  /** The outer loop of `removerEstado`: every state's table pruned of `r`, one state at
      a time (the order does not matter, as each table is pruned on its own). */
  method PruneStates(states: map<nat, State>, r: nat) returns (u: map<nat, State>)
    requires forall n :: n in states ==> TableValid(states[n].transitions)
    ensures u == PruneAll(states, r)
  {
    PrunedExceptEnds(states, r);
    u := states;
    var todo := states.Keys;
    while todo != {}
      invariant todo <= states.Keys
      invariant u == PrunedExcept(states, todo, r)
      decreases |todo|
    {
      var n :| n in todo;
      PrunedExceptStep(states, todo, n, r);
      assert u[n] == states[n];
      var pruned := PruneTable(u[n].transitions, r);
      u := u[n := u[n].(transitions := pruned)];
      todo := todo - {n};
    }
  }

  /** The nested loops of `proximo` that list the candidates: label by label, skipping a
      label that does not parse, one entry per destination. */
  method CollectCandidates(parse: string -> Option<Transition>, t: Table) returns (cands: seq<Candidate>)
    ensures cands == CandidatesOf(parse, t.labels, t.targets)
  {
    cands := [];
    var i := 0;
    while i < |t.labels|
      invariant 0 <= i <= |t.labels|
      invariant cands == CandidatesOf(parse, t.labels[..i], t.targets)
    {
      var text := t.labels[i];
      var ds := if text in t.targets then t.targets[text] else [];
      var entries := ExpandLabel(parse, text, ds);
      cands := cands + entries;
      assert t.labels[..i + 1][..i] == t.labels[..i];
      i := i + 1;
    }
    assert t.labels[..i] == t.labels;
  }

  /** The body of that loop for one label: nothing if it does not parse, otherwise one
      entry per destination, in order. */
  method ExpandLabel(parse: string -> Option<Transition>, text: string, ds: seq<nat>)
    returns (entries: seq<Candidate>)
    ensures entries == Expand(parse, text, ds)
  {
    entries := [];
    var parsed := parse(text);
    if parsed.Some? {
      var j := 0;
      while j < |ds|
        invariant 0 <= j <= |ds|
        invariant entries == seq(j, k requires 0 <= k < j => Candidate(parsed.value, ds[k], text))
      {
        entries := entries + [Candidate(parsed.value, ds[j], text)];
        j := j + 1;
      }
    }
  }

  /** The search loop of `proximo`: the first candidate whose tape and stack tests pass. */
  method SelectFirst(cands: seq<Candidate>, symbol: string, top: string) returns (k: Option<nat>)
    ensures k == FirstMatch(cands, symbol, top, 0)
  {
    k := None;
    var i := 0;
    while i < |cands|
      invariant 0 <= i <= |cands|
      invariant FirstMatch(cands, symbol, top, i) == FirstMatch(cands, symbol, top, 0)
    {
      var trans := cands[i].trans;
      var tapeOk := trans.readTape == "" || trans.readTape == Wildcard || trans.readTape == symbol;
      var stackOk := trans.readStack == "" || trans.readStack == Wildcard || trans.readStack == top;
      if tapeOk && stackOk {
        k := Some(i);
        break;
      }
      i := i + 1;
    }
  }

  class Editor {
    var states: map<nat, State>
    var nodes: seq<nat>
    var initial: Option<nat>
    var nextId: nat

    var current: Option<nat>
    var input: string
    var head: nat
    var stack: seq<char>
    var running: bool

    function ModelView(): Model
      reads this
    {
      Model(states, nodes, initial, nextId)
    }

    function RunState(): Run
      reads this
    {
      Run(current, input, head, stack, running)
    }

    /** The automaton is consistent and the tape head is within the input. */
    predicate Valid()
      reads this
    {
      ModelValid(ModelView()) && head <= |input|
    }

    /** The state the script starts in. */
    constructor ()
      ensures Valid()
      ensures ModelView() == Cleared && RunState() == Idle
    {
      states, nodes, initial, nextId := map[], [], None, 0;
      current, input, head, stack, running := None, "", 0, [], false;
    }

    /** `adicionar`, with the checkbox values, the transition fields and the ids of the
        checked "connect" boxes as parameters. The page shows a "connect" box only for a
        state it has created, so every checked id is an existing state. */
    method Add(isFinal: bool, isInitial: bool, readTape: string, readStack: string, writeStack: string,
               targets: seq<nat>) returns (o: AddOutcome)
      requires forall d :: d in targets ==> d in states
      modifies this
      ensures (ModelView(), o) == AddState(old(ModelView()), isFinal, isInitial, readTape, readStack,
                                           writeStack, targets)
      ensures RunState() == old(RunState())
    {
      ghost var expected := AddState(ModelView(), isFinal, isInitial, readTape, readStack, writeStack, targets);
      var id := nextId;
      nextId := nextId + 1;
      if isInitial && isFinal {
        return BothFlags;
      }
      if isInitial && initial.Some? {
        nextId := nextId - 1;
        return DuplicateInitial;
      }
      Insert(id, isFinal, isInitial, readTape, readStack, writeStack, targets);
      o := Added(id);
      assert (ModelView(), o) == expected;
    }

    /** The part of `adicionar` after both checks pass: mark the state initial when asked,
        record it, append its node and connect it. */
    method Insert(id: nat, isFinal: bool, isInitial: bool, readTape: string, readStack: string,
                  writeStack: string, targets: seq<nat>)
      modifies this`states, this`nodes, this`initial
      ensures states == old(states)[id := State(isInitial, isFinal,
                          AddTargets(EmptyTable, Encode(readTape, readStack, writeStack), targets))]
      ensures nodes == old(nodes) + [id]
      ensures initial == if isInitial then Some(id) else old(initial)
    {
      ghost var before := states;
      if isInitial {
        initial := Some(id);
      }
      states := states[id := State(isInitial, isFinal, EmptyTable)];
      nodes := nodes + [id];
      Connect(id, readTape, readStack, writeStack, targets);
      UpdateTwice(before, id, State(isInitial, isFinal, EmptyTable),
                  State(isInitial, isFinal, AddTargets(EmptyTable, Encode(readTape, readStack, writeStack), targets)));
    }

    /** `conectarNovoEstado`: the destinations pushed onto the new state's table. */
    method Connect(origin: nat, readTape: string, readStack: string, writeStack: string, targets: seq<nat>)
      requires origin in states
      modifies this`states
      ensures states == old(states)[origin := old(states)[origin].(transitions :=
                AddTargets(old(states)[origin].transitions, Encode(readTape, readStack, writeStack), targets))]
    {
      var t := PushTargets(states[origin].transitions, Encode(readTape, readStack, writeStack), targets);
      states := states[origin := states[origin].(transitions := t)];
    }

    /** `removerEstado` for one checked id: drop its node and its record, prune it from
        every other state's lists, and clear the initial reference if it named it. */
    method RemoveOne(r: nat)
      requires Valid()
      modifies this
      ensures ModelView() == RemoveState(old(ModelView()), r)
      ensures RunState() == old(RunState())
    {
      nodes := Filter(nodes, r);
      states := PruneStates(states - {r}, r);
      if initial == Some(r) {
        initial := None;
      }
    }

    /** `removerEstado`: every checked id in turn. */
    method Remove(ids: seq<nat>)
      requires Valid()
      modifies this
      ensures Valid()
      ensures ModelView() == RemoveStates(old(ModelView()), ids)
      ensures RunState() == old(RunState())
    {
      ghost var start := ModelView();
      var i := 0;
      while i < |ids|
        invariant 0 <= i <= |ids|
        invariant Valid()
        invariant ModelView() == RemoveStates(start, ids[..i])
        invariant RunState() == old(RunState())
      {
        RemoveStateValid(ModelView(), ids[i]);
        RemoveOne(ids[i]);
        RemoveStatesNext(start, ids, i);
        i := i + 1;
      }
      assert ids[..i] == ids;
    }

    /** `limpar`: an empty automaton and no run. */
    method Clear()
      modifies this
      ensures Valid()
      ensures ModelView() == Cleared && RunState() == Idle
    {
      nodes := [];
      nextId := 0;
      states := map[];
      initial := None;
      running := false;
      current := None;
      input := "";
      head := 0;
      stack := [];
    }

    /** `encontrarEstadoInicial`: scan the nodes for the one flagged initial, else take
        the first. */
    method FindInitial() returns (r: Option<nat>)
      ensures r == InitialOf(states, nodes)
    {
      var i := 0;
      while i < |nodes|
        invariant 0 <= i <= |nodes|
        invariant FirstFlagged(states, nodes[i..]) == FirstFlagged(states, nodes)
      {
        var n := nodes[i];
        if n in states && states[n].isInitial {
          return Some(n);
        }
        assert nodes[i..][1..] == nodes[i + 1..];
        i := i + 1;
      }
      if |nodes| > 0 {
        return Some(nodes[0]);
      }
      return None;
    }

    /** `confirmarCadeia(text)`. */
    method Confirm(text: string) returns (o: ConfirmOutcome)
      modifies this
      ensures (ModelView(), RunState(), o) == Start(old(ModelView()), old(RunState()), text)
    {
      if text == "" {
        return EmptyInput;
      }
      if |nodes| == 0 {
        return NoStates;
      }
      initial := FindInitial();
      input := text;
      head := 0;
      stack := [];
      current := initial;
      running := true;
      o := Started;
    }

    /** `inserirNaPilha(w)`: nothing for ε or ?, otherwise push the characters of `w` from
        the last to the first. */
    method Push(w: string)
      modifies this`stack
      ensures stack == Pushed(old(stack), w)
    {
      if w == Epsilon {
        return;
      }
      if w == Wildcard {
        return;
      }
      var i := |w|;
      while i > 0
        invariant 0 <= i <= |w|
        invariant stack == old(stack) + Reverse(w[i..])
      {
        i := i - 1;
        assert w[i..][1..] == w[i + 1..];
        stack := stack + [w[i]];
      }
      assert w[0..] == w;
    }

    /** `proximo`. */
    method Next() returns (o: StepOutcome)
      modifies this
      ensures (RunState(), o) == Step(old(states), old(RunState()))
      ensures ModelView() == old(ModelView())
    {
      if !running {
        return NotRunning;
      }
      if current.None? {
        return NoCurrentState;
      }
      var symbol := TapeSymbol(input, head);
      var top := StackTop(stack);
      var q := current.value;
      if q !in states {
        running := false;
        return UnknownState;
      }
      var cands := CollectCandidates(Parse, states[q].transitions);
      var found := SelectFirst(cands, symbol, top);
      if found.None? {
        running := false;
        return Rejected;
      }
      o := Fire(cands[found.value]);
    }

    /** The second half of `proximo`: carry out the chosen transition on the tape, the
        stack and the current state, then test for acceptance. */
    method Fire(c: Candidate) returns (o: StepOutcome)
      requires running
      modifies this`head, this`stack, this`current, this`running
      ensures (RunState(), o) == Take(states, old(RunState()), c)
    {
      ghost var next := Take(states, RunState(), c).0;
      if Consumes(c.trans.readTape) {
        head := head + 1;
      }
      if Consumes(c.trans.readStack) {
        stack := Pop(stack);
      }
      if Consumes(c.trans.writeStack) {
        Push(c.trans.writeStack);
      }
      current := Some(c.dest);
      assert current == next.current && head == next.head && stack == next.stack;
      if IsFinal(states, c.dest) && head >= |input| {
        running := false;
        return Accepted;
      }
      o := Moved;
    }

    /** `parar`. */
    method Stop()
      modifies this`running
      ensures !running
    {
      if !running {
        return;
      }
      running := false;
    }
  }
}
