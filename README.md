# Pushdown-automaton editor and simulator, modelled in Dafny

`script.js` is a browser page for drawing and running pushdown automata. Its core is
modelled here:

- the automaton the page edits: `automato.estados` (each state's `transicoes` object,
  from a label such as `"a, b -> c"` to a list of destination ids), the diagram's node
  list, the global `estadoInicial` and the id counter `nextNodeId`;
- the edits `adicionar`, `conectarNovoEstado`, `removerEstado` and `limpar`;
- the label grammar: the template that builds a label, and `parsearTransicao`, which
  parses it back using JavaScript's `split` and `trim`;
- the run: `confirmarCadeia`, `proximo`, `inserirNaPilha` and `parar`, over
  `estadoAtual`, `cadeiaEntrada`, `posicaoFita`, `pilha` and `executando`.

The modules are:

- `Labels` (labels.dfy): the label grammar.
  - `split` and `trim` are written as JavaScript defines them. `split` scans left to right. `trim` strips the ECMAScript whitespace and line terminators.
  - The parser and the template are pure functions.
  - Lemmas give the exact condition under which parsing succeeds, and the round trip from fields to label and back.
- `Automaton` (automaton.dfy): the model edits as functions on values.
  - `Table` keeps a `transicoes` object as its keys in insertion order (the order `for..in` visits them) plus the map from key to list.
  - `Model` is the whole automaton.
  - `ModelValid` is the invariant every edit keeps:
    - node ids are distinct and match the records;
    - ids are below the counter;
    - no key is left with an empty list;
    - no destination is dangling;
    - at most one state is initial, and it is the one the global reference names.
- `Engine` (engine.dfy): the run state and one step of the run as functions. It covers the candidate list, first-match selection, the tape and stack updates, acceptance, and the start of a run.
- `Simulator` (simulator.dfy): the script's module-level variables as the fields of a class, `Editor`.
  - Each event handler is a method that updates those fields in place. Its contract ties the new state to the functions above.
  - The loops in the script are methods here, proved against their specification functions:
    - the two nested `for..in` loops of `removerEstado`;
    - the `forEach` pushes of `conectarNovoEstado`;
    - the candidate loops and search loop of `proximo`;
    - the lookup loop of `encontrarEstadoInicial`;
    - the reverse push loop of `inserirNaPilha`.

Page inputs become method parameters: checkbox states, the three transition fields, the
ids whose "connect" or "remove" box is checked, and the tape string. Visible outcomes
become result values (`AddOutcome`, `ConfirmOutcome`, `StepOutcome`): the alerts, and
showing "aceita" or "rejeita".

## Model

| member | source | states |
|---|---|---|
| Labels.Trim | script.js:325-332 | the result is the input with a maximal run of whitespace removed from each end, and it neither starts nor ends with whitespace |
| Labels.TrimPadded | script.js:325-332 | trimming a field padded on either side by whitespace gives back exactly the field |
| Labels.TrimKeepsCommas | script.js:325-329 | trimming never changes how many commas a text holds |
| Labels.Split | script.js:322 | `split` pieces: at least one, joined with the separator they give back the text, and none holds the separator |
| Labels.SplitCount | script.js:322-323 | for a separator that cannot overlap itself, `split` returns one piece more than there are occurrences |
| Labels.SplitTwo | script.js:322-329 | splitting `a + sep + b`, where neither side holds the separator, gives exactly `[a, b]` |
| Labels.Parse | script.js:320-339 | `parsearTransicao`: a returned field is never the literal ε (it is read as `""`); when it succeeds and when it fails is stated by `ParseDefinedIff`, what it returns by `ParseWellFormed` and `EncodeRoundTrip` |
| Labels.Encode | script.js:111-115 | the label template, an empty field written as ε; `EncodeRoundTrip` states that `Parse` inverts it |
| Labels.ParseDefinedIff | script.js:320-339 | `parsearTransicao` returns a transition if and only if the label has exactly one `->` and exactly one `,` before it |
| Labels.ParseWellFormed | script.js:320-339 | every field the parser returns is trimmed and holds no `->`, the read fields hold no `,`, and none is the literal ε |
| Labels.EncodeRoundTrip | script.js:111-115 | parsing a label built by the template from fields with no `->`, no edge whitespace and (for the read fields) no `,` gives those fields back, with empty or ε fields read as `""` and `?` unchanged |
| Labels.ParseEncodeParse | script.js:320-339 | re-encoding a parsed transition with the template and parsing again gives the same transition |
| Automaton.Filter | script.js:170 | the filtered list holds every element other than `r` exactly as often as the original and no `r`, is no longer, and equals the original when nothing was removed |
| Automaton.FilterConcat | script.js:170 | filtering works piece by piece, so the kept destinations stay in their original order |
| Automaton.AddTarget | script.js:134-138 | the list under the label gains the destination at its end, created when the label is new (the label is then appended to the key order); other labels are unchanged |
| Automaton.AddTargets | script.js:120-141 | the list under the label gains the checked destinations at its end in order; other labels are unchanged |
| Automaton.CreateThenPush | script.js:134-138 | creating the empty list for a new label and then pushing builds the same table as one append |
| Automaton.AddTargetsValid | script.js:134-138 | appending destinations keeps a table's keys distinct and its lists non-empty |
| Automaton.Prune | script.js:163-185 | after pruning, every label's list is the old list with `r` filtered out, an empty one counting as absent |
| Automaton.PruneLabels | script.js:165-183 | the keys left are exactly the old keys whose list kept a destination, chosen by `KeepLabels` in their old order |
| Automaton.KeepLabelsConcat | script.js:165-183 | the surviving keys are picked label by label, so they keep their insertion order, which is the order `proximo` tries them in |
| Automaton.PruneTurn | script.js:167-183 | one turn of the key loop; `PruneLoopClosed` and `PrunedAll` state what the turns compute together |
| Automaton.Without | script.js:181 | `delete` of a key from the key order; `WithoutMiddle` and `PrunedLabels` state that the other keys keep their order |
| Automaton.PruneAll | script.js:163-185 | every remaining state's table pruned, with the same ids |
| Automaton.PruneValid | script.js:178-183 | pruning keeps the table consistent: no key left with an empty list, no list mentions `r` |
| Automaton.PruneLoopClosed | script.js:165-184 | after `i` turns of the key loop (filter, store, delete when empty) the table is the first `i` keys pruned and the rest untouched |
| Automaton.PrunedAll | script.js:165-184 | the key loop run to the end prunes the whole table |
| Automaton.PrunedExceptEnds | script.js:163-185 | the state loop starts from the states as they are and ends with every table pruned |
| Automaton.AddState | script.js:49-99 | `adicionar` rejects both flags set, and rejects a second initial state while the reference is set; a successful add gets the counter's id and advances the counter |
| Automaton.AddStateRejects | script.js:57-67 | the both-flags rejection changes only the counter (it stays incremented); the duplicate-initial rejection changes nothing (the counter is restored) |
| Automaton.AddStateAdds | script.js:50-99 | a successful add records one fresh state with the checked flags, whose one label holds exactly the checked destinations in order; its node is appended, the initial reference is set if flagged, and every other state is unchanged |
| Automaton.AddStateValid | script.js:49-99 | adding a state whose destinations exist keeps the automaton consistent |
| Automaton.AtMostOneInitial | script.js:62-67 | in a consistent automaton at most one state is flagged initial |
| Automaton.AddInitialIsUnique | script.js:63-67 | after an initial state is added it is the only one flagged, and every later attempt to add an initial state is refused |
| Automaton.AddStateAsWritten | script.js:49-99 | as written, `adicionar` gives the same outcome but leaves the states map unchanged (no record is ever stored) |
| Automaton.RemoveState | script.js:145-191 | after removal the ids are the old ones without `r`; the node list is the old one without `r`, in order; the initial reference is cleared if it named `r` and kept otherwise; the counter is unchanged |
| Automaton.RemoveStateAsWritten | script.js:187-191 | as written, removal prunes like the corrected one but leaves the initial reference as it was (the undefined page helpers assumed to return, see Left out) |
| Automaton.RemoveStateEffects | script.js:159-185 | after removal the ids are the old ones minus `r`; every list is its old list with `r` filtered out in order; no list mentions `r` and none is empty; flags are unchanged |
| Automaton.RemoveStatesNext | script.js:149-193 | removing one more checked id removes it from what the earlier ones left |
| Automaton.RemoveStateValid | script.js:145-191 | removing a state keeps the automaton consistent: nothing dangling, no empty list, a valid initial reference |
| Automaton.RemoveStates | script.js:147-193 | removing several checked ids, one after another, leaves none of them |
| Automaton.RemoveStatesValid | script.js:147-193 | removing any sequence of ids keeps the automaton consistent |
| Automaton.RemoveInitialAsWritten | script.js:187-191 | as written, removing the initial state leaves the reference naming a missing state, so the next initial state is refused; corrected, it is cleared and the next one is accepted |
| Automaton.ModelValid | script.js:9-15 | the consistency invariant; `ClearedValid`, `AddStateValid`, `RemoveStateValid` and `ConfirmedValid` state that every edit keeps it |
| Automaton.ClearedValid | script.js:248-252 | the empty automaton `limpar` leaves is consistent |
| Automaton.FirstFlagged | script.js:306-311 | the scan returns the first node, in diagram order, flagged initial, or none exists among the nodes |
| Automaton.InitialOf | script.js:304-317 | the lookup returns a node exactly when there are nodes: the first flagged one when one exists, else the first node |
| Automaton.InitialOfFindsFlagged | script.js:304-311 | in a consistent automaton the lookup returns the state flagged initial |
| Automaton.Confirmed | script.js:401-402 | confirming stores the lookup's result as the initial reference and changes nothing else |
| Automaton.ConfirmedValid | script.js:401-402 | storing the lookup's result keeps the automaton consistent |
| Engine.Reverse | script.js:442-444 | the reversed text has the same length, and character `i` is the input's `|w|-1-i` |
| Engine.ReverseReverse | script.js:442-444 | reversing twice gives the text back |
| Engine.Pushed | script.js:428-444 | ε and ? leave the stack unchanged; any other text keeps the old stack below, grows it by its length and ends with its first character on top |
| Engine.PushedReadsBack | script.js:442-444 | reading the pushed part from the top down gives the text back |
| Engine.Pop | script.js:559 | popping removes the top, and an empty stack stays empty |
| Engine.TapeSymbol | script.js:466 | the tape symbol is the input's character under the head, and empty exactly when the head is at or past the end |
| Engine.StackTop | script.js:467 | the stack top is the last element pushed, and empty exactly when the stack is empty |
| Engine.CandidatesOf | script.js:484-495 | the candidate list; `CandidateMembership` states what it holds and `CandidatesConcat` its order |
| Engine.Candidates | script.js:484-495 | the candidate list of a table under `parsearTransicao`; `StepTakesFirst` and `StepRejects` state how a step uses it |
| Engine.Accepts | script.js:503-506 | a tape or stack test passes for `""`, for `?` and for the symbol itself; `StepRejects` and `StepTakesFirst` state its use |
| Engine.Enabled | script.js:503-508 | a candidate whose tape and stack tests both pass; `FirstMatch` returns the first one |
| Engine.IsFinal | script.js:584 | `estadosFinais.includes(d)` as the states whose final box was checked; `TakeEffects` states when it makes a move accept |
| Engine.Take | script.js:549-595 | the effects of the chosen transition; stated by `TakeEffects` |
| Engine.CandidateMembership | script.js:484-495 | a candidate is listed if and only if its label is a key that parses to its transition and its destination is in that key's list |
| Engine.CandidatesConcat | script.js:487-495 | candidates keep label order: those of earlier labels come first |
| Engine.FirstMatch | script.js:497-512 | the selection is an enabled candidate with no enabled one before it, or there is no enabled candidate |
| Engine.Start | script.js:388-413 | an empty string or an empty automaton is refused and nothing changes; otherwise the run starts from the lookup's state, with the head at 0, an empty stack and the running flag set |
| Engine.StartState | script.js:401-413 | a started run keeps the automaton consistent, starts from a state that has a record, and starts from the flagged initial state, or from the first node when none is flagged |
| Engine.Step | script.js:453-596 | a step never changes the input; it reports "not running" or "no current state", changing nothing, exactly when no run is in progress or there is no current state |
| Engine.StepIdle | script.js:455-482 | no run means nothing happens; no current state means nothing happens; a current state without a record stops the run |
| Engine.StepRejects | script.js:541-547 | the run stops and rejects, keeping tape, stack and state, if and only if no candidate is enabled, whether or not the state is final |
| Engine.StepTakesFirst | script.js:497-572 | a move takes the first enabled candidate, in label insertion order and then destination order |
| Engine.TakeEffects | script.js:549-595 | a move advances the head exactly when the tape field reads a symbol; the new stack is the old one, without its top when the stack field reads a symbol (the stack is then non-empty), followed by the written text reversed so that its first character is on top (nothing for ε or ?); the move goes to the destination and accepts, stopping the run, exactly when that state is final and the input is used up |
| Engine.StepKeepsHead | script.js:552-555 | the head moves by at most one and never passes the end of the input |
| Engine.StepStops | script.js:541-595 | a running step stops the run exactly when it accepts, rejects, or finds its state without a record |
| Engine.MissingRecordAsWritten | script.js:49-99 | as written, a run from a freshly added initial state stops at once because the state has no record; with the record stored, the same run looks for a transition and rejects |
| Simulator.PruneTable | script.js:165-184 | the key loop of `removerEstado` computes the pruned table |
| Simulator.PruneKey | script.js:168-183 | one turn of the key loop computes `PruneTurn` |
| Simulator.PushTargets | script.js:120-141 | the push loop of `conectarNovoEstado` computes the table with the destinations appended |
| Simulator.PruneStates | script.js:163-185 | the state loop of `removerEstado` prunes every state's table |
| Simulator.CollectCandidates | script.js:484-495 | the nested loops build exactly the candidate list, in label and destination order |
| Simulator.ExpandLabel | script.js:489-494 | the inner loop for one label gives that label's entries, one per destination in order, or none when it does not parse |
| Simulator.SelectFirst | script.js:497-512 | the search loop returns the first enabled candidate |
| Simulator.Editor.constructor | script.js:2-12 | the script starts with an empty, consistent automaton and no run |
| Simulator.Editor.Add | script.js:49-106 | given checked destinations that are existing states, as the page guarantees, the automaton and outcome are those of `AddState`; the run is untouched |
| Simulator.Editor.Insert | script.js:83-99 | a state is recorded with its flags and its connected table, its node is appended, and the reference is set if it is initial |
| Simulator.Editor.Connect | script.js:109-142 | only the origin's table changes, and it gains the checked destinations under the template label |
| Simulator.Editor.RemoveOne | script.js:150-191 | the automaton becomes `RemoveState` of the old one; the run is untouched |
| Simulator.Editor.Remove | script.js:145-196 | the automaton becomes `RemoveStates` of the old one over the checked ids and stays consistent; the run is untouched |
| Simulator.Editor.Clear | script.js:240-260 | the automaton is emptied, the counter is reset to 0 and the run is idle |
| Simulator.Editor.FindInitial | script.js:304-317 | the lookup loop returns `InitialOf` of the states and nodes |
| Simulator.Editor.Confirm | script.js:388-413 | the automaton, run and outcome are those of `Start` |
| Simulator.Editor.Push | script.js:428-450 | the stack becomes `Pushed` of the old stack |
| Simulator.Editor.Next | script.js:453-596 | the run and outcome are those of `Step`; the automaton is unchanged |
| Simulator.Editor.Fire | script.js:549-595 | the run and outcome after the chosen candidate are those of `Take` |
| Simulator.Editor.Stop | script.js:599-606 | afterwards no run is in progress |

## Left out

- vis.js: the network, the `DataSet`s of nodes and edges, layout and colours. The node list is kept as the sequence of ids in insertion order. Edges are visual only; the transitions live in `transicoes`.
- The DOM: checkboxes, input fields, showing the result, and the visual stack and highlight (`atualizarPilhaVisual`, `atualizarEstadoVisual`, `atualizarInterface`, `removerCheckboxesInterface`). Their values are method parameters and results.
- `alert` and `console.log`: the alerts are the outcome values.
- `setSymbol`: it only writes a symbol into an input field.
- `atualizaNextNodeId` (script.js:195), `limparCamposTransicao` (script.js:105) and `atualizarSelectOrigem` (script.js:223, 236) are called but not defined in `script.js`. The model assumes the page defines them and that they return without touching the automaton or the counter. After a removal the model's counter therefore stays where it was, so every id stays below it. If they were missing, `removerEstado` would throw at line 236, reached from line 157, before pruning; the re-add refused in Findings is refused under either reading.
- The `catch` path of `nodes.add` (script.js:92-96): the ids are always fresh, so the model assumes the add succeeds.
- The initial state is found by its blue node colour (script.js:308). The model uses a flag on the state record instead, set by `adicionar`.
  - The colour scheme breaks the script's own lookup: confirming highlights the initial state (script.js:421), and the highlight (script.js:375-382) replaces its blue. Confirming a second time, with or without steps in between, therefore falls back to the first node.
  - This depends on the rendering and is not modelled.
- `estadosFinais` (script.js:584) is never declared, so as written every move throws at line 584 after updating the run. The model reads it as the states whose final box was checked.
- The state record `{isInitial, isFinal, transicoes}` is created by `adicionar` in the model. The script as written never creates it; see Findings.
- Strings are sequences of characters. JavaScript strings are UTF-16, so a character outside the BMP is two elements in the script's `cadeiaEntrada[posicaoFita]` and one here.
- `parseInt` of the checkbox values: ids arrive as naturals.
- `CollectCandidates` takes the label parser as a parameter, and `Editor.Next` passes `Labels.Parse`. The candidate facts hold for any parser.
- `PruneStates` visits the states in an unspecified order, while `for..in` over `automato.estados` visits integer keys ascending. Each table is pruned on its own, so the result is the same.
- Simulator.Editor.Add: its contract does not restate `Valid()`. It requires every checked destination to be an existing state; the page shows a "connect" box only for a created state (script.js:202-208). Under that requirement `Automaton.AddStateValid` proves that the model it computes is consistent.
- Simulator.Editor.Confirm: its contract does not restate `Valid()`. `Engine.StartState` proves it.
- Simulator.Editor.Next: its contract does not restate `Valid()`. The automaton is unchanged, and `Engine.StepKeepsHead` proves the head bound.
- When no transition matches, the script always rejects (script.js:542-547). The model follows the code: a final state with the input used up does not make a no-match step accept.

## Findings

| source | as written | input that shows it | evidently intended | confidence | as-written member | corrected member |
|---|---|---|---|---|---|---|
| script.js:187-191 | removal clears `automato.estadoInicial`, a property nothing sets, and leaves the global `estadoInicial` (set at line 85) unchanged | add q0 as initial, remove q0, then add another initial state: it is refused with "Já existe estado inicial" | removing the initial state clears the global reference, so a new initial state can be added | not executed | Automaton.RemoveStateAsWritten, Automaton.RemoveInitialAsWritten | Automaton.RemoveState, Automaton.RemoveStateValid |
| script.js:49-99, 134, 477-482 | `adicionar` never stores `automato.estados[id]`: connecting throws at line 134, and every `proximo` stops with "Estado atual não existe" | add q0 as initial, confirm "a", press next: the run stops at once | each added state gets a record `{isInitial, isFinal, transicoes}` that the edits and the run use | not executed | Automaton.AddStateAsWritten, Engine.MissingRecordAsWritten | Automaton.AddState, Automaton.AddStateAdds, Engine.StartState |
