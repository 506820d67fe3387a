// The automaton the editor builds: the states map `automato.estados`, each state's
// `transicoes` object, the list of diagram nodes, the initial-state reference and the id
// counter, together with the edits `adicionar`, `conectarNovoEstado`, `removerEstado` and
// `limpar` make to them, stated as functions on values.

module Automaton {
  import opened Labels

  // ---------------------------------------------------------------------------------
  // destination lists and transition tables
  // ---------------------------------------------------------------------------------

  predicate Distinct<T(==)>(s: seq<T>) {
    forall i, j :: 0 <= i < j < |s| ==> s[i] != s[j]
  }

  /** `list.filter(d => d !== r)`: the elements other than `r`, in their order. */
  function Filter(s: seq<nat>, r: nat): (f: seq<nat>)
    ensures |f| <= |s|
    ensures forall x :: x in f <==> x in s && x != r
    ensures |f| == |s| ==> f == s
    ensures multiset(f) == multiset(s)[r := 0]
  {
    if s == [] then []
    else
      assert s == [s[0]] + s[1..];
      (if s[0] == r then [] else [s[0]]) + Filter(s[1..], r)
  }

  /** Filtering works piece by piece, so the kept elements stay in their order. */
  lemma {:induction false} FilterConcat(a: seq<nat>, b: seq<nat>, r: nat)
    ensures Filter(a + b, r) == Filter(a, r) + Filter(b, r)
  {
    if a == [] {
      assert a + b == b;
    } else {
      assert (a + b)[0] == a[0] && (a + b)[1..] == a[1..] + b;
      FilterConcat(a[1..], b, r);
    }
  }

  lemma {:induction false} FilterDistinct(s: seq<nat>, r: nat)
    requires Distinct(s)
    ensures Distinct(Filter(s, r))
  {
    if s != [] {
      FilterDistinct(s[1..], r);
      assert s[0] !in s[1..];
    }
  }

  /** A state's `transicoes` object. Its keys, in the order they were first added (the
      order `for..in` visits them, as a label always holds ", " and so is never an array
      index), and the destination list under each key. */
  datatype Table = Table(labels: seq<string>, targets: map<string, seq<nat>>)

  const EmptyTable := Table([], map[])

  /** The keys are listed once each and no list is empty. */
  predicate TableValid(t: Table) {
    && Distinct(t.labels)
    && (forall l :: l in t.targets ==> l in t.labels)
    && (forall l :: l in t.labels ==> l in t.targets)
    && (forall l :: l in t.targets ==> t.targets[l] != [])
  }

  /** The destinations under `l`, none when the key is absent. */
  function Lookup(t: Table, l: string): seq<nat> {
    if l in t.targets then t.targets[l] else []
  }

  /** `transicoes[l].push(d)`, creating the list first when the key is new. */
  function AddTarget(t: Table, l: string, d: nat): (u: Table)
    ensures Lookup(u, l) == Lookup(t, l) + [d]
    ensures forall k :: k != l ==> Lookup(u, k) == Lookup(t, k)
    ensures u.targets.Keys == t.targets.Keys + {l}
    ensures u.labels == if l in t.targets then t.labels else t.labels + [l]
  {
    if l in t.targets then Table(t.labels, t.targets[l := t.targets[l] + [d]])
    else Table(t.labels + [l], t.targets[l := [d]])
  }

  /** One `push` per checked destination, in the order given. */
  function AddTargets(t: Table, l: string, ds: seq<nat>): (u: Table)
    ensures Lookup(u, l) == Lookup(t, l) + ds
    ensures forall k :: k != l ==> Lookup(u, k) == Lookup(t, k)
    ensures u.targets.Keys == if ds == [] then t.targets.Keys else t.targets.Keys + {l}
    ensures u.labels == if l in t.targets || ds == [] then t.labels else t.labels + [l]
    decreases |ds|
  {
    if ds == [] then t
    else AddTarget(AddTargets(t, l, ds[..|ds| - 1]), l, ds[|ds| - 1])
  }

  /** The two statements of the script, creating the list when the key is new and then
      pushing, build the same table. */
  lemma CreateThenPush(t: Table, l: string, d: nat)
    ensures var c := if l !in t.targets then Table(t.labels + [l], t.targets[l := []]) else t;
            Table(c.labels, c.targets[l := c.targets[l] + [d]]) == AddTarget(t, l, d)
  {
    if l !in t.targets {
      assert [] + [d] == [d];
      MapsEqual(t.targets[l := []][l := [d]], t.targets[l := [d]]);
    }
  }

  lemma AddTargetValid(t: Table, l: string, d: nat)
    requires TableValid(t)
    ensures TableValid(AddTarget(t, l, d))
  {
  }

  lemma {:induction false} AddTargetsValid(t: Table, l: string, ds: seq<nat>)
    requires TableValid(t)
    ensures TableValid(AddTargets(t, l, ds))
    decreases |ds|
  {
    if ds != [] {
      AddTargetsValid(t, l, ds[..|ds| - 1]);
      AddTargetValid(AddTargets(t, l, ds[..|ds| - 1]), l, ds[|ds| - 1]);
    }
  }

  /** A label survives the pruning of `r` when some destination other than `r` is left. */
  predicate Kept(targets: map<string, seq<nat>>, l: string, r: nat) {
    l in targets && Filter(targets[l], r) != []
  }

  /** The surviving labels, in their order. */
  function KeepLabels(labels: seq<string>, targets: map<string, seq<nat>>, r: nat): (k: seq<string>)
    ensures forall l :: l in k <==> l in labels && Kept(targets, l, r)
    ensures |k| <= |labels|
  {
    if labels == [] then []
    else
      var last := labels[|labels| - 1];
      KeepLabels(labels[..|labels| - 1], targets, r) + (if Kept(targets, last, r) then [last] else [])
  }

  /** The surviving labels are chosen label by label, so they stay in their order. */
  lemma {:induction false} KeepLabelsConcat(a: seq<string>, b: seq<string>, targets: map<string, seq<nat>>, r: nat)
    ensures KeepLabels(a + b, targets, r) == KeepLabels(a, targets, r) + KeepLabels(b, targets, r)
    decreases |b|
  {
    if b == [] {
      assert a + b == a;
    } else {
      var init, last := b[..|b| - 1], b[|b| - 1];
      var tail := if Kept(targets, last, r) then [last] else [];
      ConcatInit(a, b);
      KeepLabelsConcat(a, init, targets, r);
      calc {
        KeepLabels(a + b, targets, r);
        KeepLabels(a + init, targets, r) + tail;
        (KeepLabels(a, targets, r) + KeepLabels(init, targets, r)) + tail;
        KeepLabels(a, targets, r) + (KeepLabels(init, targets, r) + tail);
        KeepLabels(a, targets, r) + KeepLabels(b, targets, r);
      }
    }
  }

  /** One more element of a prefix is the element at its end. */
  lemma PrefixMembers<T>(s: seq<T>, i: nat)
    requires i < |s|
    ensures forall x :: x in s[..i + 1] <==> x in s[..i] || x == s[i]
  {
    assert s[..i + 1] == s[..i] + [s[i]];
  }

  /** Dropping the last element of `a + b` drops the last element of `b`. */
  lemma ConcatInit<T>(a: seq<T>, b: seq<T>)
    requires b != []
    ensures (a + b)[..|a + b| - 1] == a + b[..|b| - 1]
    ensures (a + b)[|a + b| - 1] == b[|b| - 1]
  {
  }

  lemma {:induction false} KeepLabelsDistinct(labels: seq<string>, targets: map<string, seq<nat>>, r: nat)
    requires Distinct(labels)
    ensures Distinct(KeepLabels(labels, targets, r))
  {
    if labels != [] {
      var init := labels[..|labels| - 1];
      assert Distinct(init);
      KeepLabelsDistinct(init, targets, r);
      assert labels[|labels| - 1] !in init;
    }
  }

  /** The inner loop of `removerEstado` on one table: every list loses `r` and a key
      whose list becomes empty is deleted. */
  function Prune(t: Table, r: nat): (u: Table)
    ensures forall l :: Lookup(u, l) == Filter(Lookup(t, l), r)
  {
    Table(KeepLabels(t.labels, t.targets, r),
          map l | l in t.targets && Filter(t.targets[l], r) != [] :: Filter(t.targets[l], r))
  }

  /** The keys left after pruning are the old keys whose list kept a destination, in
      their old order (`KeepLabels` picks them label by label, see `KeepLabelsConcat`). */
  lemma PruneLabels(t: Table, r: nat)
    ensures Prune(t, r).labels == KeepLabels(t.labels, t.targets, r)
    ensures forall l :: l in Prune(t, r).labels <==> l in t.labels && Lookup(Prune(t, r), l) != []
  {
  }

  lemma MapsEqual<K, V>(a: map<K, V>, b: map<K, V>)
    requires forall k :: k in a <==> k in b
    requires forall k :: k in a ==> a[k] == b[k]
    ensures a == b
  {
  }

  lemma UpdateTwice<K, V>(m: map<K, V>, k: K, a: V, b: V)
    ensures m[k := a][k := b] == m[k := b]
  {
    MapsEqual(m[k := a][k := b], m[k := b]);
  }

  lemma UpdateSame<K, V>(m: map<K, V>, k: K)
    requires k in m
    ensures m[k := m[k]] == m
  {
  }

  /** The key order once `delete` has removed `l` from an object. */
  function Without(labels: seq<string>, l: string): (w: seq<string>)
    ensures forall x :: x in w <==> x in labels && x != l
    ensures |w| <= |labels|
  {
    if labels == [] then []
    else
      assert labels == [labels[0]] + labels[1..];
      (if labels[0] == l then [] else [labels[0]]) + Without(labels[1..], l)
  }

  lemma {:induction false} WithoutConcat(a: seq<string>, b: seq<string>, l: string)
    ensures Without(a + b, l) == Without(a, l) + Without(b, l)
  {
    if a == [] {
      assert a + b == b;
    } else {
      assert (a + b)[0] == a[0];
      assert (a + b)[1..] == a[1..] + b;
      WithoutConcat(a[1..], b, l);
    }
  }

  lemma {:induction false} WithoutAbsent(a: seq<string>, l: string)
    requires l !in a
    ensures Without(a, l) == a
  {
    if a != [] {
      WithoutAbsent(a[1..], l);
    }
  }

  /** The table after the pruning loop has visited the first `i` labels: the visited
      labels that kept something, then the unvisited ones; the visited lists filtered and
      the emptied ones deleted. */
  function PartlyPruned(t: Table, r: nat, i: nat): Table
    requires i <= |t.labels|
  {
    Table(KeepLabels(t.labels[..i], t.targets, r) + t.labels[i..], PartlyPrunedTargets(t, r, i))
  }

  function PartlyPrunedTargets(t: Table, r: nat, i: nat): map<string, seq<nat>>
    requires i <= |t.labels|
  {
    var done := t.labels[..i];
    map l | l in t.targets && (l in done ==> Kept(t.targets, l, r)) ::
      if l in done then Filter(t.targets[l], r) else t.targets[l]
  }

  /** Before a turn of the pruning loop, the next label still holds its original list. */
  lemma PrunedBefore(t: Table, r: nat, i: nat)
    requires TableValid(t) && i < |t.labels|
    ensures var l, u := t.labels[i], PartlyPruned(t, r, i);
            l in u.targets && u.targets[l] == t.targets[l]
  {
    assert t.labels[i] !in t.labels[..i];
  }

  lemma WithoutMiddle(a: seq<string>, l: string, b: seq<string>)
    requires l !in a && l !in b
    ensures Without(a + ([l] + b), l) == a + b
  {
    WithoutConcat([l], b, l);
    WithoutAbsent(b, l);
    assert Without([l], l) == [] by {
      assert [l][1..] == [];
    }
    assert Without([l] + b, l) == b;
    WithoutConcat(a, [l] + b, l);
    WithoutAbsent(a, l);
  }

  /** The labels part of a turn: deleting the visited label leaves the kept ones followed
      by those not yet visited. */
  lemma PrunedLabels(t: Table, r: nat, i: nat)
    requires Distinct(t.labels) && i < |t.labels|
    ensures var l, done := t.labels[i], t.labels[..i];
            Without(KeepLabels(done, t.targets, r) + t.labels[i..], l)
            == KeepLabels(done, t.targets, r) + t.labels[i + 1..]
  {
    var l, rest := t.labels[i], t.labels[i + 1..];
    assert t.labels[i..] == [l] + rest;
    assert l !in t.labels[..i];
    assert l !in rest by {
      forall j | 0 <= j < |rest| ensures rest[j] != l {
        assert rest[j] == t.labels[i + 1 + j];
      }
    }
    WithoutMiddle(KeepLabels(t.labels[..i], t.targets, r), l, rest);
  }

  /** The targets part of a turn: the visited label's list is filtered, or its key
      deleted when nothing is left. */
  lemma PrunedStepTargets(t: Table, r: nat, i: nat)
    requires Distinct(t.labels) && i < |t.labels| && t.labels[i] in t.targets
    ensures var l, u := t.labels[i], PartlyPrunedTargets(t, r, i);
            var filtered := Filter(t.targets[l], r);
            PartlyPrunedTargets(t, r, i + 1)
            == if filtered == [] then u - {l} else u[l := filtered]
  {
    var l, done := t.labels[i], t.labels[..i];
    var u := PartlyPrunedTargets(t, r, i);
    var w := PartlyPrunedTargets(t, r, i + 1);
    var filtered := Filter(t.targets[l], r);
    assert l !in done;
    PrefixMembers(t.labels, i);
    var v := if filtered == [] then u - {l} else u[l := filtered];
    forall k ensures k in w <==> k in v {
    }
    forall k | k in w ensures w[k] == v[k] {
      if k != l {
        assert k in t.labels[..i + 1] <==> k in done;
      }
    }
    MapsEqual(w, v);
  }

  /** Visiting one more label appends it when it survives. */
  lemma KeepLabelsNext(labels: seq<string>, targets: map<string, seq<nat>>, r: nat, i: nat)
    requires i < |labels|
    ensures KeepLabels(labels[..i + 1], targets, r)
            == KeepLabels(labels[..i], targets, r) + (if Kept(targets, labels[i], r) then [labels[i]] else [])
  {
    var now := labels[..i + 1];
    assert now[..|now| - 1] == labels[..i] && now[|now| - 1] == labels[i];
  }

  /** The labels part of a turn: the visited label stays when its list kept something. */
  lemma PrunedStepLabels(t: Table, r: nat, i: nat)
    requires Distinct(t.labels) && i < |t.labels|
    ensures var l, done := t.labels[i], t.labels[..i];
            var u := KeepLabels(done, t.targets, r) + t.labels[i..];
            KeepLabels(t.labels[..i + 1], t.targets, r) + t.labels[i + 1..]
            == if Kept(t.targets, l, r) then u else Without(u, l)
  {
    PrunedLabels(t, r, i);
    var l, done := t.labels[i], t.labels[..i];
    var kept := KeepLabels(done, t.targets, r);
    KeepLabelsNext(t.labels, t.targets, r, i);
    if Kept(t.targets, l, r) {
      assert t.labels[i..] == [l] + t.labels[i + 1..];
      assert (kept + [l]) + t.labels[i + 1..] == kept + t.labels[i..];
    } else {
      assert kept + [] == kept;
    }
  }

  /** A turn of the pruning loop: the label's filtered list is stored, and the label is
      deleted when that list is empty. */
  lemma PrunedStep(t: Table, r: nat, i: nat)
    requires TableValid(t) && i < |t.labels|
    ensures var l, u := t.labels[i], PartlyPruned(t, r, i);
            var filtered := Filter(t.targets[l], r);
            PartlyPruned(t, r, i + 1)
            == if filtered == [] then Table(Without(u.labels, l), u.targets - {l})
               else Table(u.labels, u.targets[l := filtered])
  {
    PrunedStepTargets(t, r, i);
    PrunedStepLabels(t, r, i);
  }

  /** One turn of the pruning loop on label `l`: store its filtered list, or delete the
      key when nothing is left. */
  function PruneTurn(u: Table, l: string, r: nat): Table {
    if l !in u.targets then u
    else
      var filtered := Filter(u.targets[l], r);
      if filtered == [] then Table(Without(u.labels, l), u.targets - {l})
      else Table(u.labels, u.targets[l := filtered])
  }

  /** The table after `i` turns of the pruning loop. */
  function PruneLoop(t: Table, r: nat, i: nat): Table
    requires i <= |t.labels|
  {
    if i == 0 then t else PruneTurn(PruneLoop(t, r, i - 1), t.labels[i - 1], r)
  }

  /** Before the first turn nothing is pruned. */
  lemma PrunedNone(t: Table, r: nat)
    ensures PartlyPruned(t, r, 0) == t
  {
    assert t.labels[..0] == [];
    var p := PartlyPruned(t, r, 0);
    forall k ensures k in p.targets <==> k in t.targets {
    }
    MapsEqual(p.targets, t.targets);
  }

  lemma {:induction false} PruneLoopClosed(t: Table, r: nat, i: nat)
    requires TableValid(t) && i <= |t.labels|
    ensures PruneLoop(t, r, i) == PartlyPruned(t, r, i)
  {
    if i == 0 {
      PrunedNone(t, r);
    } else {
      var l, u := t.labels[i - 1], PartlyPruned(t, r, i - 1);
      PruneLoopClosed(t, r, i - 1);
      assert PruneLoop(t, r, i) == PruneTurn(u, l, r);
      PrunedBefore(t, r, i - 1);
      assert l in u.targets && u.targets[l] == t.targets[l];
      PrunedStep(t, r, i - 1);
    }
  }

  /** Before each turn the label to visit still holds its original list. */
  lemma PruneLoopBefore(t: Table, r: nat, i: nat)
    requires TableValid(t) && i < |t.labels|
    ensures var l := t.labels[i];
            l in PruneLoop(t, r, i).targets && PruneLoop(t, r, i).targets[l] == t.targets[l]
  {
    PruneLoopClosed(t, r, i);
    PrunedBefore(t, r, i);
  }

  lemma PrunedAll(t: Table, r: nat)
    requires TableValid(t)
    ensures PruneLoop(t, r, |t.labels|) == Prune(t, r)
  {
    PruneLoopClosed(t, r, |t.labels|);
    assert t.labels[..|t.labels|] == t.labels;
    var p := PartlyPruned(t, r, |t.labels|);
    var q := Prune(t, r);
    forall k ensures k in p.targets <==> k in q.targets {
    }
    MapsEqual(p.targets, q.targets);
  }

  lemma PruneValid(t: Table, r: nat)
    requires TableValid(t)
    ensures TableValid(Prune(t, r))
    ensures forall l :: l in Prune(t, r).targets ==> r !in Prune(t, r).targets[l]
  {
    KeepLabelsDistinct(t.labels, t.targets, r);
  }

  // ---------------------------------------------------------------------------------
  // states and the automaton
  // ---------------------------------------------------------------------------------

  /** The record `adicionar` keeps for a state: its two checkbox flags and its table. */
  datatype State = State(isInitial: bool, isFinal: bool, transitions: Table)

  /** `automato.estados`, the node ids of the diagram in insertion order, the global
      `estadoInicial` and `nextNodeId`. */
  datatype Model = Model(states: map<nat, State>, nodes: seq<nat>, initial: Option<nat>, nextId: nat)

  /** The model `limpar` leaves behind. */
  const Cleared := Model(map[], [], None, 0)

  /** Every destination under every key is a state of `states`. */
  predicate TargetsIn(t: Table, states: map<nat, State>) {
    forall l, d :: l in t.targets && d in t.targets[l] ==> d in states
  }

  predicate ModelValid(m: Model) {
    && Distinct(m.nodes)
    && (forall n :: n in m.nodes ==> n in m.states)
    && (forall n :: n in m.states ==> n in m.nodes)
    && (forall n :: n in m.states ==> n < m.nextId)
    && (forall n {:trigger m.states[n]} :: n in m.states ==> TableValid(m.states[n].transitions))
    && (forall n {:trigger m.states[n]} :: n in m.states ==> TargetsIn(m.states[n].transitions, m.states))
    && (forall n :: n in m.states ==> !(m.states[n].isInitial && m.states[n].isFinal))
    && (forall n :: n in m.states && m.states[n].isInitial ==> m.initial == Some(n))
    && (m.initial.Some? ==> m.initial.value in m.states)
  }

  lemma ClearedValid()
    ensures ModelValid(Cleared)
  {
  }

  /** Only one state is ever flagged initial. */
  lemma AtMostOneInitial(m: Model, a: nat, b: nat)
    requires ModelValid(m)
    requires a in m.states && m.states[a].isInitial
    requires b in m.states && m.states[b].isInitial
    ensures a == b
  {
  }

  // ---------------------------------------------------------------------------------
  // adding a state
  // ---------------------------------------------------------------------------------

  datatype AddOutcome = BothFlags | DuplicateInitial | Added(id: nat)

  /** `adicionar`: the checkbox flags, the three transition fields and the ids whose
      "connect" box is checked. The new state gets the id the counter holds and an edge
      to each checked destination under the label the template builds. */
  function AddState(m: Model, isFinal: bool, isInitial: bool, readTape: string, readStack: string,
                    writeStack: string, targets: seq<nat>): (r: (Model, AddOutcome))
    ensures r.1 == BothFlags <==> isInitial && isFinal
    ensures r.1 == DuplicateInitial <==> isInitial && !isFinal && m.initial.Some?
    ensures r.1.Added? ==> r.1.id == m.nextId && r.0.nextId == m.nextId + 1
  {
    var id := m.nextId;
    if isInitial && isFinal then (m.(nextId := id + 1), BothFlags)
    else if isInitial && m.initial.Some? then (m, DuplicateInitial)
    else
      var text := Encode(readTape, readStack, writeStack);
      var s := State(isInitial, isFinal, AddTargets(EmptyTable, text, targets));
      (Model(m.states[id := s], m.nodes + [id], if isInitial then Some(id) else m.initial, id + 1),
       Added(id))
  }

  /** `adicionar` as written: it appends the node, sets the initial reference and spends
      the id, but never stores a record under `automato.estados[id]`, so the states map is
      left as it was (with a destination checked, the first access to the missing record
      throws after those effects). */
  function AddStateAsWritten(m: Model, isFinal: bool, isInitial: bool, readTape: string, readStack: string,
                             writeStack: string, targets: seq<nat>): (r: (Model, AddOutcome))
    ensures r.0.states == m.states
    ensures r.1 == AddState(m, isFinal, isInitial, readTape, readStack, writeStack, targets).1
  {
    var id := m.nextId;
    if isInitial && isFinal then (m.(nextId := id + 1), BothFlags)
    else if isInitial && m.initial.Some? then (m, DuplicateInitial)
    else (Model(m.states, m.nodes + [id], if isInitial then Some(id) else m.initial, id + 1), Added(id))
  }

  /** Both rejections leave the automaton as it was; only the both-flags one spends an
      id, since it returns before the counter is decremented. */
  lemma AddStateRejects(m: Model, isFinal: bool, isInitial: bool, f: string, p: string, e: string,
                        targets: seq<nat>)
    ensures var (m', o) := AddState(m, isFinal, isInitial, f, p, e, targets);
            o == BothFlags ==> m' == m.(nextId := m.nextId + 1)
    ensures var (m', o) := AddState(m, isFinal, isInitial, f, p, e, targets);
            o == DuplicateInitial ==> m' == m
  {
  }

  /** A successful add appends one fresh state whose table holds exactly the checked
      destinations, in order, under the template label; the rest is unchanged. */
  lemma AddStateAdds(m: Model, isFinal: bool, isInitial: bool, f: string, p: string, e: string,
                     targets: seq<nat>)
    requires ModelValid(m)
    ensures var (m', o) := AddState(m, isFinal, isInitial, f, p, e, targets);
            o.Added? ==>
              && o.id !in m.states
              && m'.states.Keys == m.states.Keys + {o.id}
              && (forall n :: n in m.states ==> m'.states[n] == m.states[n])
              && m'.nodes == m.nodes + [o.id]
              && m'.states[o.id].isInitial == isInitial && m'.states[o.id].isFinal == isFinal
              && Lookup(m'.states[o.id].transitions, Encode(f, p, e)) == targets
              && (forall l :: l != Encode(f, p, e) ==> Lookup(m'.states[o.id].transitions, l) == [])
              && m'.initial == (if isInitial then Some(o.id) else m.initial)
  {
  }

  /** Inserting a fresh, consistent state under the counter's id keeps the automaton
      consistent. */
  lemma InsertValid(m: Model, s: State)
    requires ModelValid(m)
    requires TableValid(s.transitions) && TargetsIn(s.transitions, m.states)
    requires !(s.isInitial && s.isFinal) && (s.isInitial ==> m.initial.None?)
    ensures ModelValid(Model(m.states[m.nextId := s], m.nodes + [m.nextId],
                             if s.isInitial then Some(m.nextId) else m.initial, m.nextId + 1))
  {
    var id := m.nextId;
    var states := m.states[id := s];
    assert id !in m.nodes;
    forall n | n in states ensures TargetsIn(states[n].transitions, states) {
      if n != id {
        assert TargetsIn(m.states[n].transitions, m.states);
      }
    }
  }

  lemma AddStateValid(m: Model, isFinal: bool, isInitial: bool, f: string, p: string, e: string,
                      targets: seq<nat>)
    requires ModelValid(m)
    requires forall d :: d in targets ==> d in m.states
    ensures ModelValid(AddState(m, isFinal, isInitial, f, p, e, targets).0)
  {
    if !(isInitial && isFinal) && !(isInitial && m.initial.Some?) {
      var text := Encode(f, p, e);
      var t := AddTargets(EmptyTable, text, targets);
      AddTargetsValid(EmptyTable, text, targets);
      assert TargetsIn(t, m.states) by {
        forall l, d | l in t.targets && d in t.targets[l] ensures d in m.states {
          assert Lookup(t, l) == t.targets[l];
        }
      }
      InsertValid(m, State(isInitial, isFinal, t));
    }
  }

  /** Once an initial state is added it is the only one flagged, and the next attempt to
      add another initial state is refused. */
  lemma AddInitialIsUnique(m: Model, f: string, p: string, e: string, targets: seq<nat>)
    requires ModelValid(m)
    requires forall d :: d in targets ==> d in m.states
    ensures var (m', o) := AddState(m, false, true, f, p, e, targets);
            o.Added? ==>
              && m'.initial == Some(o.id)
              && (forall n :: n in m'.states && m'.states[n].isInitial ==> n == o.id)
    ensures var (m', o) := AddState(m, false, true, f, p, e, targets);
            forall f2, p2, e2, ts :: AddState(m', false, true, f2, p2, e2, ts).1 == DuplicateInitial
  {
    AddStateValid(m, false, true, f, p, e, targets);
    var (m', o) := AddState(m, false, true, f, p, e, targets);
    if o.Added? {
      forall n | n in m'.states && m'.states[n].isInitial ensures n == o.id {
        AtMostOneInitial(m', n, o.id);
      }
    }
  }

  // ---------------------------------------------------------------------------------
  // removing a state
  // ---------------------------------------------------------------------------------

  /** The outer loop of `removerEstado`: every remaining state's table pruned of `r`. */
  function PruneAll(states: map<nat, State>, r: nat): (s: map<nat, State>)
    ensures s.Keys == states.Keys
  {
    map n | n in states :: states[n].(transitions := Prune(states[n].transitions, r))
  }

  /** The outer loop of `removerEstado` part way: the states outside `todo` pruned. */
  function PrunedExcept(states: map<nat, State>, todo: set<nat>, r: nat): map<nat, State> {
    map n | n in states :: if n in todo then states[n] else states[n].(transitions := Prune(states[n].transitions, r))
  }

  /** A turn of that loop prunes one more state. */
  lemma PrunedExceptStep(states: map<nat, State>, todo: set<nat>, n: nat, r: nat)
    requires n in todo && n in states
    ensures var u := PrunedExcept(states, todo, r);
            PrunedExcept(states, todo - {n}, r) == u[n := u[n].(transitions := Prune(u[n].transitions, r))]
  {
    var u := PrunedExcept(states, todo, r);
    MapsEqual(PrunedExcept(states, todo - {n}, r), u[n := u[n].(transitions := Prune(u[n].transitions, r))]);
  }

  /** The loop starts from the states as they are and ends with all of them pruned. */
  lemma PrunedExceptEnds(states: map<nat, State>, r: nat)
    ensures PrunedExcept(states, states.Keys, r) == states
    ensures PrunedExcept(states, {}, r) == PruneAll(states, r)
  {
    MapsEqual(PrunedExcept(states, states.Keys, r), states);
    MapsEqual(PrunedExcept(states, {}, r), PruneAll(states, r));
  }

  /** `removerEstado` for one id, with the initial-state check reading the reference
      `adicionar` actually sets. */
  function RemoveState(m: Model, r: nat): (m': Model)
    ensures r !in m'.states && r !in m'.nodes
    ensures m'.states.Keys == m.states.Keys - {r}
    ensures m'.nodes == Filter(m.nodes, r)
    ensures m'.initial != Some(r)
    ensures m.initial != Some(r) ==> m'.initial == m.initial
    ensures m'.nextId == m.nextId
  {
    Model(PruneAll(m.states - {r}, r), Filter(m.nodes, r),
          if m.initial == Some(r) then None else m.initial, m.nextId)
  }

  /** `removerEstado` as written: it clears `automato.estadoInicial`, a property nothing
      ever sets, so the global reference is left as it was. */
  function RemoveStateAsWritten(m: Model, r: nat): (m': Model)
    ensures m'.states == RemoveState(m, r).states && m'.nodes == RemoveState(m, r).nodes
    ensures m'.initial == m.initial && m'.nextId == m.nextId
  {
    Model(PruneAll(m.states - {r}, r), Filter(m.nodes, r), m.initial, m.nextId)
  }

  /** After removing `r`: it is gone, no destination list mentions it, no key is left with
      an empty list, every other list keeps its other destinations in order, and the flags
      of the remaining states are untouched. */
  lemma RemoveStateEffects(m: Model, r: nat)
    requires ModelValid(m)
    ensures var m' := RemoveState(m, r);
            && m'.states.Keys == m.states.Keys - {r}
            && (forall n, l :: n in m'.states ==>
                  Lookup(m'.states[n].transitions, l) == Filter(Lookup(m.states[n].transitions, l), r))
            && (forall n, l :: n in m'.states && l in m'.states[n].transitions.targets ==>
                  r !in m'.states[n].transitions.targets[l] && m'.states[n].transitions.targets[l] != [])
            && (forall n :: n in m'.states ==>
                  m'.states[n].isInitial == m.states[n].isInitial && m'.states[n].isFinal == m.states[n].isFinal)
  {
    var states := RemoveState(m, r).states;
    forall n | n in states
      ensures forall l :: Lookup(states[n].transitions, l) == Filter(Lookup(m.states[n].transitions, l), r)
      ensures forall l :: l in states[n].transitions.targets ==>
                r !in states[n].transitions.targets[l] && states[n].transitions.targets[l] != []
      ensures states[n].isInitial == m.states[n].isInitial && states[n].isFinal == m.states[n].isFinal
    {
      assert states[n] == m.states[n].(transitions := Prune(m.states[n].transitions, r));
      RemovedTableValid(m, r, n);
    }
  }

  /** Each remaining table stays valid and points only at remaining states. */
  lemma RemovedTableValid(m: Model, r: nat, n: nat)
    requires ModelValid(m) && n in m.states && n != r
    ensures var u := PruneAll(m.states - {r}, r)[n].transitions;
            && TableValid(u) && TargetsIn(u, PruneAll(m.states - {r}, r))
            && forall l :: l in u.targets ==> r !in u.targets[l]
  {
    var states := PruneAll(m.states - {r}, r);
    var t := m.states[n].transitions;
    var u := states[n].transitions;
    assert u == Prune(t, r);
    PruneValid(t, r);
    assert TargetsIn(t, m.states);
    assert states.Keys == m.states.Keys - {r};
    PruneTargetsIn(t, r, m.states.Keys, states.Keys);
  }

  /** Pruning `r` leaves only destinations that were there before and are not `r`. */
  lemma PruneTargetsIn(t: Table, r: nat, before: set<nat>, after: set<nat>)
    requires forall l, d :: l in t.targets && d in t.targets[l] ==> d in before
    requires before - {r} <= after
    ensures forall l, d :: l in Prune(t, r).targets && d in Prune(t, r).targets[l] ==> d in after
  {
    var u := Prune(t, r);
    forall l, d | l in u.targets && d in u.targets[l] ensures d in after {
      assert Lookup(u, l) == Filter(Lookup(t, l), r);
      assert d in Lookup(t, l) && d != r;
    }
  }

  lemma RemoveStateValid(m: Model, r: nat)
    requires ModelValid(m)
    ensures ModelValid(RemoveState(m, r))
  {
    var m' := RemoveState(m, r);
    FilterDistinct(m.nodes, r);
    forall n | n in m'.states
      ensures TableValid(m'.states[n].transitions) && TargetsIn(m'.states[n].transitions, m'.states)
    {
      RemovedTableValid(m, r, n);
    }
  }

  /** Removing a list of ids, one after another as the checkboxes are visited. */
  function RemoveStates(m: Model, ids: seq<nat>): (m': Model)
    ensures forall r :: r in ids ==> r !in m'.states
    decreases |ids|
  {
    if ids == [] then m
    else RemoveState(RemoveStates(m, ids[..|ids| - 1]), ids[|ids| - 1])
  }

  /** Removing one more checked id. */
  lemma RemoveStatesNext(m: Model, ids: seq<nat>, i: nat)
    requires i < |ids|
    ensures RemoveStates(m, ids[..i + 1]) == RemoveState(RemoveStates(m, ids[..i]), ids[i])
  {
    assert ids[..i + 1][..i] == ids[..i];
  }

  lemma {:induction false} RemoveStatesValid(m: Model, ids: seq<nat>)
    requires ModelValid(m)
    ensures ModelValid(RemoveStates(m, ids))
    decreases |ids|
  {
    if ids != [] {
      RemoveStatesValid(m, ids[..|ids| - 1]);
      RemoveStateValid(RemoveStates(m, ids[..|ids| - 1]), ids[|ids| - 1]);
    }
  }

  /** As written, removing the initial state leaves the reference pointing at a state that
      no longer exists, and every later attempt to add an initial state is refused; the
      corrected removal clears it and the next initial state is accepted. */
  lemma RemoveInitialAsWritten()
    ensures var m := AddState(Cleared, false, true, "a", "", "", []).0;
            var w := RemoveStateAsWritten(m, 0);
            && w.initial == Some(0) && 0 !in w.states
            && !ModelValid(w)
            && AddState(w, false, true, "", "", "", []).1 == DuplicateInitial
    ensures var m := AddState(Cleared, false, true, "a", "", "", []).0;
            var c := RemoveState(m, 0);
            && c.initial == None && ModelValid(c)
            && AddState(c, false, true, "", "", "", []).1 == Added(1)
  {
    var m := AddState(Cleared, false, true, "a", "", "", []).0;
    ClearedValid();
    AddStateValid(Cleared, false, true, "a", "", "", []);
    RemoveStateValid(m, 0);
  }

  // ---------------------------------------------------------------------------------
  // the initial state a run starts from
  // ---------------------------------------------------------------------------------

  predicate Flagged(states: map<nat, State>, n: nat) {
    n in states && states[n].isInitial
  }

  /** `nodes[i]` is flagged initial and no node before it is. */
  predicate FirstFlaggedAt(states: map<nat, State>, nodes: seq<nat>, i: nat) {
    i < |nodes| && Flagged(states, nodes[i]) && forall j :: 0 <= j < i ==> !Flagged(states, nodes[j])
  }

  /** The first node, in diagram order, that is flagged initial. */
  function FirstFlagged(states: map<nat, State>, nodes: seq<nat>): (r: Option<nat>)
    ensures r.Some? ==> exists i: nat :: FirstFlaggedAt(states, nodes, i) && nodes[i] == r.value
    ensures r.Some? ==> r.value in nodes && Flagged(states, r.value)
    ensures r.None? ==> forall n :: n in nodes ==> !Flagged(states, n)
  {
    if nodes == [] then None
    else if Flagged(states, nodes[0]) then
      assert FirstFlaggedAt(states, nodes, 0);
      Some(nodes[0])
    else
      var r := FirstFlagged(states, nodes[1..]);
      if r.Some? then
        var i: nat :| FirstFlaggedAt(states, nodes[1..], i) && nodes[1..][i] == r.value;
        assert FirstFlaggedAt(states, nodes, i + 1);
        r
      else r
  }

  /** `encontrarEstadoInicial`: the flagged node, else the first node, else none. */
  function InitialOf(states: map<nat, State>, nodes: seq<nat>): (r: Option<nat>)
    ensures r.Some? <==> nodes != []
    ensures r.Some? ==> r.value in nodes
    ensures (exists n :: n in nodes && Flagged(states, n)) ==>
              r.Some? && exists i: nat :: FirstFlaggedAt(states, nodes, i) && nodes[i] == r.value
    ensures (forall n :: n in nodes ==> !Flagged(states, n)) && nodes != [] ==> r == Some(nodes[0])
  {
    match FirstFlagged(states, nodes)
    case Some(n) => Some(n)
    case None => if nodes != [] then Some(nodes[0]) else None
  }

  /** In a consistent automaton the lookup finds the state `adicionar` flagged. */
  lemma InitialOfFindsFlagged(m: Model, s: nat)
    requires ModelValid(m) && Flagged(m.states, s)
    ensures InitialOf(m.states, m.nodes) == Some(s)
  {
    var r := InitialOf(m.states, m.nodes);
    AtMostOneInitial(m, s, r.value);
  }

  /** `confirmarCadeia` stores what the lookup found as the global initial reference. */
  function Confirmed(m: Model): (m': Model)
    ensures m'.states == m.states && m'.nodes == m.nodes && m'.nextId == m.nextId
    ensures m.nodes != [] ==> m'.initial.Some? && m'.initial.value in m.nodes
    ensures m'.initial == InitialOf(m.states, m.nodes)
  {
    m.(initial := InitialOf(m.states, m.nodes))
  }

  lemma ConfirmedValid(m: Model)
    requires ModelValid(m)
    ensures ModelValid(Confirmed(m))
  {
    var m' := Confirmed(m);
    forall n | n in m.states && m.states[n].isInitial ensures m'.initial == Some(n) {
      InitialOfFindsFlagged(m, n);
    }
  }
}
