/** File-system calls as data, and the states in which the process may stop between them.

    A call either takes effect or the process stops.  Renaming and removing are single steps;
    while a file is being written the process may stop after any number of its bytes. */
module FileActions {
  import opened StoreNames

  type Files = map<Name, string>

  datatype Action =
    | Move(from: Name, to: Name)
    | Drop(name: Name)
    | Write(name: Name, content: string)

  /** Renaming what is not there fails and changes nothing; removing what is not there succeeds. */
  function Apply(fs: Files, a: Action): Files {
    match a
    case Move(from, to) => if from in fs then (fs - {from})[to := fs[from]] else fs
    case Drop(name) => fs - {name}
    case Write(name, content) => fs[name := content]
  }

  function Run(fs: Files, actions: seq<Action>): Files
    decreases |actions|
  {
    if actions == [] then fs else Run(Apply(fs, actions[0]), actions[1..])
  }

  lemma {:induction false} RunConcat(fs: Files, a: seq<Action>, b: seq<Action>)
    ensures Run(fs, a + b) == Run(Run(fs, a), b)
    decreases |a|
  {
    if a == [] {
      assert a + b == b;
    } else {
      assert (a + b)[0] == a[0] && (a + b)[1..] == a[1..] + b;
      RunConcat(Apply(fs, a[0]), a[1..], b);
    }
  }

  lemma RunOne(fs: Files, a: Action)
    ensures Run(fs, [a]) == Apply(fs, a)
  {
    assert [a][1..] == [];
  }

  lemma RunTwo(fs: Files, a: Action, b: Action)
    ensures Run(fs, [a, b]) == Apply(Apply(fs, a), b)
  {
    assert [a, b] == [a] + [b];
    RunConcat(fs, [a], [b]);
    RunOne(fs, a);
    RunOne(Apply(fs, a), b);
  }

  /** Where the process stops: after `done` actions, or inside the next one when that is a write. */
  datatype Stop = Between(done: nat) | Inside(done: nat, bytes: nat)

  function Interrupted(fs: Files, actions: seq<Action>, stop: Stop): Files
    decreases |actions|
  {
    if actions == [] then fs
    else if stop.done > 0 then
      var next := stop.done - 1;
      Interrupted(Apply(fs, actions[0]), actions[1..],
        if stop.Between? then Between(next) else Inside(next, stop.bytes))
    else if stop.Inside? && actions[0].Write? && stop.bytes <= |actions[0].content| then
      fs[actions[0].name := actions[0].content[..stop.bytes]]
    else fs
  }

  /** Two directories agree on a name. */
  ghost predicate SameAt(s: Files, t: Files, name: Name) {
    (name in s <==> name in t) && (name in s ==> s[name] == t[name])
  }

  // ---------------------------------------------------------------- every stop on the way

  /** The states in `safe` cover every point at which the process may stop while performing
      `actions` from `s`, and the end. */
  ghost predicate Through(safe: iset<Files>, s: Files, actions: seq<Action>)
    decreases |actions|
  {
    s in safe &&
    (actions != [] ==> TornIn(safe, s, actions[0]) && Through(safe, Apply(s, actions[0]), actions[1..]))
  }

  ghost predicate TornIn(safe: iset<Files>, s: Files, a: Action) {
    a.Write? ==> forall k :: 0 <= k <= |a.content| ==> s[a.name := a.content[..k]] in safe
  }

  lemma {:induction false} ThroughConcat(safe: iset<Files>, s: Files, a: seq<Action>, b: seq<Action>)
    requires Through(safe, s, a) && Through(safe, Run(s, a), b)
    ensures Through(safe, s, a + b)
    decreases |a|
  {
    hide TornIn, Apply;
    if a == [] {
      assert a + b == b;
    } else {
      assert (a + b)[0] == a[0] && (a + b)[1..] == a[1..] + b;
      ThroughConcat(safe, Apply(s, a[0]), a[1..], b);
    }
  }

  /** Wherever the process stops, the state is safe. */
  lemma {:induction false} ThroughAtStop(safe: iset<Files>, s: Files, actions: seq<Action>, stop: Stop)
    requires Through(safe, s, actions)
    ensures Interrupted(s, actions, stop) in safe
    decreases |actions|
  {
    hide Apply;
    if actions != [] && stop.done > 0 {
      ThroughAtStop(safe, Apply(s, actions[0]), actions[1..],
        if stop.Between? then Between(stop.done - 1) else Inside(stop.done - 1, stop.bytes));
    }
  }

  lemma {:induction false} ThroughAtEnd(safe: iset<Files>, s: Files, actions: seq<Action>)
    requires Through(safe, s, actions)
    ensures Run(s, actions) in safe
    decreases |actions|
  {
    hide TornIn, Apply;
    if actions != [] {
      ThroughAtEnd(safe, Apply(s, actions[0]), actions[1..]);
    }
  }

  /** A single rename or removal. */
  lemma ThroughOne(safe: iset<Files>, s: Files, a: Action)
    requires !a.Write? && s in safe && Apply(s, a) in safe
    ensures Through(safe, s, [a])
  {
    hide Apply;
    assert [a][1..] == [];
    assert Through(safe, Apply(s, a), []);
  }

  function Later(stop: Stop, n: nat): Stop
    requires n <= stop.done
  {
    if stop.Between? then Between(stop.done - n) else Inside(stop.done - n, stop.bytes)
  }

  lemma {:induction false} StopInFirst(s: Files, a: seq<Action>, b: seq<Action>, stop: Stop)
    requires stop.done < |a|
    ensures Interrupted(s, a + b, stop) == Interrupted(s, a, stop)
    decreases |a|
  {
    assert (a + b)[0] == a[0] && (a + b)[1..] == a[1..] + b;
    if stop.done > 0 {
      StopInFirst(Apply(s, a[0]), a[1..], b, Later(stop, 1));
    }
  }

  lemma {:induction false} StopInSecond(s: Files, a: seq<Action>, b: seq<Action>, stop: Stop)
    requires stop.done >= |a|
    ensures Interrupted(s, a + b, stop) == Interrupted(Run(s, a), b, Later(stop, |a|))
    decreases |a|
  {
    if a == [] {
      assert a + b == b;
    } else {
      assert (a + b)[0] == a[0] && (a + b)[1..] == a[1..] + b;
      StopInSecond(Apply(s, a[0]), a[1..], b, Later(stop, 1));
    }
  }

  lemma LaterDone(stop: Stop, n: nat)
    requires n <= stop.done
    ensures Later(stop, n).done == stop.done - n
  {
  }
}
