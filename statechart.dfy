/** The transition-selection rules of the statechart library the three machines
    are written for. A machine's `on` entry for an event is a list of candidates
    `{cond, target, actions}`; a bare string is a candidate with only a target,
    and a single object is a one-element list. Guards are evaluated by each
    machine before selection, so a candidate carries its guard's verdict. */
module Statechart {
  import opened Common

  datatype Candidate<S, A> = Candidate(cond: bool, target: Option<S>, actions: seq<A>)

  /** The transition a machine takes: no target means the state value is kept. */
  datatype Transition<S, A> = Transition(target: Option<S>, actions: seq<A>)

  /** The guard verdicts of a candidate list, in order. */
  function Conds<S, A>(cands: seq<Candidate<S, A>>): (cs: seq<bool>)
    ensures |cs| == |cands| && forall i :: 0 <= i < |cands| ==> cs[i] == cands[i].cond
  {
    seq(|cands|, i requires 0 <= i < |cands| => cands[i].cond)
  }

  /** Candidates are tried top to bottom and the first whose guard holds wins. */
  function FirstEnabled<S, A>(cands: seq<Candidate<S, A>>): (r: Option<nat>)
    ensures r.None? <==> forall i :: 0 <= i < |cands| ==> !cands[i].cond
    ensures r.Some? ==> r.value < |cands| && cands[r.value].cond
    ensures r.Some? ==> forall j :: 0 <= j < r.value ==> !cands[j].cond
  {
    FirstIndex(Conds(cands), true)
  }

  function Pick<S, A>(cands: seq<Candidate<S, A>>): Option<Transition<S, A>> {
    match FirstEnabled(cands)
    case None => None
    case Some(i) => Some(Transition(cands[i].target, cands[i].actions))
  }

  /** An event is looked up in the current state's `on` first and, when no
      candidate there is enabled, in the machine-level `on`. `None` means the
      event is unhandled. This is first-match-wins across the two levels: the
      same as picking from the state-level list followed by the machine-level
      one. In particular, with `[{cond: G, A1}, {A2}]` only A1 runs when G holds
      and only A2 when it does not. */
  function Resolve<S, A>(stateOn: seq<Candidate<S, A>>, machineOn: seq<Candidate<S, A>>)
    : (r: Option<Transition<S, A>>)
    ensures r == Pick(stateOn + machineOn)
  {
    PickConcat(stateOn, machineOn);
    match Pick(stateOn)
    case Some(t) => Some(t)
    case None => Pick(machineOn)
  }

  /** The state value after a (possibly absent) transition. */
  function NextValue<S, A>(current: S, t: Option<Transition<S, A>>): S {
    match t
    case None => current
    case Some(tr) => match tr.target
      case None => current
      case Some(s) => s
  }

  /** The actions a (possibly absent) transition runs. */
  function ActionsOf<S, A>(t: Option<Transition<S, A>>): seq<A> {
    match t
    case None => []
    case Some(tr) => tr.actions
  }

  /** Any enabled candidate with no enabled candidate before it is the one picked. */
  lemma FirstEnabledUnique<S, A>(cands: seq<Candidate<S, A>>, k: nat)
    requires k < |cands| && cands[k].cond
    requires forall j :: 0 <= j < k ==> !cands[j].cond
    ensures FirstEnabled(cands) == Some(k)
  {
  }

  /** Picking from two lists joined: the first list decides whenever one of its
      candidates is enabled, and otherwise the second list decides alone. */
  lemma {:induction false} PickConcat<S, A>(first: seq<Candidate<S, A>>, second: seq<Candidate<S, A>>)
    ensures Pick(first).Some? ==> Pick(first + second) == Pick(first)
    ensures Pick(first).None? ==> Pick(first + second) == Pick(second)
  {
    var all := first + second;
    match FirstEnabled(first)
    case Some(k) =>
      FirstEnabledUnique(all, k);
    case None =>
      match FirstEnabled(second)
      case Some(k) =>
        FirstEnabledUnique(all, |first| + k);
      case None =>
        assert forall i :: 0 <= i < |all| ==> !all[i].cond by {
          forall i | 0 <= i < |all| ensures !all[i].cond {
            if i < |first| { assert all[i] == first[i]; }
            else { assert all[i] == second[i - |first|]; }
          }
        }
  }
}
