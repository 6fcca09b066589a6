/** `Listener::accept_with`: an accepting pipe instance and a spare, under every run of client
    connects, failed spare creation, failed or cancelled accepts and successful ones. */
module PipeListener {
  import opened Bytes
  import opened Ordering

  type Instance = nat

  /** The accept call that holds the lock, if any. The only await after the lock is on the
      connection, so a cancellation finds the call either not started or waiting. */
  datatype Phase = Free | Preparing | Waiting

  datatype State = State(accepting: Instance, spare: Option<Instance>, created: nat, connected: set<Instance>,
                         handedOut: seq<Instance>, phase: Phase)

  datatype Step =
    | Lock
    | SpareReady // create one, or keep the one a cancelled call left
    | SpareFails
    | Connects(client: Instance)
    | ConnectFails
    | Cancel
    | Accept

  const INIT := State(0, None, 1, {}, [], Free)

  function Apply(s: State, step: Step): State {
    match step
    case Lock => if s.phase == Free then s.(phase := Preparing) else s
    case SpareReady =>
      if s.phase != Preparing then s
      else if s.spare.Some? then s.(phase := Waiting)
      else s.(spare := Some(s.created), created := s.created + 1, phase := Waiting)
    case SpareFails => if s.phase == Preparing && s.spare.None? then s.(phase := Free) else s
    case Connects(i) =>
      if (i == s.accepting || s.spare == Some(i)) && i !in s.connected then s.(connected := s.connected + {i}) else s
    case ConnectFails => if s.phase == Waiting then s.(phase := Free) else s
    case Cancel => if s.phase == Waiting then s.(phase := Free) else s
    case Accept =>
      if s.phase == Waiting && s.accepting in s.connected && s.spare.Some? then
        s.(handedOut := s.handedOut + [s.accepting], accepting := s.spare.value, spare := None, phase := Free)
      else s
  }

  function Run(s: State, steps: seq<Step>): State {
    if steps == [] then s else Apply(Run(s, steps[..|steps| - 1]), steps[|steps| - 1])
  }

  ghost predicate Owned(s: State, i: Instance) {
    i == s.accepting || s.spare == Some(i)
  }

  /** Every instance ever created is open in the listener or was handed out, never both and
      never dropped; only connected ones are handed out, each once. */
  ghost predicate Inv(s: State) {
    && (forall i: nat :: i < s.created <==> Owned(s, i) || i in s.handedOut)
    && !(s.spare == Some(s.accepting))
    && (forall i :: i in s.handedOut ==> !Owned(s, i) && i in s.connected)
    && (forall i :: i in s.connected ==> i < s.created)
    && NoDup(s.handedOut)
    && (s.phase == Waiting ==> s.spare.Some?)
    && s.created == |s.handedOut| + if s.spare.Some? then 2 else 1
  }

  lemma StepInv(s: State, step: Step)
    requires Inv(s)
    ensures Inv(Apply(s, step))
    ensures s.handedOut <= Apply(s, step).handedOut && s.connected <= Apply(s, step).connected
  {
    var t := Apply(s, step);
    assert Owned(s, s.accepting);
    if step == Accept && t != s {
      assert t.handedOut == s.handedOut + [s.accepting];
    }
    forall i: nat ensures i < t.created <==> Owned(t, i) || i in t.handedOut {
      assert i < s.created <==> Owned(s, i) || i in s.handedOut;
      assert step == Accept && t != s ==> (i in t.handedOut <==> i in s.handedOut || i == s.accepting);
    }
  }

  lemma {:induction false} RunInv(s: State, steps: seq<Step>)
    requires Inv(s)
    ensures Inv(Run(s, steps))
    ensures s.handedOut <= Run(s, steps).handedOut && s.connected <= Run(s, steps).connected
    decreases |steps|
  {
    if steps != [] {
      RunInv(s, steps[..|steps| - 1]);
      StepInv(Run(s, steps[..|steps| - 1]), steps[|steps| - 1]);
    }
  }

  /** A client that connected is, at every later moment of every run, either still held by the
      listener or handed out exactly once. */
  lemma ConnectedIsKept(steps: seq<Step>, more: seq<Step>, client: Instance)
    requires client in Run(INIT, steps).connected
    ensures var s := Run(INIT, steps + more);
            && client in s.connected
            && (Owned(s, client) || client in s.handedOut)
            && !(Owned(s, client) && client in s.handedOut)
            && multiset(s.handedOut)[client] == (if Owned(s, client) then 0 else 1)
  {
    RunInv(INIT, steps);
    RunConcat(INIT, steps, more);
    RunInv(Run(INIT, steps), more);
    RunInv(INIT, steps + more);
    Multiplicity(Run(INIT, steps + more).handedOut, client);
  }

  lemma {:induction false} RunConcat(s: State, a: seq<Step>, b: seq<Step>)
    ensures Run(s, a + b) == Run(Run(s, a), b)
    decreases |b|
  {
    if b == [] {
      assert a + b == a;
    } else {
      assert (a + b)[..|a + b| - 1] == a + b[..|b| - 1];
      RunConcat(s, a, b[..|b| - 1]);
    }
  }

  /** From any state of any run, an undisturbed accept hands out a waiting client, and a second
      one the client of the former spare: nothing that happened before can block them. */
  lemma AcceptsServeBoth(steps: seq<Step>)
    requires Run(INIT, steps).phase == Free && Run(INIT, steps).accepting in Run(INIT, steps).connected
    ensures var s := Run(INIT, steps); var once := Serve(s);
            && once.handedOut == s.handedOut + [s.accepting] && once.phase == Free
            && (s.spare.Some? ==> once.accepting == s.spare.value)
            && (s.spare.Some? && s.spare.value in s.connected ==>
                  Serve(once).handedOut == s.handedOut + [s.accepting, s.spare.value])
  {
    RunInv(INIT, steps);
  }

  /** A client that connects to the accepting instance is the next one handed out. */
  lemma ServesNewClient(steps: seq<Step>)
    requires Run(INIT, steps).phase == Free
    ensures var s := Run(INIT, steps);
            Serve(Apply(s, Connects(s.accepting))).handedOut == s.handedOut + [s.accepting]
  {
    RunInv(INIT, steps);
  }

  /** Whatever an accept call is waiting for, it can end and free the lock. */
  lemma LockIsFreed(steps: seq<Step>)
    ensures var s := Run(INIT, steps);
            && (s.phase == Free ==> Apply(s, Lock).phase == Preparing)
            && (s.phase == Preparing ==> Apply(s, SpareReady).phase == Waiting)
            && (s.phase == Preparing && s.spare.None? ==> Apply(s, SpareFails).phase == Free)
            && (s.phase == Waiting ==> Apply(s, Cancel).phase == Free && Apply(s, ConnectFails).phase == Free)
  {
    RunInv(INIT, steps);
  }

  function Serve(s: State): State {
    Apply(Apply(Apply(s, Lock), SpareReady), Accept)
  }
}
