/** The shutdown-progress latch: one atomic byte, with `mark` split into its load and its
    compare-exchange, under every interleaving of markers and the observer. */
module ShutdownLatch {

  datatype Latch = Idle | Active | Dirty | Closed

  /** A thread inside `mark` has, or has not, seen the latch active. */
  datatype Marker = Resting | SawActive

  /** What the outside world can tell: a mark that won its exchange, and the observer's calls. */
  datatype Event = Began | Won(marker: nat) | Took(progress: bool) | Dropped

  datatype State = State(latch: Latch, observing: bool, markers: seq<Marker>, log: seq<Event>)

  datatype Step = Spawn | Load(m: nat) | Exchange(m: nat) | Begin | Take | Drop

  const INIT := State(Idle, false, [], [])

  /** A step that is not possible changes nothing; `begin` on a used latch panics instead. */
  function Apply(s: State, step: Step): State {
    match step
    case Spawn => s.(markers := s.markers + [Resting])
    case Load(m) =>
      if m < |s.markers| && s.markers[m] == Resting && s.latch == Active then s.(markers := s.markers[m := SawActive]) else s
    case Exchange(m) =>
      if m < |s.markers| && s.markers[m] == SawActive then
        var rested := s.(markers := s.markers[m := Resting]);
        if s.latch == Active then rested.(latch := Dirty, log := s.log + [Won(m)]) else rested
      else s
    case Begin =>
      if s.latch == Idle then s.(latch := Active, observing := true, log := s.log + [Began]) else s
    case Take =>
      if !s.observing then s
      else if s.latch == Dirty then s.(latch := Active, log := s.log + [Took(true)])
      else s.(log := s.log + [Took(false)])
    case Drop =>
      if !s.observing then s else s.(latch := Closed, observing := false, log := s.log + [Dropped])
  }

  function Continue(s: State, more: seq<Step>): State {
    if more == [] then s else Apply(Continue(s, more[..|more| - 1]), more[|more| - 1])
  }

  function Run(steps: seq<Step>): State {
    Continue(INIT, steps)
  }

  // ---- what logs are possible

  /** The latch as the log alone determines it. */
  function Replay(log: seq<Event>): Latch {
    if log == [] then Idle else After(Replay(log[..|log| - 1]), log[|log| - 1])
  }

  function After(latch: Latch, e: Event): Latch {
    match e
    case Began => Active
    case Won(_) => Dirty
    case Took(progress) => if progress then Active else latch
    case Dropped => Closed
  }

  ghost predicate Allowed(latch: Latch, e: Event) {
    match e
    case Began => latch == Idle
    case Won(_) => latch == Active
    case Took(progress) => (latch == Active && !progress) || (latch == Dirty && progress)
    case Dropped => latch == Active || latch == Dirty
  }

  ghost predicate Lawful(log: seq<Event>) {
    forall p :: 0 <= p < |log| ==> Allowed(Replay(log[..p]), log[p])
  }

  ghost predicate Inv(s: State) {
    && s.latch == Replay(s.log) && Lawful(s.log)
    && (s.observing <==> s.latch == Active || s.latch == Dirty)
    && (s.latch == Idle ==> forall m :: 0 <= m < |s.markers| ==> s.markers[m] == Resting)
  }

  lemma LawfulSnoc(log: seq<Event>, e: Event)
    requires Lawful(log) && Allowed(Replay(log), e)
    ensures Lawful(log + [e]) && Replay(log + [e]) == After(Replay(log), e)
  {
    var l := log + [e];
    assert l[..|log|] == log;
    forall p | 0 <= p < |l| ensures Allowed(Replay(l[..p]), l[p]) {
      assert p < |log| ==> l[..p] == log[..p];
    }
  }

  lemma StepInv(s: State, step: Step)
    requires Inv(s)
    ensures Inv(Apply(s, step))
  {
    match step
    case Exchange(m) =>
      if s.latch == Active {
        LawfulSnoc(s.log, Won(m));
      }
    case Begin =>
      if s.latch == Idle {
        LawfulSnoc(s.log, Began);
      }
    case Take =>
      if s.observing {
        LawfulSnoc(s.log, Took(s.latch == Dirty));
      }
    case Drop =>
      if s.observing {
        LawfulSnoc(s.log, Dropped);
      }
    case _ =>
  }

  /** Every interleaving produces a lawful log and a latch that agrees with it. */
  lemma {:induction false} AlwaysLawful(steps: seq<Step>)
    ensures Inv(Run(steps))
    decreases |steps|
  {
    if steps != [] {
      AlwaysLawful(steps[..|steps| - 1]);
      StepInv(Run(steps[..|steps| - 1]), steps[|steps| - 1]);
    }
  }

  // ---- what a lawful log promises

  lemma {:induction false} DirtyMeansWon(log: seq<Event>)
    requires Lawful(log) && Replay(log) == Dirty
    ensures log != [] && log[|log| - 1].Won?
    decreases |log|
  {
    assert Allowed(Replay(log[..|log| - 1]), log[|log| - 1]);
  }

  /** Every reported progress is a mark won right before, every won mark is reported by the next
      call of the observer, and nothing happens after the observation is dropped. */
  lemma LogPromises(log: seq<Event>, p: nat)
    requires Lawful(log) && p < |log|
    ensures log[p] == Took(true) ==> p > 0 && log[p - 1].Won?
    ensures log[p].Won? && p + 1 < |log| ==> log[p + 1] == Took(true) || log[p + 1] == Dropped
    ensures log[p].Won? ==> Began in log[..p]
    ensures log[p] == Dropped ==> p + 1 == |log|
    ensures log[p] == Began ==> p == 0
  {
    assert Allowed(Replay(log[..p]), log[p]);
    if log[p] == Took(true) {
      LawfulPrefix(log, p);
      DirtyMeansWon(log[..p]);
    }
    if p + 1 < |log| {
      assert Allowed(Replay(log[..p + 1]), log[p + 1]);
      assert log[..p + 1][|log[..p + 1]| - 1] == log[p];
    }
    if log[p].Won? {
      LawfulPrefix(log, p);
      StartsWithBegan(log[..p]);
    }
    if log[p] == Began {
      LawfulPrefix(log, p);
      IdleMeansEmpty(log[..p]);
    }
  }

  /** The same of every interleaving. */
  lemma EveryRunKeepsPromises(steps: seq<Step>, p: nat)
    requires p < |Run(steps).log|
    ensures var log := Run(steps).log;
            && (log[p] == Took(true) ==> p > 0 && log[p - 1].Won?)
            && (log[p].Won? && p + 1 < |log| ==> log[p + 1] == Took(true) || log[p + 1] == Dropped)
            && (log[p].Won? ==> Began in log[..p])
            && (log[p] == Dropped ==> p + 1 == |log|)
  {
    AlwaysLawful(steps);
    LogPromises(Run(steps).log, p);
  }

  lemma LawfulPrefix(log: seq<Event>, p: nat)
    requires Lawful(log) && p <= |log|
    ensures Lawful(log[..p])
  {
    forall q | 0 <= q < p ensures Allowed(Replay(log[..p][..q]), log[..p][q]) {
      assert log[..p][..q] == log[..q];
    }
  }

  lemma {:induction false} IdleMeansEmpty(log: seq<Event>)
    requires Lawful(log) && Replay(log) == Idle
    ensures log == []
    decreases |log|
  {
    assert log != [] ==> Allowed(Replay(log[..|log| - 1]), log[|log| - 1]);
  }

  lemma {:induction false} StartsWithBegan(log: seq<Event>)
    requires Lawful(log) && Replay(log) != Idle
    ensures Began in log
    decreases |log|
  {
    var n := |log| - 1;
    if log[n] != Began {
      assert Allowed(Replay(log[..n]), log[n]);
      LawfulPrefix(log, n);
      StartsWithBegan(log[..n]);
      assert log[..n] <= log;
    }
  }

  // ---- marks

  /** The steps with which a call of `mark` by thread `m` ends. */
  ghost predicate EndsMark(s: State, m: nat, step: Step) {
    m < |s.markers| &&
    ((step == Load(m) && s.markers[m] == Resting && s.latch != Active) || (step == Exchange(m) && s.markers[m] == SawActive))
  }

  /** Work completed while shutdown is observed is never lost: when a mark ends, by whatever
      step, the latch is dirty, so the observer's next call reports it. */
  lemma MarkIsNotLost(steps: seq<Step>, m: nat, step: Step)
    requires EndsMark(Run(steps), m, step) && Run(steps).observing
    ensures var s := Run(steps + [step]);
            s.latch == Dirty && Apply(s, Take).log == s.log + [Took(true)]
  {
    AlwaysLawful(steps);
    assert (steps + [step])[..|steps|] == steps;
  }

  function MarkAlone(s: State, m: nat): State {
    Apply(Apply(s, Load(m)), Exchange(m))
  }

  /** A mark that nothing disturbs wins on an active latch, and the next take reports it, once. */
  lemma UndisturbedMarkWins(steps: seq<Step>, m: nat)
    requires var s := Run(steps); s.latch == Active && m < |s.markers| && s.markers[m] == Resting
    ensures var s := Run(steps); var marked := MarkAlone(s, m); var taken := Apply(marked, Take);
            && marked == s.(latch := Dirty, log := s.log + [Won(m)])
            && taken == s.(log := marked.log + [Took(true)])
            && Apply(taken, Take).log == taken.log + [Took(false)]
  {
    AlwaysLawful(steps);
    MarkAloneIs(Run(steps), m);
  }

  lemma MarkAloneIs(s: State, m: nat)
    requires s.latch == Active && m < |s.markers| && s.markers[m] == Resting
    ensures MarkAlone(s, m) == s.(latch := Dirty, log := s.log + [Won(m)])
  {
    assert s.markers[m := SawActive][m := Resting] == s.markers;
  }

  /** Without a mark a take reports nothing; observing starts with `begin`, once. */
  lemma QuietTakes(steps: seq<Step>)
    ensures var s := Run(steps);
            && (s.latch == Active ==> Apply(s, Take).log == s.log + [Took(false)] && Apply(s, Take).latch == Active)
            && (s.latch == Idle ==> Apply(s, Begin).latch == Active && Apply(s, Begin).observing)
            && (s.observing ==> Apply(s, Drop).latch == Closed)
  {
    AlwaysLawful(steps);
  }

  /** Once closed, the latch stays closed and silent, whatever any thread still does. */
  lemma {:induction false} ClosedIsFinal(s: State, more: seq<Step>)
    requires Inv(s) && s.latch == Closed
    ensures Continue(s, more).latch == Closed && Continue(s, more).log == s.log && Inv(Continue(s, more))
    decreases |more|
  {
    if more != [] {
      ClosedIsFinal(s, more[..|more| - 1]);
      StepInv(Continue(s, more[..|more| - 1]), more[|more| - 1]);
    }
  }

  /** A mark that ended before `begin` leaves no trace: the first take reports only later work. */
  lemma EarlyMarksAreForgotten(steps: seq<Step>)
    requires Run(steps).latch == Idle
    ensures Run(steps).log == [] && forall m :: 0 <= m < |Run(steps).markers| ==> Run(steps).markers[m] == Resting
  {
    AlwaysLawful(steps);
    IdleMeansEmpty(Run(steps).log);
  }
}
