/** The per-bucket version lock as an interleaved step system.

    Several buckets share one memory (index slots, spare buckets and heap words).  Each cell is
    free or belongs to one bucket.  A writer inside a bucket's critical section writes single
    cells of its bucket and free ones, and claims and releases cells; a reader fetches one cell at
    a time, each address depending on what it has seen so far, without any lock. */
module VersionLock {

  const FREE := -1

  /** What a reader does next, given the values it has fetched. */
  datatype Move = Fetch(cell: nat) | Done

  /** The buckets the readers look at and how they read, and the two corrections to the code: the
      lock loop retries when the compare-and-swap fails (as written it retries when it succeeds),
      and readers turn away odd versions (as written they do not). */
  datatype Config = Config(target: nat -> nat, reader: (nat, seq<int>) -> Move, retryOnFailure: bool, parityTest: bool)

  datatype Writer = Outside | Swapping(bucket: nat, expected: nat) | Inside(bucket: nat)

  datatype Reader = Idle
                  | Reading(begin: nat, seen: seq<int>, mem0: seq<int>, owner0: seq<int>)
                  | Accepted(at: nat, answer: seq<int>)

  datatype State = State(version: seq<nat>, mem: seq<int>, owner: seq<int>,
                         writers: map<nat, Writer>, readers: map<nat, Reader>)

  datatype Action = Load(t: nat, bucket: nat) | Swap(t: nat) | Write(t: nat, cell: nat, value: int)
                  | Claim(t: nat, cell: nat) | Release(t: nat, cell: nat) | Unlock(t: nat) | Abandon(t: nat)
                  | Begin(t: nat) | Read(t: nat) | End(t: nat)

  ghost predicate IsInside(s: State, t: nat, m: nat) {
    t in s.writers && s.writers[t] == Inside(m) && m < |s.version|
  }

  /** `seen` is what reader `t` fetches first when it runs on memory `mem` alone. */
  ghost predicate Replays(c: Config, t: nat, mem: seq<int>, seen: seq<int>)
    decreases |seen|
  {
    seen == [] ||
    var before, last := seen[..|seen| - 1], seen[|seen| - 1];
    var move := c.reader(t, before);
    Replays(c, t, mem, before) && move.Fetch? && move.cell < |mem| && last == mem[move.cell]
  }

  /** Reader `t`, run on this memory alone, stays within the cells of its bucket. */
  ghost predicate Confined(c: Config, t: nat, mem: seq<int>, owner: seq<int>) {
    |mem| == |owner| &&
    forall seen {:trigger Replays(c, t, mem, seen)} | Replays(c, t, mem, seen) && c.reader(t, seen).Fetch? ::
      c.reader(t, seen).cell < |mem| && owner[c.reader(t, seen).cell] == c.target(t)
  }

  ghost predicate WriterStep(c: Config, s: State, a: Action, s': State)
    requires |s.mem| == |s.owner|
  {
    match a
    case Load(t, m) =>
      && t in s.writers && s.writers[t] == Outside && m < |s.version|
      && s' == s.(writers := s.writers[t := Swapping(m, s.version[m] - s.version[m] % 2)])
    case Swap(t) =>
      && t in s.writers && s.writers[t].Swapping? && s.writers[t].bucket < |s.version|
      && var m, v := s.writers[t].bucket, s.writers[t].expected;
      && var swapped := s.version[m] == v;
      && s'.version == (if swapped then s.version[m := v + 1] else s.version)
      && s' == s.(version := s'.version,
                  writers := s.writers[t := if swapped == c.retryOnFailure then Inside(m) else Outside])
    case Write(t, i, x) =>
      && t in s.writers && s.writers[t].Inside? && i < |s.mem| && s.owner[i] in {FREE, s.writers[t].bucket}
      && s' == s.(mem := s.mem[i := x])
    case Claim(t, i) =>
      && t in s.writers && s.writers[t].Inside? && i < |s.mem| && s.owner[i] == FREE
      && s' == s.(owner := s.owner[i := s.writers[t].bucket])
    case Release(t, i) =>
      && t in s.writers && s.writers[t].Inside? && i < |s.mem| && s.owner[i] == s.writers[t].bucket
      && s' == s.(owner := s.owner[i := FREE])
    case Unlock(t) =>
      && t in s.writers && s.writers[t].Inside? && s.writers[t].bucket < |s.version|
      && var m := s.writers[t].bucket;
      && (forall r {:trigger Confined(c, r, s.mem, s.owner)} | c.target(r) == m :: Confined(c, r, s.mem, s.owner))
      && s' == s.(version := s.version[m := s.version[m] + 1], writers := s.writers[t := Outside])
    case Abandon(t) =>
      // put_circular_log_entry returns without unlocking when it finds no block
      && t in s.writers && s.writers[t].Inside?
      && s' == s.(writers := s.writers[t := Outside])
    case _ => false
  }

  ghost predicate ReaderStep(c: Config, s: State, a: Action, s': State)
    requires |s.mem| == |s.owner|
  {
    match a
    case Begin(t) =>
      && t in s.readers && !s.readers[t].Reading? && c.target(t) < |s.version|
      && var v := s.version[c.target(t)];
      && (c.parityTest ==> v % 2 == 0)
      && s' == s.(readers := s.readers[t := Reading(v, [], s.mem, s.owner)])
    case Read(t) =>
      && t in s.readers && s.readers[t].Reading?
      && var r := s.readers[t];
      && var move := c.reader(t, r.seen);
      && move.Fetch? && move.cell < |s.mem|
      && s' == s.(readers := s.readers[t := Reading(r.begin, r.seen + [s.mem[move.cell]], r.mem0, r.owner0)])
    case End(t) =>
      && t in s.readers && s.readers[t].Reading? && c.target(t) < |s.version|
      && var r := s.readers[t];
      && c.reader(t, r.seen) == Done
      && s' == s.(readers := s.readers[t := if s.version[c.target(t)] == r.begin then Accepted(r.begin, r.seen) else Idle])
    case _ => false
  }

  ghost predicate Next(c: Config, s: State, a: Action, s': State) {
    |s.mem| == |s.owner| && (WriterStep(c, s, a, s') || ReaderStep(c, s, a, s'))
  }

  // ---------- Mutual exclusion ----------

  ghost predicate Held(s: State, m: nat) {
    exists t :: IsInside(s, t, m)
  }

  ghost predicate AtMostOne(s: State) {
    forall t, u, m {:trigger IsInside(s, t, m), IsInside(s, u, m)} | IsInside(s, t, m) && IsInside(s, u, m) :: t == u
  }

  /** At most one writer is inside a bucket, and then the version is odd. */
  ghost predicate Guarded(s: State) {
    && AtMostOne(s)
    && (forall m {:trigger Held(s, m)} | 0 <= m < |s.version| && Held(s, m) :: s.version[m] % 2 == 1)
    && (forall t {:trigger s.writers[t]} | t in s.writers && s.writers[t].Swapping? :: s.writers[t].expected % 2 == 0)
    && (forall t {:trigger s.writers[t]} | t in s.writers && s.writers[t].Inside? :: s.writers[t].bucket < |s.version|)
  }

  /** An odd version means that a writer is inside. */
  ghost predicate OddIsHeld(s: State) {
    forall m {:trigger Held(s, m)} | 0 <= m < |s.version| && s.version[m] % 2 == 1 :: Held(s, m)
  }

  /** Writer `t` is about to leave the lock loop. */
  ghost predicate Enters(c: Config, s: State, t: nat) {
    && t in s.writers && s.writers[t].Swapping? && s.writers[t].bucket < |s.version|
    && (s.version[s.writers[t].bucket] == s.writers[t].expected) == c.retryOnFailure
  }

  /** Under the lock as written, a writer that enters finds the bucket empty and its version odd. */
  ghost predicate Orderly(c: Config, s: State, a: Action) {
    !c.retryOnFailure && a.Swap? && Enters(c, s, a.t) ==>
      var m := s.writers[a.t].bucket; !Held(s, m) && s.version[m] % 2 == 1
  }

  /** Which bucket a step's writer is in, before or after it. */
  ghost function StepBucket(s: State, a: Action): nat {
    if (a.Swap? || a.Unlock? || a.Abandon?) && a.t in s.writers && !s.writers[a.t].Outside? then s.writers[a.t].bucket else 0
  }

  /** A writer inside after a step was inside before, unless it entered an empty bucket. */
  lemma InsideBefore(c: Config, s: State, a: Action, s': State, t: nat, m: nat)
    requires Guarded(s) && Next(c, s, a, s') && Orderly(c, s, a) && IsInside(s', t, m)
    ensures IsInside(s, t, m) || (a == Swap(t) && Enters(c, s, t) && StepBucket(s, a) == m && !Held(s, m))
  {}

  lemma UnlockEmpties(c: Config, s: State, t: nat, s': State)
    requires AtMostOne(s) && Next(c, s, Unlock(t), s')
    ensures !Held(s', StepBucket(s, Unlock(t)))
  {
    var m := StepBucket(s, Unlock(t));
    assert IsInside(s, t, m);
    forall u {:trigger IsInside(s', u, m)} ensures !IsInside(s', u, m) {
      assert IsInside(s', u, m) ==> IsInside(s, u, m);
    }
  }

  lemma HeldOdd(c: Config, s: State, a: Action, s': State, m: nat)
    requires Guarded(s) && Next(c, s, a, s') && Orderly(c, s, a) && m < |s.version| && Held(s', m)
    ensures |s'.version| == |s.version| && s'.version[m] % 2 == 1
  {
    var t :| IsInside(s', t, m);
    InsideBefore(c, s, a, s', t, m);
    if IsInside(s, t, m) {
      assert Held(s, m);
      if a.Unlock? && StepBucket(s, a) == m { UnlockEmpties(c, s, a.t, s'); }
    }
  }

  /** Every step keeps this, under either lock, if entries under the lock as written are orderly. */
  lemma GuardedKept(c: Config, s: State, a: Action, s': State)
    requires Guarded(s) && Next(c, s, a, s') && Orderly(c, s, a)
    ensures Guarded(s') && |s'.version| == |s.version|
    ensures forall m | 0 <= m < |s.version| :: s.version[m] <= s'.version[m]
  {
    forall t, u, m {:trigger IsInside(s', t, m), IsInside(s', u, m)} | IsInside(s', t, m) && IsInside(s', u, m) ensures t == u {
      InsideBefore(c, s, a, s', t, m);
      InsideBefore(c, s, a, s', u, m);
    }
    forall m {:trigger Held(s', m)} | 0 <= m < |s'.version| && Held(s', m) ensures s'.version[m] % 2 == 1 {
      HeldOdd(c, s, a, s', m);
    }
  }

  /** With the lock loop corrected, and if no writer leaves without unlocking, the version is odd
      exactly while a writer is inside. */
  lemma OddKept(c: Config, s: State, a: Action, s': State)
    requires c.retryOnFailure && Guarded(s) && OddIsHeld(s) && Next(c, s, a, s') && !a.Abandon?
    ensures OddIsHeld(s')
  {
    forall m {:trigger Held(s', m)} | 0 <= m < |s'.version| && s'.version[m] % 2 == 1 ensures Held(s', m) {
      if a.Swap? && StepBucket(s, a) == m && Enters(c, s, a.t) {
        assert IsInside(s', a.t, m);
      } else {
        if a.Unlock? && StepBucket(s, a) == m { assert IsInside(s, a.t, m) && Held(s, m); }
        assert Held(s, m);
        var t :| IsInside(s, t, m);
        assert IsInside(s', t, m);
      }
    }
  }

  /** With the lock loop corrected, a bucket that a writer left without unlocking stays locked:
      nobody is in it, and nobody will be. */
  lemma AbandonedStays(c: Config, s: State, a: Action, s': State, m: nat)
    requires c.retryOnFailure && Guarded(s) && Next(c, s, a, s') && m < |s.version|
    requires s.version[m] % 2 == 1 && !Held(s, m)
    ensures |s'.version| == |s.version| && s'.version[m] == s.version[m] && !Held(s', m)
  {
    if a.Unlock? { assert IsInside(s, a.t, StepBucket(s, a)); }
    forall t {:trigger IsInside(s', t, m)} ensures !IsInside(s', t, m) {
      assert IsInside(s', t, m) ==> IsInside(s, t, m);
    }
  }

  // ---------- Readers ----------

  /** The cells that were bucket `m`'s still are, with the same values. */
  ghost predicate Frozen(mem0: seq<int>, owner0: seq<int>, mem: seq<int>, owner: seq<int>, m: nat) {
    && |mem0| == |owner0| == |mem| == |owner|
    && forall i {:trigger owner[i]} {:trigger mem[i]} | 0 <= i < |mem0| && owner0[i] == m :: owner[i] == m && mem[i] == mem0[i]
  }

  /** While a bucket's version is even, the readers that look at it stay within its cells. */
  ghost predicate Stable(c: Config, s: State) {
    forall t {:trigger Confined(c, t, s.mem, s.owner)} |
      c.target(t) < |s.version| && s.version[c.target(t)] % 2 == 0 :: Confined(c, t, s.mem, s.owner)
  }

  /** If the version is even and has not moved since the reader began, the bucket's cells have not
      moved either and the reader has seen what it would see alone. */
  ghost predicate ReaderOk(c: Config, s: State, t: nat) {
    t in s.readers && s.readers[t].Reading? ==>
      var r, m := s.readers[t], c.target(t);
      && m < |s.version| && r.begin <= s.version[m]
      && (c.parityTest ==> r.begin % 2 == 0)
      && (r.begin % 2 == 0 && s.version[m] == r.begin ==>
            && Frozen(r.mem0, r.owner0, s.mem, s.owner, m)
            && Replays(c, t, r.mem0, r.seen) && Confined(c, t, r.mem0, r.owner0))
  }

  ghost predicate Inv(c: Config, s: State) {
    && |s.mem| == |s.owner| && Guarded(s) && Stable(c, s)
    && forall t {:trigger ReaderOk(c, s, t)} :: ReaderOk(c, s, t)
  }

  /** Cells that keep their values give a confined reader the same answers. */
  lemma {:induction false} ReplayFrozen(c: Config, t: nat, mem0: seq<int>, owner0: seq<int>, mem: seq<int>, owner: seq<int>, seen: seq<int>)
    requires Confined(c, t, mem0, owner0) && Frozen(mem0, owner0, mem, owner, c.target(t))
    ensures Replays(c, t, mem0, seen) <==> Replays(c, t, mem, seen)
    decreases |seen|
  {
    if seen != [] {
      var n := |seen| - 1;
      var before := seen[..n];
      ReplayFrozen(c, t, mem0, owner0, mem, owner, before);
      if Replays(c, t, mem0, before) && c.reader(t, before).Fetch? {
        assert owner0[c.reader(t, before).cell] == c.target(t);
      }
    }
  }

  lemma ConfinedFrozen(c: Config, t: nat, mem0: seq<int>, owner0: seq<int>, mem: seq<int>, owner: seq<int>)
    requires Confined(c, t, mem0, owner0) && Frozen(mem0, owner0, mem, owner, c.target(t))
    ensures Confined(c, t, mem, owner)
  {
    forall seen {:trigger Replays(c, t, mem, seen)} | Replays(c, t, mem, seen) && c.reader(t, seen).Fetch?
      ensures c.reader(t, seen).cell < |mem| && owner[c.reader(t, seen).cell] == c.target(t)
    {
      ReplayFrozen(c, t, mem0, owner0, mem, owner, seen);
      assert owner0[c.reader(t, seen).cell] == c.target(t);
    }
  }

  /** No step changes the cells of a bucket whose version is even and stays. */
  lemma StepFrozen(c: Config, s: State, a: Action, s': State, m: nat)
    requires Inv(c, s) && Next(c, s, a, s') && m < |s.version| && s.version[m] % 2 == 0
    ensures Frozen(s.mem, s.owner, s'.mem, s'.owner, m)
  {
    assert !Held(s, m);
    if a.Write? || a.Claim? || a.Release? {
      var b := s.writers[a.t].bucket;
      assert IsInside(s, a.t, b);
      assert b != m;
    }
  }

  lemma StableKept(c: Config, s: State, a: Action, s': State)
    requires Inv(c, s) && Next(c, s, a, s') && Orderly(c, s, a)
    ensures Stable(c, s')
  {
    GuardedKept(c, s, a, s');
    forall t {:trigger Confined(c, t, s'.mem, s'.owner)} | c.target(t) < |s'.version| && s'.version[c.target(t)] % 2 == 0
      ensures Confined(c, t, s'.mem, s'.owner)
    {
      var m := c.target(t);
      if s.version[m] % 2 == 0 {
        StepFrozen(c, s, a, s', m);
        ConfinedFrozen(c, t, s.mem, s.owner, s'.mem, s'.owner);
      }
    }
  }

  lemma FrozenTrans(a: seq<int>, x: seq<int>, b: seq<int>, y: seq<int>, c: seq<int>, z: seq<int>, m: nat)
    requires Frozen(a, x, b, y, m) && Frozen(b, y, c, z, m)
    ensures Frozen(a, x, c, z, m)
  {}

  lemma ReaderKept(c: Config, s: State, a: Action, s': State, t: nat)
    requires Inv(c, s) && Next(c, s, a, s') && Orderly(c, s, a)
    ensures ReaderOk(c, s', t)
  {
    hide Guarded;
    GuardedKept(c, s, a, s');
    assert ReaderOk(c, s, t);
    if t in s'.readers && s'.readers[t].Reading? {
      var r', m := s'.readers[t], c.target(t);
      if a == Begin(t) {
        if r'.begin % 2 == 0 { assert Confined(c, t, s.mem, s.owner); }
      } else if r'.begin % 2 == 0 && s'.version[m] == r'.begin {
        var r := s.readers[t];
        StepFrozen(c, s, a, s', m);
        FrozenTrans(r.mem0, r.owner0, s.mem, s.owner, s'.mem, s'.owner, m);
        if a == Read(t) {
          assert r'.seen[..|r.seen|] == r.seen;
          assert Replays(c, t, r.mem0, r.seen) && r.owner0[c.reader(t, r.seen).cell] == m;
        }
      }
    }
  }

  lemma InvKept(c: Config, s: State, a: Action, s': State)
    requires Inv(c, s) && Next(c, s, a, s') && Orderly(c, s, a)
    ensures Inv(c, s')
  {
    GuardedKept(c, s, a, s');
    StableKept(c, s, a, s');
    forall t {:trigger ReaderOk(c, s', t)} ensures ReaderOk(c, s', t) {
      ReaderKept(c, s, a, s', t);
    }
  }

  /** A read that is accepted with an even version is atomic: it saw what it would have seen alone
      on the memory at its start, and alone on the memory at its end. */
  lemma AcceptedIsAtomic(c: Config, s: State, t: nat, s': State)
    requires Inv(c, s) && Next(c, s, End(t), s') && s'.readers[t].Accepted?
    requires s'.readers[t].at % 2 == 0
    ensures var r := s.readers[t];
      && c.reader(t, s'.readers[t].answer) == Done
      && Replays(c, t, s.mem, s'.readers[t].answer) && Replays(c, t, r.mem0, s'.readers[t].answer)
      && Frozen(r.mem0, r.owner0, s.mem, s.owner, c.target(t))
  {
    assert ReaderOk(c, s, t);
    var r := s.readers[t];
    ReplayFrozen(c, t, r.mem0, r.owner0, s.mem, s.owner, r.seen);
  }

  // ---------- Whole runs ----------

  /** Nothing is held, nobody reads, and the readers' structures are in order. */
  ghost predicate Start(c: Config, s: State) {
    && |s.mem| == |s.owner|
    && (forall m | 0 <= m < |s.version| :: s.version[m] == 0)
    && (forall t | t in s.writers :: s.writers[t] == Outside)
    && (forall t | t in s.readers :: s.readers[t] == Idle)
    && (forall t {:trigger Confined(c, t, s.mem, s.owner)} :: Confined(c, t, s.mem, s.owner))
  }

  ghost predicate Trace(c: Config, states: seq<State>, actions: seq<Action>) {
    && |states| == |actions| + 1 && Start(c, states[0])
    && forall i {:trigger actions[i]} | 0 <= i < |actions| :: Next(c, states[i], actions[i], states[i + 1])
  }

  /** The lock loop is the corrected one, or every entry is orderly. */
  ghost predicate OrderlyRun(c: Config, states: seq<State>, actions: seq<Action>) {
    Trace(c, states, actions) && forall i {:trigger actions[i]} | 0 <= i < |actions| :: Orderly(c, states[i], actions[i])
  }

  lemma StartInv(c: Config, s: State)
    requires Start(c, s)
    ensures Inv(c, s) && OddIsHeld(s)
  {
    forall t {:trigger ReaderOk(c, s, t)} ensures ReaderOk(c, s, t) {}
  }

  lemma {:induction false} RunKeepsInv(c: Config, states: seq<State>, actions: seq<Action>, i: nat)
    requires OrderlyRun(c, states, actions) && i < |states|
    ensures Inv(c, states[i])
  {
    if i == 0 {
      StartInv(c, states[0]);
    } else {
      RunKeepsInv(c, states, actions, i - 1);
      assert Next(c, states[i - 1], actions[i - 1], states[i]) && Orderly(c, states[i - 1], actions[i - 1]);
      InvKept(c, states[i - 1], actions[i - 1], states[i]);
    }
  }

  ghost predicate Atomic(c: Config, s: State, t: nat, answer: seq<int>) {
    && t in s.readers && s.readers[t].Reading? && c.reader(t, answer) == Done
    && Replays(c, t, s.mem, answer) && Replays(c, t, s.readers[t].mem0, answer)
  }

  /** In every run of the corrected lock, and in every run of the lock as written whose entries are
      orderly: at most one writer is in a bucket, its version is odd then, versions never decrease,
      and a read accepted at an even version is atomic.  With the parity test all are even. */
  lemma RunIsSafe(c: Config, states: seq<State>, actions: seq<Action>, i: nat)
    requires OrderlyRun(c, states, actions) && i < |actions|
    ensures Guarded(states[i]) && |states[i + 1].version| == |states[i].version|
    ensures forall m | 0 <= m < |states[i].version| :: states[i].version[m] <= states[i + 1].version[m]
    ensures forall t {:trigger End(t)} | actions[i] == End(t) && states[i + 1].readers[t].Accepted? ::
              var r := states[i + 1].readers[t];
              (c.parityTest ==> r.at % 2 == 0) && (r.at % 2 == 0 ==> Atomic(c, states[i], t, r.answer))
  {
    RunKeepsInv(c, states, actions, i);
    assert Next(c, states[i], actions[i], states[i + 1]) && Orderly(c, states[i], actions[i]);
    GuardedKept(c, states[i], actions[i], states[i + 1]);
    forall t {:trigger End(t)} | actions[i] == End(t) && states[i + 1].readers[t].Accepted?
      ensures var r := states[i + 1].readers[t];
        (c.parityTest ==> r.at % 2 == 0) && (r.at % 2 == 0 ==> Atomic(c, states[i], t, r.answer))
    {
      assert ReaderOk(c, states[i], t);
      if states[i + 1].readers[t].at % 2 == 0 {
        AcceptedIsAtomic(c, states[i], t, states[i + 1]);
      }
    }
  }

  /** In every run of the corrected lock in which writers unlock what they lock, a version is odd
      exactly while a writer is inside. */
  lemma {:induction false} OddExactlyHeld(c: Config, states: seq<State>, actions: seq<Action>, i: nat)
    requires c.retryOnFailure && Trace(c, states, actions) && i < |states|
    requires forall j {:trigger actions[j]} | 0 <= j < |actions| :: !actions[j].Abandon?
    ensures Guarded(states[i]) && forall m | 0 <= m < |states[i].version| :: states[i].version[m] % 2 == 1 <==> Held(states[i], m)
  {
    RunKeepsInv(c, states, actions, i);
    if i == 0 {
      StartInv(c, states[0]);
    } else {
      OddExactlyHeld(c, states, actions, i - 1);
      RunKeepsInv(c, states, actions, i - 1);
      assert Next(c, states[i - 1], actions[i - 1], states[i]);
      OddKept(c, states[i - 1], actions[i - 1], states[i]);
    }
  }

  /** Between step `i` and step `k`, reader `t` neither begins nor ends a read. */
  ghost predicate OneRead(actions: seq<Action>, t: nat, i: nat, k: nat) {
    && i < k < |actions| && actions[i] == Begin(t) && actions[k] == End(t)
    && forall j {:trigger actions[j]} | i < j < k :: actions[j] != Begin(t) && actions[j] != End(t)
  }

  lemma {:induction false} StillReading(c: Config, states: seq<State>, actions: seq<Action>, t: nat, i: nat, k: nat, j: nat)
    requires Trace(c, states, actions) && OneRead(actions, t, i, k) && i < j <= k
    ensures |states[j].version| == |states[i].version| && c.target(t) < |states[i].version|
    ensures t in states[j].readers && states[j].readers[t].Reading? && states[j].readers[t].begin == states[i].version[c.target(t)]
    decreases j
  {
    assert actions[j - 1] == actions[j - 1];
    assert Next(c, states[j - 1], actions[j - 1], states[j]);
    if j > i + 1 {
      StillReading(c, states, actions, t, i, k, j - 1);
    }
  }

  /** A read is accepted if and only if the version at its end is the one at its beginning, and then
      at that version and with what it has seen; otherwise it is given up. */
  lemma AcceptedExactly(c: Config, states: seq<State>, actions: seq<Action>, t: nat, i: nat, k: nat)
    requires Trace(c, states, actions) && OneRead(actions, t, i, k)
    ensures c.target(t) < |states[i].version| == |states[k].version| && t in states[k].readers && states[k].readers[t].Reading?
    ensures t in states[k + 1].readers && states[k + 1].readers[t] ==
            var v := states[i].version[c.target(t)];
            if states[k].version[c.target(t)] == v then Accepted(v, states[k].readers[t].seen) else Idle
  {
    StillReading(c, states, actions, t, i, k, k);
    assert Next(c, states[k], actions[k], states[k + 1]);
  }

  /** Two complete solo runs of a reader on the same memory give the same answer. */
  lemma {:induction false} SoloAnswer(c: Config, t: nat, mem: seq<int>, a: seq<int>, b: seq<int>)
    requires Replays(c, t, mem, a) && Replays(c, t, mem, b) && c.reader(t, a) == Done && c.reader(t, b) == Done
    ensures a == b
  {
    if |a| < |b| {
      SoloPrefix(c, t, mem, a, b);
    } else if |b| < |a| {
      SoloPrefix(c, t, mem, b, a);
    } else {
      SoloPrefix(c, t, mem, a, b);
    }
  }

  lemma {:induction false} SoloPrefix(c: Config, t: nat, mem: seq<int>, a: seq<int>, b: seq<int>)
    requires Replays(c, t, mem, a) && Replays(c, t, mem, b) && |a| <= |b|
    ensures a == b[..|a|]
    ensures |a| < |b| ==> c.reader(t, a).Fetch?
    decreases |b|
  {
    if |a| < |b| {
      var before := b[..|b| - 1];
      SoloPrefix(c, t, mem, a, before);
      assert before[..|a|] == b[..|a|];
      assert |a| == |before| ==> a == before;
    } else if a != [] {
      var n := |a| - 1;
      SoloPrefix(c, t, mem, a[..n], b[..n]);
      assert b[..n][..n] == b[..n] && b[..|a|] == b;
      assert a == a[..|a| - 1] + [a[|a| - 1]];
      assert b == b[..|b| - 1] + [b[|b| - 1]];
    }
  }

  // ---------- The code as written ----------

  /** As written, the lock loop ends when the compare-and-swap fails.  So a writer enters exactly
      when the version is not the even one it expects, and then shares the bucket exactly when
      another writer is inside. */
  lemma LockAsWritten(c: Config, s: State, t: nat, s': State)
    requires !c.retryOnFailure && Next(c, s, Swap(t), s')
    ensures var m := s.writers[t].bucket;
      && (IsInside(s', t, m) <==> s.version[m] != s.writers[t].expected)
      && ((exists u :: u != t && IsInside(s', t, m) && IsInside(s', u, m)) <==> IsInside(s', t, m) && Held(s, m))
  {
    var m := s.writers[t].bucket;
    if IsInside(s', t, m) && Held(s, m) {
      var u :| IsInside(s, u, m);
      assert u != t && IsInside(s', u, m);
    }
    if u :| u != t && IsInside(s', t, m) && IsInside(s', u, m) {
      assert IsInside(s, u, m);
    }
  }

  /** Writer `t` is about to enter a bucket that another writer is in. */
  ghost predicate Intrudes(c: Config, s: State, a: Action) {
    a.Swap? && Enters(c, s, a.t) && Held(s, s.writers[a.t].bucket)
  }

  lemma AtMostOneKept(c: Config, s: State, a: Action, s': State)
    requires AtMostOne(s) && Next(c, s, a, s')
    ensures |s'.version| == |s.version|
    ensures AtMostOne(s') <==> !Intrudes(c, s, a)
  {
    if Intrudes(c, s, a) {
      var m := s.writers[a.t].bucket;
      var u :| IsInside(s, u, m);
      assert IsInside(s', u, m) && IsInside(s', a.t, m) && u != a.t;
    } else {
      forall t, u, m {:trigger IsInside(s', t, m), IsInside(s', u, m)} | IsInside(s', t, m) && IsInside(s', u, m) ensures t == u {
        assert IsInside(s, t, m) || a == Swap(t);
        assert IsInside(s, u, m) || a == Swap(u);
        if IsInside(s, t, m) || IsInside(s, u, m) { assert Held(s, m); }
      }
    }
  }

  /** The exact condition for exclusion in a run, of the lock as written or corrected: no
      compare-and-swap that ends a lock loop happens while another writer is in the bucket.  As
      written these are the ones that find the version changed or odd. */
  lemma ExclusionExactly(c: Config, states: seq<State>, actions: seq<Action>)
    requires Trace(c, states, actions)
    ensures (forall i {:trigger states[i]} | 0 <= i < |states| :: AtMostOne(states[i])) <==>
            (forall i {:trigger actions[i]} | 0 <= i < |actions| :: !Intrudes(c, states[i], actions[i]))
  {
    if forall i {:trigger states[i]} | 0 <= i < |states| :: AtMostOne(states[i]) {
      forall i {:trigger actions[i]} | 0 <= i < |actions| ensures !Intrudes(c, states[i], actions[i]) {
        AtMostOneKept(c, states[i], actions[i], states[i + 1]);
      }
    }
    if forall i {:trigger actions[i]} | 0 <= i < |actions| :: !Intrudes(c, states[i], actions[i]) {
      forall i {:trigger states[i]} | 0 <= i < |states| ensures AtMostOne(states[i]) {
        NoIntruder(c, states, actions, i);
      }
    }
  }

  lemma {:induction false} NoIntruder(c: Config, states: seq<State>, actions: seq<Action>, i: nat)
    requires Trace(c, states, actions) && i < |states|
    requires forall i {:trigger actions[i]} | 0 <= i < |actions| :: !Intrudes(c, states[i], actions[i])
    ensures AtMostOne(states[i])
  {
    if i > 0 {
      NoIntruder(c, states, actions, i - 1);
      assert Next(c, states[i - 1], actions[i - 1], states[i]);
      AtMostOneKept(c, states[i - 1], actions[i - 1], states[i]);
    }
  }

  // ---------- One writer per bucket ----------

  /** Only `sole(m)` is in or at the lock of bucket `m`, and it expects the version it will find. */
  ghost predicate SoleOk(s: State, sole: nat -> nat, t: nat) {
    t in s.writers ==>
      match s.writers[t]
      case Outside => true
      case Swapping(m, v) => t == sole(m) && m < |s.version| && v == s.version[m] - s.version[m] % 2
      case Inside(m) => t == sole(m) && m < |s.version| && s.version[m] % 2 == 1
  }

  ghost predicate SoleWriters(states: seq<State>, actions: seq<Action>, sole: nat -> nat) {
    forall i {:trigger actions[i]} | 0 <= i < |actions| && actions[i].Load? :: actions[i].t == sole(actions[i].bucket)
  }

  lemma SoleKept(c: Config, s: State, a: Action, s': State, sole: nat -> nat, t: nat)
    requires !c.retryOnFailure && Next(c, s, a, s') && (forall u {:trigger SoleOk(s, sole, u)} :: SoleOk(s, sole, u))
    requires a.Load? ==> a.t == sole(a.bucket)
    ensures SoleOk(s', sole, t)
  {
    assert SoleOk(s, sole, t);
    if a.Swap? || a.Unlock? { assert SoleOk(s, sole, a.t); }
  }

  lemma {:induction false} SoleRun(c: Config, states: seq<State>, actions: seq<Action>, sole: nat -> nat, i: nat)
    requires !c.retryOnFailure && Trace(c, states, actions) && SoleWriters(states, actions, sole) && i < |states|
    ensures forall t {:trigger SoleOk(states[i], sole, t)} :: SoleOk(states[i], sole, t)
  {
    if i > 0 {
      SoleRun(c, states, actions, sole, i - 1);
      assert Next(c, states[i - 1], actions[i - 1], states[i]);
      forall t {:trigger SoleOk(states[i], sole, t)} ensures SoleOk(states[i], sole, t) {
        SoleKept(c, states[i - 1], actions[i - 1], states[i], sole, t);
      }
    }
  }

  /** If every bucket has one writer, every entry under the lock as written is orderly, even after
      writers that left without unlocking: so `RunIsSafe` is about these runs too. */
  lemma SoleWriterIsOrderly(c: Config, states: seq<State>, actions: seq<Action>, sole: nat -> nat)
    requires !c.retryOnFailure && Trace(c, states, actions) && SoleWriters(states, actions, sole)
    ensures OrderlyRun(c, states, actions)
  {
    forall i {:trigger actions[i]} | 0 <= i < |actions| ensures Orderly(c, states[i], actions[i]) {
      SoleRun(c, states, actions, sole, i);
      var s, a := states[i], actions[i];
      if a.Swap? && Enters(c, s, a.t) {
        assert SoleOk(s, sole, a.t);
        var m := s.writers[a.t].bucket;
        forall u {:trigger IsInside(s, u, m)} ensures IsInside(s, u, m) ==> u == a.t {
          assert SoleOk(s, sole, u);
        }
      }
    }
  }

  // ---------- Runs that go wrong ----------

  /** A reader that fetches two cells. */
  function TwoCells(t: nat, seen: seq<int>): Move {
    if |seen| < 2 then Fetch(|seen|) else Done
  }

  /** The two cells do not hold 0 and 1 together. */
  ghost predicate Mixed(s: State) {
    |s.mem| == 2 && (s.mem[0] == 1 || s.mem[1] == 0)
  }

  ghost predicate NeverTogether(states: seq<State>) {
    forall s | s in states :: Mixed(s)
  }

  ghost predicate AlwaysOne(states: seq<State>) {
    forall s | s in states :: AtMostOne(s)
  }

  /** One more step at the end of a run. */
  lemma Extend(c: Config, states: seq<State>, actions: seq<Action>, a: Action, s: State)
    returns (states': seq<State>, actions': seq<Action>)
    requires Trace(c, states, actions) && Next(c, states[|actions|], a, s)
    ensures Trace(c, states', actions') && |states'| == |actions'| + 1 && states'[|actions'|] == s
    ensures states' == states + [s] && actions' == actions + [a]
    ensures NeverTogether(states) && Mixed(s) ==> NeverTogether(states')
    ensures AlwaysOne(states) && AtMostOne(s) ==> AlwaysOne(states')
  {
    hide Next, AtMostOne;
    states', actions' := states + [s], actions + [a];
    forall i {:trigger actions'[i]} | 0 <= i < |actions'| ensures Next(c, states'[i], actions'[i], states'[i + 1]) {
      if i < |actions| { assert actions[i] == actions'[i]; }
    }
  }

  lemma Begun(c: Config, s: State) returns (states: seq<State>, actions: seq<Action>)
    requires c.reader == TwoCells && (forall t :: c.target(t) == 0) && s.version == [0] && s.owner == [0, 0] && |s.mem| == 2
    requires (forall t | t in s.writers :: s.writers[t] == Outside) && (forall t | t in s.readers :: s.readers[t] == Idle)
    ensures states == [s] && actions == [] && Trace(c, states, actions) && (Mixed(s) ==> NeverTogether(states))
  {
    states, actions := [s], [];
  }

  /** Under the lock as written, a writer that comes to an even version enters: its first swap
      succeeds and sends it back, its second fails and lets it in. */
  lemma Enter(c: Config, states: seq<State>, actions: seq<Action>, t: nat, v: nat)
    returns (states': seq<State>, actions': seq<Action>)
    requires !c.retryOnFailure && Trace(c, states, actions) && |states| == |actions| + 1 && NeverTogether(states)
    requires var s := states[|actions|];
      s.version == [v] && v % 2 == 0 && |s.mem| == 2 == |s.owner| && Mixed(s) && t in s.writers && s.writers[t] == Outside
    ensures Trace(c, states', actions') && |states'| == |actions'| + 1 && NeverTogether(states')
    ensures var s := states[|actions|]; states'[|actions'|] == s.(version := [v + 1], writers := s.writers[t := Inside(0)])
  {
    hide Confined, Replays, Trace, NeverTogether;
    var s0 := states[|actions|];
    var s := s0.(writers := s0.writers[t := Swapping(0, v)]);
    states', actions' := Extend(c, states, actions, Load(t, 0), s);
    s := s.(version := [v + 1], writers := s.writers[t := Outside]);
    states', actions' := Extend(c, states', actions', Swap(t), s);
    s := s.(writers := s.writers[t := Swapping(0, v)]);
    states', actions' := Extend(c, states', actions', Load(t, 0), s);
    s := s.(writers := s.writers[t := Inside(0)]);
    states', actions' := Extend(c, states', actions', Swap(t), s);
    assert s.writers == s0.writers[t := Inside(0)];
  }

  /** Two writers in the same bucket under the lock as written. */
  lemma TwoWritersAsWritten(c: Config) returns (states: seq<State>, actions: seq<Action>)
    requires c.reader == TwoCells && (forall t :: c.target(t) == 0) && !c.retryOnFailure
    ensures Trace(c, states, actions) && |states| == |actions| + 1 && NeverTogether(states)
    ensures states[|actions|] == State([1], [0, 0], [0, 0], map[0 := Inside(0), 1 := Inside(0)], map[0 := Idle])
  {
    hide Confined, Replays, Trace, NeverTogether;
    var s := State([0], [0, 0], [0, 0], map[0 := Outside, 1 := Outside], map[0 := Idle]);
    states, actions := Begun(c, s);
    states, actions := Enter(c, states, actions, 0, 0);
    s := states[|actions|];
    s := s.(writers := s.writers[1 := Swapping(0, 0)]);
    states, actions := Extend(c, states, actions, Load(1, 0), s);
    s := s.(writers := s.writers[1 := Inside(0)]);
    states, actions := Extend(c, states, actions, Swap(1), s);
    assert s.writers == map[0 := Inside(0), 1 := Inside(0)];
  }

  /** A reader that has begun and fetched the first cell. */
  lemma HalfRead(c: Config, states: seq<State>, actions: seq<Action>, v: nat)
    returns (states': seq<State>, actions': seq<Action>)
    requires c.reader == TwoCells && (forall t :: c.target(t) == 0) && (c.parityTest ==> v % 2 == 0)
    requires Trace(c, states, actions) && |states| == |actions| + 1 && NeverTogether(states)
    requires var s := states[|actions|];
      s.version == [v] && s.mem == [0, 0] && s.owner == [0, 0] && s.readers == map[0 := Idle]
    ensures Trace(c, states', actions') && |states'| == |actions'| + 1 && NeverTogether(states')
    ensures states'[|actions'|] == states[|actions|].(readers := map[0 := Reading(v, [0], [0, 0], [0, 0])])
  {
    hide Confined, Replays, Trace, NeverTogether;
    var s := states[|actions|];
    s := s.(readers := map[0 := Reading(v, [], [0, 0], [0, 0])]);
    states', actions' := Extend(c, states, actions, Begin(0), s);
    assert TwoCells(0, []) == Fetch(0) && [] + [0] == [0];
    s := s.(readers := map[0 := Reading(v, [0], [0, 0], [0, 0])]);
    states', actions' := Extend(c, states', actions', Read(0), s);
  }

  /** It fetches the second cell, and accepts. */
  lemma OtherHalf(c: Config, states: seq<State>, actions: seq<Action>, v: nat)
    returns (states': seq<State>, actions': seq<Action>)
    requires c.reader == TwoCells && (forall t :: c.target(t) == 0)
    requires Trace(c, states, actions) && |states| == |actions| + 1 && NeverTogether(states)
    requires var s := states[|actions|];
      s.version == [v] && s.mem == [1, 1] && s.owner == [0, 0] && s.readers == map[0 := Reading(v, [0], [0, 0], [0, 0])]
    ensures Trace(c, states', actions') && |states'| == |actions'| + 1 && NeverTogether(states')
    ensures states'[|actions'|] == states[|actions|].(readers := map[0 := Accepted(v, [0, 1])])
  {
    hide Confined, Replays, Trace, NeverTogether;
    var s := states[|actions|];
    assert TwoCells(0, [0]) == Fetch(1) && [0] + [1] == [0, 1];
    s := s.(readers := map[0 := Reading(v, [0, 1], [0, 0], [0, 0])]);
    states', actions' := Extend(c, states, actions, Read(0), s);
    s := s.(readers := map[0 := Accepted(v, [0, 1])]);
    states', actions' := Extend(c, states', actions', End(0), s);
  }

  /** Writer `w` is in the bucket, whose version is `v`, and nobody reads.  A reader that begins
      now, and during whose read the writer writes both cells, accepts a pair of values that was
      never in memory together. */
  lemma Torn(c: Config, states: seq<State>, actions: seq<Action>, w: nat, v: nat)
    returns (states': seq<State>, actions': seq<Action>)
    requires c.reader == TwoCells && (forall t :: c.target(t) == 0) && (c.parityTest ==> v % 2 == 0)
    requires Trace(c, states, actions) && |states| == |actions| + 1 && NeverTogether(states)
    requires var s := states[|actions|];
      && s.version == [v] && s.mem == [0, 0] && s.owner == [0, 0] && s.readers == map[0 := Idle]
      && w in s.writers && s.writers[w] == Inside(0)
    ensures Trace(c, states', actions') && |states'| == |actions'| + 1 && NeverTogether(states')
    ensures states'[|actions'|].readers == map[0 := Accepted(v, [0, 1])]
    ensures states'[|actions'|].writers == states[|actions|].writers
  {
    hide Confined, Replays, Trace, NeverTogether;
    states', actions' := HalfRead(c, states, actions, v);
    var s := states'[|actions'|];
    s := s.(mem := [1, 0]);
    states', actions' := Extend(c, states', actions', Write(w, 0, 1), s);
    s := s.(mem := [1, 1]);
    states', actions' := Extend(c, states', actions', Write(w, 1, 1), s);
    states', actions' := OtherHalf(c, states', actions', v);
  }

  /** As written, readers accept torn values at an odd version, even if there is only one writer. */
  lemma TornReadAsWritten() returns (c: Config, states: seq<State>, actions: seq<Action>)
    ensures !c.retryOnFailure && !c.parityTest && Trace(c, states, actions)
    ensures var s := states[|actions|]; s.writers.Keys == {0} && 0 in s.readers && s.readers[0] == Accepted(1, [0, 1])
    ensures forall s | s in states :: !Replays(c, 0, s.mem, [0, 1])
  {
    hide Confined, Trace;
    c := Config(_ => 0, TwoCells, false, false);
    states, actions := Begun(c, State([0], [0, 0], [0, 0], map[0 := Outside], map[0 := Idle]));
    states, actions := Enter(c, states, actions, 0, 0);
    states, actions := Torn(c, states, actions, 0, 1);
    PairNeedsBoth(c);
  }

  /** With two writers the parity test does not help as written: the first to unlock makes the
      version even while the other still writes. */
  lemma TornEvenReadAsWritten(parityTest: bool) returns (c: Config, states: seq<State>, actions: seq<Action>)
    ensures !c.retryOnFailure && c.parityTest == parityTest && Trace(c, states, actions)
    ensures var s := states[|actions|]; 0 in s.readers && s.readers[0] == Accepted(2, [0, 1])
    ensures forall s | s in states :: !Replays(c, 0, s.mem, [0, 1])
  {
    c := Config(_ => 0, TwoCells, false, parityTest);
    states, actions := TwoWritersAsWritten(c);
    var s := states[|actions|];
    assert forall t {:trigger Confined(c, t, s.mem, s.owner)} :: Confined(c, t, s.mem, s.owner);
    hide Confined, Trace;
    s := s.(version := [2], writers := s.writers[0 := Outside]);
    states, actions := Extend(c, states, actions, Unlock(0), s);
    states, actions := Torn(c, states, actions, 1, 2);
    PairNeedsBoth(c);
  }

  lemma PairNeedsBoth(c: Config)
    requires c.reader == TwoCells
    ensures forall mem: seq<int> {:trigger Replays(c, 0, mem, [0, 1])} |
              Replays(c, 0, mem, [0, 1]) :: |mem| >= 2 && mem[0] == 0 && mem[1] == 1
  {
    forall mem: seq<int> {:trigger Replays(c, 0, mem, [0, 1])} | Replays(c, 0, mem, [0, 1])
      ensures |mem| >= 2 && mem[0] == 0 && mem[1] == 1
    {
      assert [0, 1][..1] == [0] && [0][..0] == [];
      assert Replays(c, 0, mem, [0]);
    }
  }

  /** The states of two writers of which not both are inside. */
  lemma OneOfTwo(s: State)
    requires s.writers.Keys == {0, 1} && !(s.writers[0].Inside? && s.writers[1].Inside?)
    ensures AtMostOne(s)
  {
    forall t, u, m {:trigger IsInside(s, t, m), IsInside(s, u, m)} | IsInside(s, t, m) && IsInside(s, u, m) ensures t == u {
      assert t in s.writers.Keys && u in s.writers.Keys;
    }
  }

  lemma Append(c: Config, states: seq<State>, actions: seq<Action>, a: Action, s: State)
    returns (states': seq<State>, actions': seq<Action>)
    requires Trace(c, states, actions) && Next(c, states[|actions|], a, s) && AlwaysOne(states)
    requires s.writers.Keys == {0, 1} && !(s.writers[0].Inside? && s.writers[1].Inside?)
    ensures Trace(c, states', actions') && |states'| == |actions'| + 1 && states'[|actions'|] == s && AlwaysOne(states')
    ensures states' == states + [s] && actions' == actions + [a]
  {
    hide Trace, AtMostOne, Next;
    OneOfTwo(s);
    states', actions' := Extend(c, states, actions, a, s);
  }

  /** A writer whose load is out of date. */
  lemma Stale(c: Config) returns (states: seq<State>, actions: seq<Action>)
    requires c.reader == TwoCells && (forall t :: c.target(t) == 0) && !c.retryOnFailure
    ensures Trace(c, states, actions) && |states| == |actions| + 1 && AlwaysOne(states)
    ensures states[|actions|] == State([1], [0, 0], [0, 0], map[0 := Swapping(0, 0), 1 := Swapping(0, 0)], map[])
  {
    hide Trace, AtMostOne, Confined, Replays;
    var s := State([0], [0, 0], [0, 0], map[0 := Outside, 1 := Outside], map[]);
    states, actions := Begun(c, s);
    OneOfTwo(s);
    assert AlwaysOne(states);
    hide AlwaysOne;
    s := s.(writers := map[0 := Outside, 1 := Swapping(0, 0)]);
    states, actions := Append(c, states, actions, Load(1, 0), s);
    s := s.(writers := map[0 := Swapping(0, 0), 1 := Swapping(0, 0)]);
    states, actions := Append(c, states, actions, Load(0, 0), s);
    s := s.(version := [1], writers := map[0 := Outside, 1 := Swapping(0, 0)]);
    states, actions := Append(c, states, actions, Swap(0), s);
    s := s.(writers := map[0 := Swapping(0, 0), 1 := Swapping(0, 0)]);
    states, actions := Append(c, states, actions, Load(0, 0), s);
  }

  /** It enters when the version is even again. */
  lemma StaleEnters(c: Config) returns (states: seq<State>, actions: seq<Action>)
    requires c.reader == TwoCells && (forall t :: c.target(t) == 0) && !c.retryOnFailure
    ensures Trace(c, states, actions) && |states| == |actions| + 1 && AlwaysOne(states)
    ensures states[|actions|] == State([2], [0, 0], [0, 0], map[0 := Outside, 1 := Inside(0)], map[])
  {
    hide Trace, AlwaysOne, AtMostOne;
    states, actions := Stale(c);
    var s := states[|actions|];
    assert forall t {:trigger Confined(c, t, s.mem, s.owner)} :: Confined(c, t, s.mem, s.owner);
    hide Confined, Replays;
    s := s.(writers := map[0 := Inside(0), 1 := Swapping(0, 0)]);
    states, actions := Append(c, states, actions, Swap(0), s);
    s := s.(version := [2], writers := map[0 := Outside, 1 := Swapping(0, 0)]);
    states, actions := Append(c, states, actions, Unlock(0), s);
    s := s.(writers := map[0 := Outside, 1 := Inside(0)]);
    states, actions := Append(c, states, actions, Swap(1), s);
  }

  /** A swap beside another writer need not break exclusion: a writer that loaded the version long
      ago enters at a version that is even again, and then the swap of another succeeds and sends
      that one back. */
  lemma SwapBesideWriter() returns (c: Config, states: seq<State>, actions: seq<Action>)
    ensures !c.retryOnFailure && Trace(c, states, actions) && |actions| >= 1 && actions[|actions| - 1] == Swap(0)
    ensures Held(states[|actions| - 1], 0) && forall s | s in states :: AtMostOne(s)
  {
    hide Trace, AtMostOne, Confined, Replays;
    c := Config(_ => 0, TwoCells, false, true);
    states, actions := StaleEnters(c);
    var s := states[|actions|];
    s := s.(writers := map[0 := Swapping(0, 2), 1 := Inside(0)]);
    states, actions := Append(c, states, actions, Load(0, 0), s);
    assert IsInside(s, 1, 0);
    s := s.(version := [3], writers := map[0 := Outside, 1 := Inside(0)]);
    states, actions := Append(c, states, actions, Swap(0), s);
  }
}
