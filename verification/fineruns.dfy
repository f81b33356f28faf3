/** Connections interleaved between loop iterations get as far as connections interleaved between whole
    accesses: nobody waits for ever for a lock that is free, and every loop ends. */
module FineRuns {
  import opened Outcomes
  import opened Images
  import opened PackedMemories
  import opened Stores
  import opened Authorities
  import opened FineGates
  import L = Locking
  import G = Gates

  /** How many steps goroutine `t` is from the end of its operation, if nobody else is at work. */
  function Work(st: L.State, t: int, op: L.Op): nat
    requires t in st.threads
  {
    match st.threads[t]
    case Idle => L.Turns(st.base, op) + 3
    case Waiting(_) => L.Turns(st.base, op) + 2
    case Inside(_, i, _) => if i <= L.Turns(st.base, op) then L.Turns(st.base, op) - i + 1 else 0
  }

  predicate Alone(st: L.State, t: int) { forall u | u in st.threads && u != t :: st.threads[u].Idle? }

  lemma FreeLock(st: L.State, t: int)
    requires L.LockInv(st) && Alone(st, t) && t in st.threads && !st.threads[t].Inside?
    ensures !st.writer && st.readers == 0
  {
    assert forall u :: u !in L.Readers(st.threads) && u !in L.Writers(st.threads);
    assert L.Readers(st.threads) == {} && L.Writers(st.threads) == {};
  }

  /** A goroutine that is alone finishes with its next step, or comes nearer to its end. */
  lemma LockProgress(m: Image, st: L.State, t: int, op: L.Op)
    requires L.Inv(m, st) && t in st.threads && Alone(st, t)
    requires !st.threads[t].Idle? ==> st.threads[t].op == op
    ensures var st' := Worked(st, t, op);
            |st'.history| > |st.history| || (t in st'.threads && Work(st', t, op) < Work(st, t, op))
  {
    hide L.After, L.Legal, L.CopyOne, L.StoreOne, L.More, L.Copying, L.Storing, L.Turns, L.Check, L.Atomic, Allocated;
    match st.threads[t]
    case Idle =>
    case Waiting(_) => FreeLock(st, t);
    case Inside(_, i, dst) =>
      assert L.ThreadInv(st, st.threads[t]);
      if op.Reads() {
        ReaderSees(m, st, t);
        L.MoreExact(st.base, op, i);
      } else {
        L.StoringShape(st.base, op, i);
        L.MoreExact(st.mem, op, i);
      }
  }

  /** While a reader is inside, the memory is what the last finished write left. */
  lemma ReaderSees(m: Image, st: L.State, t: int)
    requires L.Inv(m, st) && t in st.threads && st.threads[t].Inside? && st.threads[t].op.Reads()
    ensures st.mem == st.base && |st.threads[t].dst| == |st.threads[t].op.buf|
  {
    hide L.After, L.Legal, L.Copying, L.Storing, L.Turns, L.Check, Allocated;
    assert t in L.Readers(st.threads);
    assert L.ThreadInv(st, st.threads[t]);
  }

  // Runs.

  /** Nobody but `c` is at work. */
  predicate OthersQuiet(f: Fine, c: int) {
    forall mid, d | mid in f.locks && d in f.locks[mid].threads && d != c :: f.locks[mid].threads[d].Idle?
  }

  /** Nobody is at work. */
  predicate Quiet(f: Fine) {
    forall mid, d | mid in f.locks && d in f.locks[mid].threads :: f.locks[mid].threads[d].Idle?
  }

  lemma FineAppend(f: Fine, auth: Auth, c: int, ok: bool, rest: seq<(int, bool)>)
    ensures FineExec(f, auth, [(c, ok)] + rest) == FineExec(FineStep(f, auth, c, ok), auth, rest)
    decreases |rest|
  {
    hide FineStep;
    var all := [(c, ok)] + rest;
    assert all[|all| - 1] == if rest == [] then (c, ok) else rest[|rest| - 1];
    if rest == [] {
      assert all[..0] == [];
    } else {
      assert all[..|all| - 1] == [(c, ok)] + rest[..|rest| - 1];
      FineAppend(f, auth, c, ok, rest[..|rest| - 1]);
    }
  }

  /** How many steps `c` needs for its next step between whole accesses. */
  function Distance(f: Fine, c: int): nat
    requires c in f.peers
  {
    match Wanted(f, f.peers[c])
    case None => 0
    case Some((mid, op)) =>
      if mid in f.locks && c in f.locks[mid].threads then Work(f.locks[mid], c, op) else 0
  }

  lemma PutQuiet(f: Fine, mid: MemoryID, st: L.State, c: int)
    requires OthersQuiet(f, c) && mid in f.locks && st.threads.Keys == f.locks[mid].threads.Keys
    requires forall d | d in st.threads && d != c :: st.threads[d] == f.locks[mid].threads[d]
    ensures OthersQuiet(Put(f, mid, st), c)
    ensures Alone(f.locks[mid], c)
  {
  }

  lemma ResumeQuiet(f: Fine, auth: Auth, c: int, ok: bool, outcome: Option<L.Outcome>)
    requires c in f.peers && OthersQuiet(f, c) && Resting(f, c)
    ensures var g := Resume(f, auth, c, ok, outcome); c in g.peers && Quiet(g) && OthersQuiet(g, c)
  {
    ResumeFrame(f, auth, c, ok, outcome);
    hide Resume;
  }

  lemma Nearer(f: Fine, mid: MemoryID, st: L.State, c: int, op: L.Op)
    requires c in f.peers && mid in f.locks && c in f.locks[mid].threads && c in st.threads
    requires Wanted(f, f.peers[c]) == Some((mid, op)) && SameSeals(f, Put(f, mid, st))
    requires Work(st, c, op) < Work(f.locks[mid], c, op)
    ensures Distance(Put(f, mid, st), c) < Distance(f, c)
  {
    WantedSame(f, Put(f, mid, st), f.peers[c]);
    hide Wanted, Work, SameSeals;
  }

  /** One step of `c`, with nobody else at work. */
  lemma StepQuiet(f0: Fine, f: Fine, auth: Auth, c: int, ok: bool)
    requires FineInv(f0, f) && c in f.peers && OthersQuiet(f, c)
    ensures var g := FineStep(f, auth, c, ok);
            && OthersQuiet(g, c) && c in g.peers
            && if Finishes(f, c) then Quiet(g) else Distance(g, c) < Distance(f, c)
  {
    hide View, L.Step, L.Atomic, Wanted, Resume, Working, Resting, LockOk, LocksOk, Abs, Worked, Work, OthersQuiet, Quiet,
      Distance, SameSeals, Alone;
    assert Working(f, c);
    WantedThere(f0, f, c);
    match Wanted(f, f.peers[c])
    case None =>
      NobodyWorks(f, c);
      ResumeQuiet(f, auth, c, ok, None);
    case Some((mid, op)) =>
      var st := f.locks[mid];
      var st' := Worked(st, c, op);
      WorkKeepsInv(f0, f, c, mid, op);
      Place(f0, f, mid);
      HereWith(f, c, mid, op);
      WorkOnLock(f0.locks[mid], st, c, op);
      PutQuiet(f, mid, st', c);
      if |st'.history| > |st.history| {
        ResumeQuiet(Put(f, mid, st'), auth, c, ok, Some(st'.history[|st'.history| - 1].outcome));
      } else {
        InLock(f0.locks[mid], st);
        LockProgress(View(f0.locks[mid].base), st, c, op);
        Nearer(f, mid, st', c, op);
      }
  }

  lemma InLock(st0: L.State, st: L.State)
    requires LockOk(st0, st)
    ensures L.Inv(View(st0.base), st)
  {
  }

  /** Scheduled by itself, `c` completes its next step between whole accesses. */
  lemma {:induction false} Completes(f0: Fine, f: Fine, auth: Auth, c: int, ok: bool) returns (fine: seq<(int, bool)>)
    requires FineInv(f0, f) && c in f.peers && OthersQuiet(f, c)
    ensures var g := FineExec(f, auth, fine);
            FineInv(f0, g) && Quiet(g) && Abs(g) == G.Step(Abs(f), auth, c, ok)
    decreases Distance(f, c)
  {
    hide FineStep, G.Step, Finishes, Distance, Abs, FineInv, Quiet, OthersQuiet;
    var g := FineStep(f, auth, c, ok);
    StepMatches(f0, f, auth, c, ok);
    StepQuiet(f0, f, auth, c, ok);
    NoFineSteps(f, auth, c, ok);
    if Finishes(f, c) {
      FineAppend(f, auth, c, ok, []);
      fine := [(c, ok)] + [];
    } else {
      fine := Completes(f0, g, auth, c, ok);
      FineAppend(f, auth, c, ok, fine);
      fine := [(c, ok)] + fine;
    }
  }

  lemma NoFineSteps(f: Fine, auth: Auth, c: int, ok: bool)
    ensures FineExec(f, auth, []) == f
  {
  }

  lemma QuietForAll(f: Fine, c: int)
    ensures Quiet(f) ==> OthersQuiet(f, c)
  {
  }

  lemma StartsQuiet(f: Fine)
    requires FineInitial(f)
    ensures Quiet(f)
  {
  }

  lemma Stranger(f: Fine, auth: Auth, c: int, ok: bool)
    requires c !in f.peers
    ensures G.Step(Abs(f), auth, c, ok) == Abs(f)
  {
  }

  /** Every interleaving of connections between whole accesses is reached by some interleaving between single
      loop iterations: with `FineGates.Refines`, the two machines have exactly the same logs, replies and
      status bytes. */
  lemma {:induction false} Realizes(f: Fine, auth: Auth, coarse: seq<(int, bool)>) returns (fine: seq<(int, bool)>)
    requires FineInitial(f)
    ensures var now := FineExec(f, auth, fine);
            FineInv(f, now) && Quiet(now) && Abs(now) == G.Exec(Abs(f), auth, coarse)
    decreases |coarse|
  {
    hide FineStep, G.Step, Abs, FineInv, Quiet, OthersQuiet, Finishes, Distance;
    if coarse == [] {
      FineStart(f);
      StartsQuiet(f);
      fine := [];
    } else {
      var (c, ok) := coarse[|coarse| - 1];
      var before := Realizes(f, auth, coarse[..|coarse| - 1]);
      var now := FineExec(f, auth, before);
      if c in now.peers {
        QuietForAll(now, c);
        var more := Completes(f, now, auth, c, ok);
        FineConcat(f, auth, before, more);
        fine := before + more;
      } else {
        Stranger(now, auth, c, ok);
        fine := before;
      }
    }
  }

  lemma {:induction false} FineConcat(f: Fine, auth: Auth, a: seq<(int, bool)>, b: seq<(int, bool)>)
    ensures FineExec(f, auth, a + b) == FineExec(FineExec(f, auth, a), auth, b)
    decreases |b|
  {
    hide FineStep;
    if b == [] {
      assert a + b == a;
    } else {
      assert (a + b)[..|a + b| - 1] == a + b[..|b| - 1];
      FineConcat(f, auth, a, b[..|b| - 1]);
    }
  }
}
