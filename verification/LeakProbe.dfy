/** The counting allocator as a protocol between threads. The system call and the counter update
    are two separate steps, so other threads may run between them; each counter update is one
    atomic step on a 64-bit signed integer that wraps. */
module LeakProbe {
  import opened Wrappers

  type Block = nat
  type Thread = nat

  /** Where a thread is inside the allocator. A thread in no call is in no map. */
  datatype Work =
    | Counting(block: Block, former: Option<Block>) // system gave `block`, fetch_add still to come
    | Moving(block: Block, prior: Block)                // realloc: counted and copied, `prior` still held
    | Freeing(block: Block, kept: Option<Block>)      // fetch_sub done, system free still to come

  /** `live` is what the system has given out and not got back; `held` is what callers may use. */
  datatype State = State(live: set<Block>, held: set<Block>, counter: int, busy: map<Thread, Work>)

  const START := State({}, {}, 0, map[])

  datatype Step =
    | Refuse(t: Thread)                            // the system answers null: nothing is counted
    | Take(t: Thread, block: Block)                // alloc, alloc_zeroed: the system gives a block
    | TakeFor(t: Thread, block: Block, prior: Block) // the same, on behalf of realloc
    | Count(t: Thread)                             // fetch_add
    | Uncount(t: Thread, block: Block)             // dealloc begins: fetch_sub
    | UncountOld(t: Thread)                        // realloc's dealloc begins: fetch_sub
    | Free(t: Thread)                              // the system free

  /** Two's complement at 64 bits. */
  function Wrap(n: int): (w: int)
    ensures -0x8000_0000_0000_0000 <= w < 0x8000_0000_0000_0000
    ensures -0x8000_0000_0000_0000 <= n < 0x8000_0000_0000_0000 ==> w == n
  {
    (n + 0x8000_0000_0000_0000) % 0x1_0000_0000_0000_0000 - 0x8000_0000_0000_0000
  }

  function Members(b: Option<Block>): set<Block> {
    if b.Some? then {b.value} else {}
  }

  /** A caller may give up or grow only a block it holds; the system never gives a block twice. */
  predicate Enabled(s: State, step: Step) {
    match step
    case Refuse(t) => t !in s.busy
    case Take(t, block) => t !in s.busy && block !in s.live
    case TakeFor(t, block, prior) => t !in s.busy && block !in s.live && prior in s.held
    case Count(t) => t in s.busy && s.busy[t].Counting?
    case Uncount(t, block) => t !in s.busy && block in s.held
    case UncountOld(t) => t in s.busy && s.busy[t].Moving?
    case Free(t) => t in s.busy && s.busy[t].Freeing?
  }

  function Next(s: State, step: Step): State
    requires Enabled(s, step)
  {
    match step
    case Refuse(_) => s
    case Take(t, block) =>
      s.(live := s.live + {block}, busy := s.busy[t := Counting(block, None)])
    case TakeFor(t, block, prior) =>
      s.(live := s.live + {block}, held := s.held - {prior},
      busy := s.busy[t := Counting(block, Some(prior))])
    case Count(t) => Counted(s, t, s.busy[t].block, s.busy[t].former)
    case Uncount(t, block) =>
      s.(counter := Wrap(s.counter - 1), held := s.held - {block},
      busy := s.busy[t := Freeing(block, None)])
    case UncountOld(t) =>
      s.(counter := Wrap(s.counter - 1),
      busy := s.busy[t := Freeing(s.busy[t].prior, Some(s.busy[t].block))])
    case Free(t) =>
      s.(live := s.live - {s.busy[t].block}, held := s.held + Members(s.busy[t].kept), busy := s.busy - {t})
  }

  /** Once counted, a fresh block is handed over; a block that former another waits for it. */
  function Counted(s: State, t: Thread, block: Block, former: Option<Block>): State {
    if former.None? then
      s.(counter := Wrap(s.counter + 1), held := s.held + {block}, busy := s.busy - {t})
    else
      s.(counter := Wrap(s.counter + 1), busy := s.busy[t := Moving(block, former.value)])
  }

  /** A run of any length, the threads interleaved in any order. */
  ghost predicate Run(s: State, steps: seq<Step>, last: State)
    decreases |steps|
  {
    if steps == [] then s == last
    else Enabled(s, steps[0]) && Run(Next(s, steps[0]), steps[1..], last)
  }

  // ---- What every step keeps

  /** Threads whose latest block is live but missing from the counter: the counter lags on both
      sides of its updates, never leads. */
  function Lagging(s: State): set<Thread> {
    set t | t in s.busy && !s.busy[t].Moving?
  }

  function Owned(w: Work): set<Block> {
    match w
    case Counting(block, former) => {block} + Members(former)
    case Moving(block, prior) => {block, prior}
    case Freeing(block, kept) => {block} + Members(kept)
  }

  /** A thread in realloc has two different blocks in hand. */
  predicate TwoBlocks(w: Work) {
    match w
    case Counting(block, former) => block !in Members(former)
    case Moving(block, prior) => block != prior
    case Freeing(block, kept) => block !in Members(kept)
  }

  ghost predicate Separate(s: State) {
    && (forall t <- s.busy :: TwoBlocks(s.busy[t]) && Owned(s.busy[t]) <= s.live && Owned(s.busy[t]) !! s.held)
    && (forall t, u | t in s.busy && u in s.busy && t != u :: Owned(s.busy[t]) !! Owned(s.busy[u]))
  }

  /** No block is lost: each live one is a caller's or in the hands of a thread in a call. */
  ghost predicate Accounted(s: State) {
    s.held <= s.live && forall b <- s.live :: b in s.held || exists t :: t in s.busy && b in Owned(s.busy[t])
  }

  ghost predicate Inv(s: State) {
    Separate(s) && Accounted(s) && s.counter == Wrap(|s.live| - |Lagging(s)|)
  }

  lemma OtherThreads(s: State, step: Step, t: Thread)
    requires Inv(s) && Enabled(s, step) && t in Next(s, step).busy && t != step.t
    ensures t in s.busy && Next(s, step).busy[t] == s.busy[t]
    ensures Owned(s.busy[t]) <= Next(s, step).live && Owned(s.busy[t]) !! Next(s, step).held
  {
    if step.t in s.busy {
      assert Owned(s.busy[step.t]) !! Owned(s.busy[t]);
    }
  }

  /** What a thread has in hand after its step, no other thread has. */
  ghost predicate InHand(s: State, n: State, t: Thread, w: Work) {
    && TwoBlocks(w) && Owned(w) <= n.live && Owned(w) !! n.held
    && forall u | u in s.busy && u != t :: Owned(s.busy[u]) !! Owned(w)
  }

  lemma EntersInHand(s: State, step: Step)
    requires Inv(s) && Enabled(s, step) && step.t !in s.busy && step.t in Next(s, step).busy
    ensures InHand(s, Next(s, step), step.t, Next(s, step).busy[step.t])
  {
    var taken := Owned(Next(s, step).busy[step.t]);
    assert forall b <- taken :: b !in s.live || b in s.held;
  }

  lemma StaysInHand(s: State, step: Step)
    requires Inv(s) && Enabled(s, step) && step.t in s.busy && step.t in Next(s, step).busy
    ensures InHand(s, Next(s, step), step.t, Next(s, step).busy[step.t])
  {
    assert Owned(Next(s, step).busy[step.t]) == Owned(s.busy[step.t]);
  }

  lemma OwnThread(s: State, step: Step)
    requires Inv(s) && Enabled(s, step) && step.t in Next(s, step).busy
    ensures InHand(s, Next(s, step), step.t, Next(s, step).busy[step.t])
  {
    if step.t in s.busy {
      StaysInHand(s, step);
    } else {
      EntersInHand(s, step);
    }
  }

  lemma StepKeepsSeparate(s: State, step: Step)
    requires Inv(s) && Enabled(s, step)
    ensures Separate(Next(s, step))
  {
    var n := Next(s, step);
    forall t | t in n.busy
      ensures TwoBlocks(n.busy[t]) && Owned(n.busy[t]) <= n.live && Owned(n.busy[t]) !! n.held
    {
      if t == step.t { OwnThread(s, step); } else { OtherThreads(s, step, t); }
    }
    forall t, u | t in n.busy && u in n.busy && t != u
      ensures Owned(n.busy[t]) !! Owned(n.busy[u])
    {
      if t == step.t {
        OwnThread(s, step);
        OtherThreads(s, step, u);
      } else if u == step.t {
        OwnThread(s, step);
        OtherThreads(s, step, t);
      } else {
        OtherThreads(s, step, t);
        OtherThreads(s, step, u);
      }
    }
  }

  lemma StepKeepsAccounted(s: State, step: Step)
    requires Inv(s) && Enabled(s, step)
    ensures Accounted(Next(s, step))
  {
    var n := Next(s, step);
    forall b <- n.live
      ensures b in n.held || exists t :: t in n.busy && b in Owned(n.busy[t])
    {
      if b in s.live && b !in s.held {
        StillInHand(s, step, b);
      } else if b !in n.held {
        assert step.t in n.busy && b in Owned(n.busy[step.t]);
      }
    }
  }

  lemma StillInHand(s: State, step: Step, b: Block)
    requires Accounted(s) && Enabled(s, step) && b in s.live && b !in s.held && b in Next(s, step).live
    ensures var n := Next(s, step); b in n.held || exists t :: t in n.busy && b in Owned(n.busy[t])
  {
    var n := Next(s, step);
    var t :| t in s.busy && b in Owned(s.busy[t]);
    if t != step.t {
      assert t in n.busy && n.busy[t] == s.busy[t];
    } else if step.t in n.busy {
      assert b in Owned(n.busy[step.t]);
    }
  }

  lemma WrapStep(n: int, d: int)
    ensures Wrap(Wrap(n) + d) == Wrap(n + d)
  {
  }

  /** What one step of thread `t` adds to the counter. */
  function Adds(step: Step, t: Thread): int {
    if step.t != t then 0
    else match step
      case Count(_) => 1
      case Uncount(_, _) => -1
      case UncountOld(_) => -1
      case _ => 0
  }

  lemma LaggingJoins(s: State, step: Step)
    requires Enabled(s, step) && (step.Take? || step.TakeFor? || step.Uncount? || step.UncountOld?)
    ensures Lagging(Next(s, step)) == Lagging(s) + {step.t} && step.t !in Lagging(s)
  {
  }

  lemma LaggingLeaves(s: State, step: Step)
    requires Enabled(s, step) && (step.Count? || step.Free?)
    ensures Lagging(Next(s, step)) == Lagging(s) - {step.t} && step.t in Lagging(s)
  {
  }

  lemma GapMoves(s: State, step: Step)
    requires Separate(s) && Enabled(s, step)
    ensures |Next(s, step).live| - |Lagging(Next(s, step))| == |s.live| - |Lagging(s)| + Adds(step, step.t)
  {
    match step {
      case Refuse(_) =>
      case Count(_) => LaggingLeaves(s, step);
      case Free(t) =>
        LaggingLeaves(s, step);
        assert s.busy[t].block in Owned(s.busy[t]);
      case _ => LaggingJoins(s, step);
    }
  }

  lemma CounterMoves(s: State, step: Step)
    requires Enabled(s, step)
    ensures Next(s, step).counter
         == if Adds(step, step.t) == 0 then s.counter else Wrap(s.counter + Adds(step, step.t))
  {
  }

  lemma StepKeepsCount(s: State, step: Step)
    requires Inv(s) && Enabled(s, step)
    ensures Next(s, step).counter == Wrap(|Next(s, step).live| - |Lagging(Next(s, step))|)
  {
    GapMoves(s, step);
    CounterMoves(s, step);
    WrapStep(|s.live| - |Lagging(s)|, Adds(step, step.t));
  }

  lemma StepKeeps(s: State, step: Step)
    requires Inv(s) && Enabled(s, step)
    ensures Inv(Next(s, step))
  {
    StepKeepsSeparate(s, step);
    StepKeepsAccounted(s, step);
    StepKeepsCount(s, step);
  }

  lemma {:induction false} RunKeeps(s: State, steps: seq<Step>, last: State)
    requires Inv(s) && Run(s, steps, last)
    ensures Inv(last)
    decreases |steps|
  {
    if steps != [] {
      StepKeeps(s, steps[0]);
      RunKeeps(Next(s, steps[0]), steps[1..], last);
    }
  }

  // ---- What a reading of the counter is worth

  /** Each lagging thread has a live block of its own. */
  lemma {:induction false} LaggingWithin(s: State, threads: set<Thread>, blocks: set<Block>)
    requires Separate(s) && threads <= s.busy.Keys
    requires forall t <- threads :: s.busy[t].block in blocks
    ensures |threads| <= |blocks|
    decreases |threads|
  {
    if threads != {} {
      var t :| t in threads;
      var b := s.busy[t].block;
      forall u | u in threads - {t}
        ensures s.busy[u].block in blocks - {b}
      {
        assert Owned(s.busy[t]) !! Owned(s.busy[u]);
        assert b in Owned(s.busy[t]) && s.busy[u].block in Owned(s.busy[u]);
      }
      LaggingWithin(s, threads - {t}, blocks - {b});
    }
  }

  /** **Over every interleaving**, the counter is the number of live blocks, less the threads
      between a system allocation and its increment, less the threads between a decrement and its
      system free. */
  lemma CounterExactly(steps: seq<Step>, s: State)
    requires Run(START, steps, s)
    ensures s.counter == Wrap(|s.live| - |Lagging(s)|)
    ensures |s.live| < 0x8000_0000_0000_0000 ==> s.counter == |s.live| - |Lagging(s)|
    ensures |Lagging(s)| <= |s.live|
  {
    assert Lagging(START) == {};
    RunKeeps(START, steps, s);
    forall t <- Lagging(s)
      ensures s.busy[t].block in s.live
    {
      assert s.busy[t].block in Owned(s.busy[t]);
    }
    LaggingWithin(s, Lagging(s), s.live);
  }

  /** Hence a reading is never negative and never above the truth, and it is the truth exactly
      when no thread is between the two halves of a call. */
  lemma ReadingBounds(steps: seq<Step>, s: State)
    requires Run(START, steps, s) && |s.live| < 0x8000_0000_0000_0000
    ensures 0 <= s.counter <= |s.live|
    ensures s.counter == |s.live| <==> Lagging(s) == {}
  {
    CounterExactly(steps, s);
  }

  /** The leak check: between two moments with no call in progress, the counter moves by exactly
      the change in what callers hold, so an unchanged reading means every block was given back. */
  lemma LeakCheck(before: seq<Step>, s: State, between: seq<Step>, last: State)
    requires Run(START, before, s) && s.busy == map[]
    requires Run(s, between, last) && last.busy == map[]
    requires |s.live| < 0x8000_0000_0000_0000 && |last.live| < 0x8000_0000_0000_0000
    ensures last.counter - s.counter == |last.held| - |s.held|
  {
    assert Lagging(START) == {};
    RunKeeps(START, before, s);
    RunKeeps(s, between, last);
    assert Lagging(s) == {} && Lagging(last) == {};
    assert s.live == s.held && last.live == last.held;
  }

  // ---- realloc nets to zero

  /** What one step of `t` asks for: a block taken or a block given up. Growing one is neither. */
  function Asks(step: Step, t: Thread): int {
    if step.t != t then 0
    else match step
      case Take(_, _) => 1
      case Uncount(_, _) => -1
      case _ => 0
  }

  function Sum(f: (Step, Thread) -> int, steps: seq<Step>, t: Thread): int {
    if steps == [] then 0 else f(steps[0], t) + Sum(f, steps[1..], t)
  }

  /** What the call `t` is in has still to add before it returns. */
  function Due(s: State, t: Thread): int {
    if t !in s.busy then 0
    else match s.busy[t]
      case Counting(_, former) => if former.None? then 1 else 0
      case Moving(_, _) => -1
      case Freeing(_, _) => 0
  }

  lemma {:induction false} EachCallAdds(s: State, steps: seq<Step>, last: State, t: Thread)
    requires Run(s, steps, last)
    ensures Sum(Adds, steps, t) + Due(last, t) == Sum(Asks, steps, t) + Due(s, t)
    decreases |steps|
  {
    if steps != [] {
      EachCallAdds(Next(s, steps[0]), steps[1..], last, t);
    }
  }

  /** However its steps are interleaved with other threads', a thread outside the allocator has
      added one for each block it took and minus one for each it gave up; each block it grew added
      nothing. */
  lemma ReallocNetsToZero(steps: seq<Step>, s: State, t: Thread)
    requires Run(START, steps, s) && t !in s.busy
    ensures Sum(Adds, steps, t) == Sum(Asks, steps, t)
  {
    EachCallAdds(START, steps, s, t);
  }

  // ---- Which block each call hands over

  /** None of the steps is the one that ends the call. */
  predicate StaysInCall(steps: seq<Step>, ends: Step) {
    forall i | 0 <= i < |steps| :: steps[i] != ends
  }

  /** Where a thread can be in a realloc it entered with `prior` and was given `block` for. */
  predicate Growing(w: Work, block: Block, prior: Block) {
    w == Counting(block, Some(prior)) || w == Moving(block, prior) || w == Freeing(prior, Some(block))
  }

  lemma {:induction false} StillGrowing(s: State, steps: seq<Step>, last: State, t: Thread, block: Block, prior: Block)
    requires Run(s, steps, last) && StaysInCall(steps, Free(t))
    requires t in s.busy && Growing(s.busy[t], block, prior)
    ensures t in last.busy && Growing(last.busy[t], block, prior)
    decreases |steps|
  {
    if steps != [] {
      StillGrowing(Next(s, steps[0]), steps[1..], last, t, block, prior);
    }
  }

  /** **A realloc hands over the block it was given and frees the one it grew**: whatever other threads do
      meanwhile, the grown block is nobody's to use until then, it is freed by the thread's own last step,
      and from then on the caller has the new block and not the old. */
  lemma ReallocHandsOver(s: State, t: Thread, block: Block, prior: Block, steps: seq<Step>, last: State)
    requires Inv(s) && Enabled(s, TakeFor(t, block, prior))
    requires Run(Next(s, TakeFor(t, block, prior)), steps, last) && StaysInCall(steps, Free(t))
    ensures t in last.busy && block in last.live && prior in last.live && {block, prior} !! last.held
    ensures Enabled(last, Free(t)) ==>
      var n := Next(last, Free(t));
      n.held == last.held + {block} && n.live == last.live - {prior} && prior !in n.held && block in n.live
  {
    var entered := Next(s, TakeFor(t, block, prior));
    StepKeeps(s, TakeFor(t, block, prior));
    StillGrowing(entered, steps, last, t, block, prior);
    RunKeeps(entered, steps, last);
    GrownInHand(last, t, block, prior);
    if Enabled(last, Free(t)) {
      GrownFreed(last, t, block, prior);
    }
  }

  lemma GrownInHand(s: State, t: Thread, block: Block, prior: Block)
    requires Separate(s) && t in s.busy && Growing(s.busy[t], block, prior)
    ensures block in s.live && prior in s.live && {block, prior} !! s.held && block != prior
  {
    assert Owned(s.busy[t]) == {block, prior} && TwoBlocks(s.busy[t]);
  }

  lemma GrownFreed(s: State, t: Thread, block: Block, prior: Block)
    requires Separate(s) && Enabled(s, Free(t)) && Growing(s.busy[t], block, prior)
    ensures var n := Next(s, Free(t));
      n.held == s.held + {block} && n.live == s.live - {prior} && prior !in n.held && block in n.live
  {
    GrownInHand(s, t, block, prior);
    assert s.busy[t] == Freeing(prior, Some(block));
  }

  lemma {:induction false} StaysAt(s: State, steps: seq<Step>, last: State, t: Thread, w: Work, ends: Step)
    requires Run(s, steps, last) && StaysInCall(steps, ends)
    requires t in s.busy && s.busy[t] == w
    requires (w.Counting? && w.former.None? && ends == Count(t)) || (w.Freeing? && ends == Free(t))
    ensures t in last.busy && last.busy[t] == w
    decreases |steps|
  {
    if steps != [] {
      StaysAt(Next(s, steps[0]), steps[1..], last, t, w, ends);
    }
  }

  /** An allocation hands its caller the very block the system gave, once it is counted and not before. */
  lemma AllocHandsOver(s: State, t: Thread, block: Block, steps: seq<Step>, last: State)
    requires Inv(s) && Enabled(s, Take(t, block))
    requires Run(Next(s, Take(t, block)), steps, last) && StaysInCall(steps, Count(t))
    ensures Enabled(last, Count(t)) && block in last.live && block !in last.held
    ensures var n := Next(last, Count(t)); n.held == last.held + {block} && n.live == last.live && t !in n.busy
  {
    var entered := Next(s, Take(t, block));
    StepKeeps(s, Take(t, block));
    StaysAt(entered, steps, last, t, Counting(block, None), Count(t));
    RunKeeps(entered, steps, last);
    assert block in Owned(last.busy[t]);
  }

  /** And a deallocation gives the system back the very block its caller gave up. */
  lemma DeallocGivesBack(s: State, t: Thread, block: Block, steps: seq<Step>, last: State)
    requires Inv(s) && Enabled(s, Uncount(t, block))
    requires Run(Next(s, Uncount(t, block)), steps, last) && StaysInCall(steps, Free(t))
    ensures Enabled(last, Free(t)) && block in last.live && block !in last.held
    ensures var n := Next(last, Free(t)); n.live == last.live - {block} && n.held == last.held && t !in n.busy
  {
    var entered := Next(s, Uncount(t, block));
    StepKeeps(s, Uncount(t, block));
    StaysAt(entered, steps, last, t, Freeing(block, None), Free(t));
    RunKeeps(entered, steps, last);
    assert block in Owned(last.busy[t]);
  }

  /** What is a caller's stays so until its own next call takes it: no step makes another block usable,
      and none takes one away, but these. */
  lemma HeldMoves(s: State, step: Step, b: Block)
    requires Inv(s) && Enabled(s, step)
    ensures b in s.held && b !in Next(s, step).held ==>
      (step.TakeFor? && step.prior == b) || (step.Uncount? && step.block == b)
    ensures b !in s.held && b in Next(s, step).held ==> step.Count? || step.Free?
    ensures b in s.live && b !in Next(s, step).live ==> step.Free?
    ensures b !in s.live && b in Next(s, step).live ==> (step.Take? || step.TakeFor?) && step.block == b
  {
  }
}
