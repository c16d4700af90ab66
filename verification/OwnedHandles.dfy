/** Move-only holders of library handles, and who owns each handle over a whole program. */
module OwnedHandles {

  /** A raw handle; zero is null, which every free function accepts and ignores. */
  type Handle = nat

  const NULL: Handle := 0

  /** Every holder alive with the handle in it, every handle in a caller's own hands, every handle
      freed so far in order, and every handle the library ever handed out. */
  datatype World<!K> = World(holders: map<K, Handle>, loose: set<Handle>, freed: seq<Handle>, issued: set<Handle>)

  datatype Step<K> =
    | Issue(h: Handle)             // the library hands a fresh handle out
    | Default(k: K)                // an empty holder
    | Adopt(k: K, h: Handle)       // a holder over a handle the caller has in hand, or over null
    | MoveConstruct(k: K, from: K)
    | MoveAssign(k: K, from: K)    // `from` may be `k` itself
    | GiveUp(k: K)                 // release(): the handle goes back into the caller's hands
    | Destroy(k: K)
    | Free(h: Handle)              // the caller frees it, or a consuming door takes it

  predicate Enabled<K>(w: World<K>, step: Step<K>) {
    match step
    case Issue(h) => h != NULL && h !in w.issued
    case Default(k) => k !in w.holders
    case Adopt(k, h) => k !in w.holders && (h == NULL || h in w.loose)
    case MoveConstruct(k, from) => k !in w.holders && from in w.holders
    case MoveAssign(k, from) => k in w.holders && from in w.holders
    case GiveUp(k) => k in w.holders
    case Destroy(k) => k in w.holders
    case Free(h) => h in w.loose
  }

  function Freed(log: seq<Handle>, h: Handle): seq<Handle> {
    if h == NULL then log else log + [h]
  }

  function Next<K>(w: World<K>, step: Step<K>): World<K>
    requires Enabled(w, step)
  {
    match step
    case Issue(h) => w.(issued := w.issued + {h}, loose := w.loose + {h})
    case Default(k) => w.(holders := w.holders[k := NULL])
    case Adopt(k, h) => w.(holders := w.holders[k := h], loose := w.loose - {h})
    case MoveConstruct(k, from) => w.(holders := w.holders[k := w.holders[from]][from := NULL])
    case MoveAssign(k, from) => Assigned(w, k, from)
    case GiveUp(k) => w.(holders := w.holders[k := NULL], loose := w.loose + ({w.holders[k]} - {NULL}))
    case Destroy(k) => w.(holders := w.holders - {k}, freed := Freed(w.freed, w.holders[k]))
    case Free(h) => w.(loose := w.loose - {h}, freed := w.freed + [h])
  }

  /** Assigning a holder to itself does nothing; otherwise what was held is freed first. */
  function Assigned<K>(w: World<K>, k: K, from: K): World<K>
    requires k in w.holders && from in w.holders
  {
    if k == from then w
    else w.(holders := w.holders[k := w.holders[from]][from := NULL], freed := Freed(w.freed, w.holders[k]))
  }

  ghost predicate Run<K>(w: World<K>, steps: seq<Step<K>>, last: World<K>)
    decreases |steps|
  {
    if steps == [] then w == last
    else Enabled(w, steps[0]) && Run(Next(w, steps[0]), steps[1..], last)
  }

  function Begin<K>(): World<K> {
    World(map[], {}, [], {})
  }

  // ---- One owner each

  ghost predicate HeldBy<K>(w: World<K>, k: K, h: Handle) {
    k in w.holders && w.holders[k] == h
  }

  ghost predicate IsHeld<K>(w: World<K>, h: Handle) {
    exists k <- w.holders :: HeldBy(w, k, h)
  }

  /** Every handle ever issued is in exactly one place, and in that place once. */
  ghost predicate OneOwner<K>(w: World<K>) {
    && NULL !in w.issued
    && (forall k <- w.holders :: w.holders[k] == NULL
         || (w.holders[k] in w.issued && w.holders[k] !in w.loose && w.holders[k] !in w.freed))
    && (forall j, k, h | j in w.holders && k in w.holders && h != NULL && HeldBy(w, j, h) && HeldBy(w, k, h) :: j == k)
    && (forall h <- w.loose :: h in w.issued && h !in w.freed)
    && (forall i | 0 <= i < |w.freed| :: w.freed[i] in w.issued)
    && (forall i, j | 0 <= i < j < |w.freed| :: w.freed[i] != w.freed[j])
    && (forall h <- w.issued :: h in w.loose || h in w.freed || IsHeld(w, h))
  }

  lemma IssuedStays<K>(w: World<K>, step: Step<K>, h: Handle)
    requires OneOwner(w) && Enabled(w, step) && h in Next(w, step).issued
    ensures var n := Next(w, step); h in n.loose || h in n.freed || IsHeld(n, h)
  {
    var n := Next(w, step);
    if h in w.issued && IsHeld(w, h) {
      var k :| k in w.holders && HeldBy(w, k, h);
      assert HeldBy(n, k, h) || h in n.loose || h in n.freed
          || (step.MoveConstruct? && HeldBy(n, step.k, h)) || (step.MoveAssign? && HeldBy(n, step.k, h));
    } else if h in w.loose {
      assert step.Adopt? && step.h == h ==> HeldBy(n, step.k, h);
    }
  }

  lemma StepKeepsSeparate<K>(w: World<K>, step: Step<K>, j: K, k: K, h: Handle)
    requires OneOwner(w) && Enabled(w, step)
    requires h != NULL && HeldBy(Next(w, step), j, h) && HeldBy(Next(w, step), k, h)
    ensures j == k
  {
    if step.MoveConstruct? || step.MoveAssign? {
      assert HeldBy(w, if j == step.k then step.from else j, h);
      assert HeldBy(w, if k == step.k then step.from else k, h);
    } else {
      assert HeldBy(w, j, h) || (step.Adopt? && step.k == j);
      assert HeldBy(w, k, h) || (step.Adopt? && step.k == k);
    }
  }

  lemma StepKeepsPlaces<K>(w: World<K>, step: Step<K>, k: K)
    requires OneOwner(w) && Enabled(w, step) && k in Next(w, step).holders && Next(w, step).holders[k] != NULL
    ensures var n := Next(w, step); var h := n.holders[k]; h in n.issued && h !in n.loose && h !in n.freed
  {
    var n := Next(w, step);
    var h := n.holders[k];
    if step.MoveConstruct? || step.MoveAssign? {
      var j := if k == step.k && step.k != step.from then step.from else k;
      assert HeldBy(w, j, h);
      if step.MoveAssign? && step.k != step.from && w.holders[step.k] == h {
        assert HeldBy(w, step.k, h);
      }
    } else if step.GiveUp? || step.Destroy? {
      assert HeldBy(w, k, h);
      assert k != step.k && !HeldBy(w, step.k, h);
    }
  }

  lemma StepKeepsFreed<K>(w: World<K>, step: Step<K>)
    requires OneOwner(w) && Enabled(w, step)
    ensures var n := Next(w, step);
      && (forall i | 0 <= i < |n.freed| :: n.freed[i] in n.issued)
      && (forall i, j | 0 <= i < j < |n.freed| :: n.freed[i] != n.freed[j])
      && (forall h <- n.loose :: h in n.issued && h !in n.freed)
  {
  }

  lemma StepKeepsOneOwner<K>(w: World<K>, step: Step<K>)
    requires OneOwner(w) && Enabled(w, step)
    ensures OneOwner(Next(w, step))
  {
    var n := Next(w, step);
    StepKeepsFreed(w, step);
    forall k <- n.holders
      ensures n.holders[k] == NULL
           || (n.holders[k] in n.issued && n.holders[k] !in n.loose && n.holders[k] !in n.freed)
    {
      if n.holders[k] != NULL {
        StepKeepsPlaces(w, step, k);
      }
    }
    forall j, k, h | j in n.holders && k in n.holders && h != NULL && HeldBy(n, j, h) && HeldBy(n, k, h)
      ensures j == k
    {
      StepKeepsSeparate(w, step, j, k, h);
    }
    forall h <- n.issued
      ensures h in n.loose || h in n.freed || IsHeld(n, h)
    {
      IssuedStays(w, step, h);
    }
  }

  lemma {:induction false} RunKeeps<K>(w: World<K>, steps: seq<Step<K>>, last: World<K>)
    requires OneOwner(w) && Run(w, steps, last)
    ensures OneOwner(last) && w.freed <= last.freed
    decreases |steps|
  {
    if steps != [] {
      StepKeepsOneOwner(w, steps[0]);
      RunKeeps(Next(w, steps[0]), steps[1..], last);
    }
  }

  /** **Over every program**: no live handle has two holders, none is freed twice, and none is freed
      while a holder or a caller has it. */
  lemma LinearOwnership<K>(steps: seq<Step<K>>, w: World<K>)
    requires Run(Begin(), steps, w)
    ensures forall j, k | j in w.holders && k in w.holders && w.holders[j] == w.holders[k] != NULL :: j == k
    ensures forall k <- w.holders :: w.holders[k] !in w.freed
    ensures forall h <- w.issued :: multiset(w.freed)[h] == if h in w.loose || IsHeld(w, h) then 0 else 1
  {
    RunKeeps(Begin<K>(), steps, w);
    forall j, k | j in w.holders && k in w.holders && w.holders[j] == w.holders[k] != NULL
      ensures j == k
    {
      assert HeldBy(w, j, w.holders[j]) && HeldBy(w, k, w.holders[j]);
    }
    forall h <- w.issued
      ensures multiset(w.freed)[h] == if h in w.loose || IsHeld(w, h) then 0 else 1
    {
      OnceInLog(w.freed, h);
    }
    assert NULL !in w.freed;
  }

  lemma {:induction false} OnceInLog(log: seq<Handle>, h: Handle)
    requires forall i, j | 0 <= i < j < |log| :: log[i] != log[j]
    ensures multiset(log)[h] == if h in log then 1 else 0
  {
    if log != [] {
      var t := |log| - 1;
      assert log == log[..t] + [log[t]];
      OnceInLog(log[..t], h);
      assert log[t] !in log[..t];
    }
  }

  /** When every holder is gone and no caller has a handle in hand, each handle issued was freed
      exactly once: nothing leaks. */
  lemma NothingLeaks<K>(steps: seq<Step<K>>, w: World<K>)
    requires Run(Begin(), steps, w) && w.holders == map[] && w.loose == {}
    ensures multiset(w.freed) == multiset(w.issued)
  {
    RunKeeps(Begin<K>(), steps, w);
    forall h: Handle
      ensures multiset(w.freed)[h] == multiset(w.issued)[h]
    {
      OnceInLog(w.freed, h);
      assert !IsHeld(w, h);
    }
  }

  /** A wrapper passed by value to a consuming door: it is moved into the parameter, released to the
      door, and destroyed. The handle is freed once, by the door, and the caller's wrapper is empty. */
  lemma ConsumedByValue<K>(w: World<K>, caller: K, parameter: K)
    requires caller in w.holders && parameter !in w.holders && w.holders[caller] != NULL
    ensures var h := w.holders[caller];
      Run(w, [MoveConstruct(parameter, caller), GiveUp(parameter), Free(h), Destroy(parameter)],
          w.(holders := w.holders[caller := NULL], freed := w.freed + [h], loose := w.loose - {h}))
  {
    var h := w.holders[caller];
    var steps := [MoveConstruct(parameter, caller), GiveUp(parameter), Free(h), Destroy(parameter)];
    var w1 := Next(w, steps[0]);
    var w2 := Next(w1, steps[1]);
    var w3 := Next(w2, steps[2]);
    var w4 := Next(w3, steps[3]);
    assert w4.holders == w.holders[caller := NULL];
    assert w4.loose == w.loose - {h};
    assert steps[3..][1..] == [] && steps[2..][1..] == steps[3..] && steps[1..][1..] == steps[2..];
    assert Run(w3, steps[3..], w4);
    assert Run(w2, steps[2..], w4);
    assert Run(w1, steps[1..], w4);
  }

  // ---- Where each handle goes

  /** `step` moves what `k` holds into `to`. */
  predicate MovesTo<K(==)>(step: Step<K>, k: K, to: K) {
    k != to && (step == MoveConstruct(to, k) || step == MoveAssign(to, k))
  }

  /** `step` leaves what `k` holds to be freed: `k` is destroyed, or is assigned over. */
  predicate LetsGo<K(==)>(step: Step<K>, k: K) {
    step == Destroy(k) || (step.MoveAssign? && step.k == k && step.from != k)
  }

  /** **Where a held handle goes**: into the holder it is moved to, which then holds it alone; into the caller's
      hands; to be freed, which it then is, last; and otherwise it stays where it is. */
  lemma HeldGoes<K>(w: World<K>, step: Step<K>, k: K, h: Handle)
    requires OneOwner(w) && Enabled(w, step) && h != NULL && HeldBy(w, k, h)
    ensures var n := Next(w, step);
      && (forall to | MovesTo(step, k, to) :: HeldBy(n, to, h) && HeldBy(n, k, NULL))
      && (step == GiveUp(k) ==> h in n.loose && HeldBy(n, k, NULL))
      && (LetsGo(step, k) ==> n.freed == w.freed + [h])
      && ((forall to :: !MovesTo(step, k, to)) && step != GiveUp(k) && !LetsGo(step, k) ==> HeldBy(n, k, h))
  {
    if step.MoveConstruct? {
      assert MovesTo(step, step.from, step.k);
    }
    if step.MoveAssign? && step.k != step.from {
      assert MovesTo(step, step.from, step.k);
    }
  }

  /** And a loose one: into the holder that adopts it, or freed by its caller; otherwise it stays in hand. */
  lemma LooseGoes<K>(w: World<K>, step: Step<K>, h: Handle)
    requires OneOwner(w) && Enabled(w, step) && h in w.loose
    ensures var n := Next(w, step);
      && (step.Adopt? && step.h == h ==> HeldBy(n, step.k, h) && h !in n.loose)
      && (step == Free(h) ==> n.freed == w.freed + [h] && h !in n.loose)
      && (!(step.Adopt? && step.h == h) && step != Free(h) ==> h in n.loose)
  {
  }

  /** Nothing else is freed: null never is, and a holder assigned to itself keeps what it has. */
  lemma FreedOnlyThen<K>(w: World<K>, step: Step<K>)
    requires OneOwner(w) && Enabled(w, step) && Next(w, step).freed != w.freed
    ensures step.Free? || exists k :: k in w.holders && LetsGo(step, k) && w.holders[k] != NULL
  {
    if step.MoveAssign? || step.Destroy? {
      assert LetsGo(step, step.k);
    }
  }

  // ---- The holder itself

  /** The library's side of every free. */
  class Library {
    var freed: seq<Handle>

    constructor ()
      ensures freed == []
    {
      freed := [];
    }

    method Free(handle: Handle)
      modifies this
      ensures freed == Freed(old(freed), handle)
    {
      if handle != NULL {
        freed := freed + [handle];
      }
    }
  }

  /** The world as the holders of a program make it. */
  ghost function WorldOf(program: set<Owned>, library: Library, loose: set<Handle>, issued: set<Handle>): World<Owned>
    reads program, library
  {
    World(map o | o in program :: o.handle, loose, library.freed, issued)
  }

  /** Each method is, for every program it is part of, exactly the step of the same name. */
  class Owned {
    var handle: Handle

    constructor (ghost program: set<Owned>, library: Library, ghost loose: set<Handle>, ghost issued: set<Handle>)
      ensures this !in program
      ensures WorldOf(program + {this}, library, loose, issued)
           == Next(old(WorldOf(program, library, loose, issued)), Default(this))
    {
      handle := NULL;
    }

    constructor Adopt(adopted: Handle, ghost program: set<Owned>, library: Library,
                      ghost loose: set<Handle>, ghost issued: set<Handle>)
      requires adopted == NULL || adopted in loose
      ensures this !in program
      ensures WorldOf(program + {this}, library, loose - {adopted}, issued)
           == Next(old(WorldOf(program, library, loose, issued)), Step.Adopt(this, adopted))
    {
      handle := adopted;
    }

    constructor MoveFrom(other: Owned, ghost program: set<Owned>, library: Library,
                         ghost loose: set<Handle>, ghost issued: set<Handle>)
      requires other in program
      modifies other
      ensures this !in program
      ensures WorldOf(program + {this}, library, loose, issued)
           == Next(old(WorldOf(program, library, loose, issued)), MoveConstruct(this, other))
    {
      handle := other.handle;
      new;
      other.handle := NULL;
    }

    method MoveAssign(other: Owned, library: Library, ghost program: set<Owned>,
                      ghost loose: set<Handle>, ghost issued: set<Handle>)
      requires this in program && other in program
      modifies this, other, library
      ensures WorldOf(program, library, loose, issued)
           == Next(old(WorldOf(program, library, loose, issued)), Step.MoveAssign(this, other))
    {
      if this != other {
        library.Free(handle);
        handle := other.handle;
        other.handle := NULL;
      }
    }

    method Release(library: Library, ghost program: set<Owned>, ghost loose: set<Handle>, ghost issued: set<Handle>)
      returns (given: Handle)
      requires this in program
      modifies this
      ensures given == old(handle)
      ensures WorldOf(program, library, loose + ({given} - {NULL}), issued)
           == Next(old(WorldOf(program, library, loose, issued)), GiveUp(this))
    {
      given := handle;
      handle := NULL;
    }

    method Destroy(library: Library, ghost program: set<Owned>, ghost loose: set<Handle>, ghost issued: set<Handle>)
      requires this in program
      modifies library
      ensures WorldOf(program - {this}, library, loose, issued)
           == Next(old(WorldOf(program, library, loose, issued)), Step.Destroy(this))
    {
      library.Free(handle);
    }
  }
}
