/** Threads that allocate and free native code blocks under the xchg locks of src/NativeCodeBlocktmp.c,
    in every interleaving. */
module PoolLock {
  import opened CodePool
  import opened PoolClasses
  import opened Seals

  type Thread = nat

  /** `Give(x)` frees block `x`. */
  datatype Op = Take | Give(x: nat)

  /** Where a thread is in an allocation or a deallocation in class `c`: between any two accesses to the lock byte and
      the bitmaps. `Scanning` is about to scan word `x` of level `d`; `Resetting` to reset bit `y` of level `d` and
      `Testing` to test its word, for block `x`; `Setting` to set bit `x` of the level above `d`, for block `x0`.
      `got` is the block an allocation returns. */
  datatype Pc =
    | Idle
    | Locking(c: nat, op: Op)
    | Entered(c: nat, op: Op)
    | Scanning(c: nat, d: nat, x: nat)
    | Resetting(c: nat, d: nat, y: nat, x: nat)
    | Testing(c: nat, d: nat, y: nat, x: nat)
    | Setting(c: nat, d: nat, x0: nat, x: nat)
    | Leaving(c: nat, got: Option<nat>)

  datatype Block = Block(c: nat, x: nat)

  /** `lock[c]` is the lock byte. `live` are the blocks that threads own outside calls. */
  datatype System = System(lock: seq<nat>, pools: seq<Levels>, pc: map<Thread, Pc>, live: set<Block>)

  predicate InSection(p: Pc, c: nat) { !p.Idle? && !p.Locking? && p.c == c }

  /** Some levels may not yet agree. */
  predicate InFlux(p: Pc, c: nat) { (p.Resetting? || p.Testing? || p.Setting?) && p.c == c }

  /** The number of levels of a class. */
  function Depth(c: nat): nat { if c < CLASSES then |ClassWidths(c)| else 0 }

  /** The block a thread has on its way into or out of the bitmaps. */
  function Held(p: Pc): Option<Block> {
    match p
    case Idle => None
    case Locking(c, op) => if op.Give? then Some(Block(c, op.x)) else None
    case Entered(c, op) => if op.Give? then Some(Block(c, op.x)) else None
    case Scanning(_, _, _) => None
    case Resetting(c, d, _, x) => if d + 1 < Depth(c) then Some(Block(c, x)) else None
    case Testing(c, _, _, x) => Some(Block(c, x))
    case Setting(c, d, x0, _) => if d == Depth(c) then Some(Block(c, x0)) else None
    case Leaving(c, got) => if got.Some? then Some(Block(c, got.value)) else None
  }

  predicate Holds(p: Pc, b: Block) { Held(p) == Some(b) }

  // --- Steps ---

  predicate Shaped(s: System) {
    && |s.lock| == CLASSES && |s.pools| == CLASSES
    && (forall c :: 0 <= c < CLASSES ==> |s.pools[c]| == Depth(c))
    && forall t {:trigger s.pc[t]} :: t in s.pc && !s.pc[t].Idle? ==> s.pc[t].c < CLASSES
  }

  predicate StartAlloc(s: System, t: Thread, c: nat, s': System) {
    t in s.pc && s.pc[t].Idle? && c < CLASSES && s' == s.(pc := s.pc[t := Locking(c, Take)])
  }

  /** Only a live block is freed, and by then it is no longer live. */
  predicate StartFree(s: System, t: Thread, b: Block, s': System) {
    t in s.pc && s.pc[t].Idle? && b in s.live && b.c < CLASSES
    && s' == s.(pc := s.pc[t := Locking(b.c, Give(b.x))], live := s.live - {b})
  }

  /** `XCHG_LOCK` with a register that holds 1: the thread is in when the register comes back as 0. */
  predicate Exchange(s: System, t: Thread, s': System) {
    && Shaped(s) && t in s.pc && s.pc[t].Locking?
    && var p := s.pc[t];
      && s'.lock == s.lock[p.c := 1] && s'.pools == s.pools && s'.live == s.live
      && s'.pc == if s.lock[p.c] == 0 then s.pc[t := Entered(p.c, p.op)] else s.pc
  }

  /** After bit `x` was found at level `d`: the scan of the next level, or the first reset. */
  function Found(c: nat, d: nat, x: nat): Pc {
    if d + 1 < Depth(c) then Scanning(c, d + 1, x) else Resetting(c, d, x, x)
  }

  /** An allocation tests the top word and gives up if it is zero. A deallocation begins at the last level. */
  predicate Begin(s: System, t: Thread, s': System) {
    && Shaped(s) && t in s.pc && s.pc[t].Entered?
    && var p := s.pc[t];
      var top := s.pools[p.c][0];
      s' == s.(pc := s.pc[t :=
        match p.op
        case Take => if top == {} then Leaving(p.c, None) else Scanning(p.c, 0, 0)
        case Give(x) => Setting(p.c, Depth(p.c), x, x)])
  }

  /** The bit scan of a word, which must not be zero. */
  predicate Scan(s: System, t: Thread, s': System) {
    && Shaped(s) && t in s.pc && s.pc[t].Scanning? && s.pc[t].d < Depth(s.pc[t].c)
    && var p := s.pc[t];
      var word := Word(s.pools[p.c][p.d], ClassWidths(p.c)[p.d], p.x);
      word != {} && s' == s.(pc := s.pc[t := Found(p.c, p.d, Lowest(word))])
  }

  predicate Reset(s: System, t: Thread, s': System) {
    && Shaped(s) && t in s.pc && s.pc[t].Resetting? && s.pc[t].d < Depth(s.pc[t].c)
    && var p := s.pc[t];
      var m := s.pools[p.c];
      s' == s.(pools := s.pools[p.c := m[p.d := m[p.d] - {p.y}]], pc := s.pc[t := Testing(p.c, p.d, p.y, p.x)])
  }

  /** A word that has become zero loses its bit above. */
  predicate Test(s: System, t: Thread, s': System) {
    && Shaped(s) && t in s.pc && s.pc[t].Testing? && s.pc[t].d < Depth(s.pc[t].c)
    && var p := s.pc[t];
      var width := ClassWidths(p.c)[p.d];
      s' == s.(pc := s.pc[t :=
        if p.d > 0 && Word(s.pools[p.c][p.d], width, p.y / width) == {}
        then Resetting(p.c, p.d - 1, p.y / width, p.x)
        else Leaving(p.c, Some(p.x))])
  }

  predicate Set(s: System, t: Thread, s': System) {
    && Shaped(s) && t in s.pc && s.pc[t].Setting? && s.pc[t].d <= Depth(s.pc[t].c)
    && var p := s.pc[t];
      var m := s.pools[p.c];
      if p.d == 0 then s' == s.(pc := s.pc[t := Leaving(p.c, None)])
      else
        && s'.pools == s.pools[p.c := m[p.d - 1 := m[p.d - 1] + {p.x}]] && s'.lock == s.lock && s'.live == s.live
        && s'.pc == s.pc[t := Setting(p.c, p.d - 1, p.x0, p.x / ClassWidths(p.c)[p.d - 1])]
  }

  predicate Unlock(s: System, t: Thread, s': System) {
    && Shaped(s) && t in s.pc && s.pc[t].Leaving?
    && var p := s.pc[t];
      && s'.lock == s.lock[p.c := 0] && s'.pools == s.pools && s'.pc == s.pc[t := Idle]
      && s'.live == s.live + if p.got.Some? then {Block(p.c, p.got.value)} else {}
  }

  ghost predicate Next(s: System, t: Thread, s': System) {
    || (exists c :: StartAlloc(s, t, c, s')) || (exists b :: StartFree(s, t, b, s')) || Exchange(s, t, s')
    || Begin(s, t, s') || Scan(s, t, s') || Reset(s, t, s') || Test(s, t, s') || Set(s, t, s') || Unlock(s, t, s')
  }

  ghost predicate Init(s: System) {
    && Shaped(s) && s.live == {} && (forall t :: t in s.pc ==> s.pc[t].Idle?)
    && forall c :: 0 <= c < CLASSES ==> s.lock[c] == 0 && s.pools[c] == Full(ClassWidths(c))
  }

  // --- What holds in every reachable state ---

  ghost predicate Exclusive(s: System)
    requires Shaped(s)
  {
    && (forall t, c :: t in s.pc && 0 <= c < CLASSES && InSection(s.pc[t], c) ==> s.lock[c] == 1)
    && forall t, u, c :: t in s.pc && u in s.pc && InSection(s.pc[t], c) && InSection(s.pc[u], c) ==> t == u
  }

  /** The bitmaps were sound before bits for `x0` were set, up to level `d`. */
  ghost predicate SetUpTo(m: Levels, w: Widths, d: nat, x0: nat, x: nat) {
    exists m0 :: Sound(m0, w) && Rising(m0, m, w, d, x0, x)
  }

  /** What a thread in the middle of an operation has done to the bitmaps of its class. */
  ghost predicate Midway(p: Pc, m: Levels, w: Widths)
    requires |m| == |w|
  {
    match p
    case Scanning(_, d, x) => d < |w| && if d == 0 then x == 0 && m[0] != {} else IsLeast(m[d - 1], x)
    case Resetting(_, d, y, x) =>
      && d < |w| && Stale(m[d := m[d] - {y}], w, d, y) && (d + 1 == |w| ==> y == x && IsLeast(Free(m), x))
    case Testing(_, d, y, _) => d < |w| && Stale(m, w, d, y)
    case Setting(_, d, x0, x) => d <= |w| && x0 < Capacity(w) && SetUpTo(m, w, d, x0, x)
    case _ => true
  }

  /** Inside the critical section nobody else changes the bitmaps. */
  ghost predicate Working(s: System)
    requires Shaped(s)
  {
    forall t {:trigger s.pc[t]} :: t in s.pc && !s.pc[t].Idle? ==>
      Midway(s.pc[t], s.pools[s.pc[t].c], ClassWidths(s.pc[t].c))
  }

  /** The levels of a class agree while no thread is changing them. */
  ghost predicate Steady(s: System)
    requires Shaped(s)
  {
    forall c :: 0 <= c < CLASSES && (forall t :: t in s.pc ==> !InFlux(s.pc[t], c)) ==>
      Sound(s.pools[c], ClassWidths(c))
  }

  predicate Exists(b: Block) { b.c < CLASSES && b.x < Blocks(b.c) }

  predicate IsFree(s: System, b: Block)
    requires Shaped(s) && b.c < CLASSES
  {
    b.x in Free(s.pools[b.c])
  }

  /** Only blocks of the pool are free. */
  ghost predicate Bounded(s: System)
    requires Shaped(s)
  {
    forall c, x :: 0 <= c < CLASSES && x in Free(s.pools[c]) ==> x < Blocks(c)
  }

  /** A block is free, live, or on its way in one thread's hands, and only one of these. */
  ghost predicate Separate(s: System)
    requires Shaped(s)
  {
    && (forall b {:trigger b in s.live} :: b in s.live ==> Exists(b) && !IsFree(s, b))
    && (forall t, b {:trigger Holds(s.pc[t], b)} ::
      t in s.pc && Holds(s.pc[t], b) ==> Exists(b) && !IsFree(s, b) && b !in s.live)
    && (forall t, u, b {:trigger Holds(s.pc[t], b), Holds(s.pc[u], b)} ::
      t in s.pc && u in s.pc && Holds(s.pc[t], b) && Holds(s.pc[u], b) ==> t == u)
  }

  ghost predicate Accounted(s: System)
    requires Shaped(s)
  {
    forall b {:trigger Exists(b)} :: Exists(b) ==>
      IsFree(s, b) || b in s.live || exists t :: t in s.pc && Holds(s.pc[t], b)
  }

  ghost predicate Inv(s: System) {
    Shaped(s) && Exclusive(s) && Working(s) && Steady(s) && Bounded(s) && Separate(s) && Accounted(s)
  }

  lemma InitInv(s: System)
    requires Init(s)
    ensures Inv(s)
  {
    forall c | 0 <= c < CLASSES ensures Sound(s.pools[c], ClassWidths(c)) && Free(s.pools[c]) == AllBits(Blocks(c)) {
      FullSound(ClassWidths(c));
    }
  }

  /** A step of thread `t` that leaves the blocks others hold alone, and accounts for those `t` held. */
  lemma AccountedNext(s: System, t: Thread, s': System)
    requires Shaped(s) && Shaped(s') && Accounted(s) && t in s.pc && t in s'.pc
    requires s'.pc == s.pc[t := s'.pc[t]]
    requires forall b :: Exists(b) && (IsFree(s, b) || b in s.live || Holds(s.pc[t], b)) ==>
      IsFree(s', b) || b in s'.live || Holds(s'.pc[t], b)
    ensures Accounted(s')
  {
    forall b | Exists(b) ensures IsFree(s', b) || b in s'.live || exists u :: u in s'.pc && Holds(s'.pc[u], b) {
      if IsFree(s, b) || b in s.live || Holds(s.pc[t], b) {
        assert IsFree(s', b) || b in s'.live || Holds(s'.pc[t], b);
      } else {
        var u :| u in s.pc && Holds(s.pc[u], b);
        assert Holds(s'.pc[u], b);
      }
    }
  }

  /** A step of thread `t` that enters only where the lock was open, and opens only its own lock. */
  lemma ExclusiveNext(s: System, t: Thread, s': System)
    requires Shaped(s) && Shaped(s') && Exclusive(s) && t in s.pc && t in s'.pc && s'.pc == s.pc[t := s'.pc[t]]
    requires forall c :: 0 <= c < CLASSES && InSection(s'.pc[t], c) ==>
      s'.lock[c] == 1 && (InSection(s.pc[t], c) || s.lock[c] != 1)
    requires forall c :: 0 <= c < CLASSES && s.lock[c] == 1 && s'.lock[c] != 1 ==> InSection(s.pc[t], c)
    ensures Exclusive(s')
  {
    forall u, c | u in s'.pc && 0 <= c < CLASSES && InSection(s'.pc[u], c)
      ensures s'.lock[c] == 1 && (u != t ==> !InSection(s'.pc[t], c)) {
      if u != t {
        assert InSection(s.pc[u], c);
      }
    }
    forall u, v, c | u in s'.pc && v in s'.pc && InSection(s'.pc[u], c) && InSection(s'.pc[v], c) ensures u == v {
      if u != t && v != t {
        assert InSection(s.pc[u], c) && InSection(s.pc[v], c);
      }
    }
  }

  /** A step of thread `t` that takes hold only of a block nobody else holds. */
  lemma SeparateNext(s: System, t: Thread, s': System)
    requires Shaped(s) && Shaped(s') && Separate(s) && t in s.pc && t in s'.pc && s'.pc == s.pc[t := s'.pc[t]]
    requires forall b :: b in s'.live ==> Exists(b) && !IsFree(s', b)
    requires forall b :: Holds(s'.pc[t], b) ==>
      Exists(b) && !IsFree(s', b) && b !in s'.live && (Holds(s.pc[t], b) || b in s.live || IsFree(s, b))
    requires forall u, b :: u in s.pc && u != t && Holds(s.pc[u], b) && Exists(b) && !IsFree(s, b) && b !in s.live ==>
      !IsFree(s', b) && b !in s'.live
    ensures Separate(s')
  {
    forall u, b | u in s'.pc && Holds(s'.pc[u], b) ensures Exists(b) && !IsFree(s', b) && b !in s'.live {
      if u != t {
        assert Holds(s.pc[u], b);
      }
    }
    forall u, v, b | u in s'.pc && v in s'.pc && Holds(s'.pc[u], b) && Holds(s'.pc[v], b) ensures u == v {
      if u != t {
        assert Holds(s.pc[u], b);
      }
      if v != t {
        assert Holds(s.pc[v], b);
      }
    }
  }

  /** A step of thread `t` that changes bitmaps only inside its critical section. */
  lemma WorkingNext(s: System, t: Thread, s': System)
    requires Shaped(s) && Shaped(s') && Exclusive(s) && Working(s) && t in s.pc && t in s'.pc
    requires s'.pc == s.pc[t := s'.pc[t]]
    requires forall c :: 0 <= c < CLASSES && s'.pools[c] != s.pools[c] ==> InSection(s.pc[t], c)
    requires !s'.pc[t].Idle? ==> Midway(s'.pc[t], s'.pools[s'.pc[t].c], ClassWidths(s'.pc[t].c))
    ensures Working(s')
  {
    forall u | u in s'.pc && !s'.pc[u].Idle? ensures Midway(s'.pc[u], s'.pools[s'.pc[u].c], ClassWidths(s'.pc[u].c)) {
      if u != t {
        var c := s.pc[u].c;
        assert !(InSection(s.pc[u], c) && InSection(s.pc[t], c));
      }
    }
  }

  /** A step of thread `t` after which it is not changing the bitmaps of a class only if it was not before, or if
      their levels agree. */
  lemma SteadyNext(s: System, t: Thread, s': System)
    requires Shaped(s) && Shaped(s') && Steady(s) && t in s.pc && t in s'.pc && s'.pc == s.pc[t := s'.pc[t]]
    requires forall c :: 0 <= c < CLASSES && !InFlux(s'.pc[t], c) ==>
      (s'.pools[c] == s.pools[c] && !InFlux(s.pc[t], c)) || Sound(s'.pools[c], ClassWidths(c))
    ensures Steady(s')
  {
    forall c | 0 <= c < CLASSES && (forall u :: u in s'.pc ==> !InFlux(s'.pc[u], c))
      ensures Sound(s'.pools[c], ClassWidths(c)) {
      if !Sound(s'.pools[c], ClassWidths(c)) {
        assert forall u :: u in s.pc && u != t ==> s'.pc[u] == s.pc[u];
      }
    }
  }

  /** While thread `t` is inside and not changing the bitmaps, their levels agree. */
  lemma SteadyInside(s: System, t: Thread)
    requires Inv(s) && t in s.pc && (s.pc[t].Entered? || s.pc[t].Scanning? || s.pc[t].Leaving?)
    ensures Sound(s.pools[s.pc[t].c], ClassWidths(s.pc[t].c))
  {
    var c := s.pc[t].c;
    forall u | u in s.pc ensures !InFlux(s.pc[u], c) {
      if InFlux(s.pc[u], c) {
        assert InSection(s.pc[u], c) && InSection(s.pc[t], c);
      }
    }
  }

  /** A step of thread `t` that leaves the bitmaps, the lock and the live blocks alone and stays inside. */
  lemma MoveInv(s: System, t: Thread, s': System)
    requires Inv(s) && t in s.pc && t in s'.pc && s' == s.(pc := s.pc[t := s'.pc[t]]) && Shaped(s')
    requires !s.pc[t].Idle? && !s'.pc[t].Idle? && InSection(s.pc[t], s'.pc[t].c) && InSection(s'.pc[t], s'.pc[t].c)
    requires Held(s'.pc[t]) == Held(s.pc[t]) && Midway(s'.pc[t], s.pools[s'.pc[t].c], ClassWidths(s'.pc[t].c))
    requires forall c :: 0 <= c < CLASSES && InFlux(s.pc[t], c) && !InFlux(s'.pc[t], c) ==>
      Sound(s.pools[c], ClassWidths(c))
    ensures Inv(s')
  {
    assert forall b :: Holds(s'.pc[t], b) <==> Holds(s.pc[t], b);
    ExclusiveNext(s, t, s');
    WorkingNext(s, t, s');
    SteadyNext(s, t, s');
    SeparateNext(s, t, s');
    AccountedNext(s, t, s');
  }

  lemma StartAllocInv(s: System, t: Thread, c: nat, s': System)
    requires Inv(s) && StartAlloc(s, t, c, s')
    ensures Inv(s')
  {
    ExclusiveNext(s, t, s');
    WorkingNext(s, t, s');
    SteadyNext(s, t, s');
    SeparateNext(s, t, s');
    AccountedNext(s, t, s');
  }

  lemma StartFreeInv(s: System, t: Thread, b: Block, s': System)
    requires Inv(s) && StartFree(s, t, b, s')
    ensures Inv(s')
  {
    ExclusiveNext(s, t, s');
    WorkingNext(s, t, s');
    SteadyNext(s, t, s');
    SeparateNext(s, t, s');
    AccountedNext(s, t, s');
  }

  lemma ExchangeInv(s: System, t: Thread, s': System)
    requires Inv(s) && Exchange(s, t, s')
    ensures Inv(s')
  {
    assert s'.pc == s.pc[t := s'.pc[t]];
    assert forall b :: Holds(s'.pc[t], b) <==> Holds(s.pc[t], b);
    ExclusiveNext(s, t, s');
    WorkingNext(s, t, s');
    SteadyNext(s, t, s');
    SeparateNext(s, t, s');
    AccountedNext(s, t, s');
  }

  /** What the bit found at level `d` is good for. */
  lemma FoundMidway(m: Levels, w: Widths, c: nat, d: nat, x: nat)
    requires c < CLASSES && w == ClassWidths(c) && Sound(m, w) && d < |w| && IsLeast(m[d], x)
    ensures Midway(Found(c, d, x), m, w) && Held(Found(c, d, x)).None?
  {
    if d + 1 == |w| {
      StaleFirst(m, w, x);
    }
  }

  lemma BeginInv(s: System, t: Thread, s': System)
    requires Inv(s) && Begin(s, t, s')
    ensures Inv(s')
  {
    var p := s.pc[t];
    var w: Widths, m := ClassWidths(p.c), s.pools[p.c];
    SteadyInside(s, t);
    if p.op.Give? {
      assert Holds(p, Block(p.c, p.op.x));
      assert Rising(m, m, w, |w|, p.op.x, p.op.x);
    }
    MoveInv(s, t, s');
  }

  lemma TopWord(m: Levels, w: Widths)
    requires Sound(m, w)
    ensures Word(m[0], w[0], 0) == m[0]
  {
    forall x | x in m[0] ensures x / w[0] == 0 {
      QuotientAbove(x, w[0], 1);
    }
  }

  /** The word below a bit that is set is not zero, and its lowest bit is the lowest of its level. */
  lemma ScanFinds(s: System, t: Thread)
    requires Inv(s) && t in s.pc && s.pc[t].Scanning?
    ensures var p := s.pc[t]; p.d < Depth(p.c)
    ensures var p := s.pc[t];
      var word := Word(s.pools[p.c][p.d], ClassWidths(p.c)[p.d], p.x);
      word != {} && IsLeast(s.pools[p.c][p.d], Lowest(word))
  {
    var p := s.pc[t];
    var w: Widths, m := ClassWidths(p.c), s.pools[p.c];
    SteadyInside(s, t);
    assert Midway(p, m, w);
    if p.d == 0 {
      TopWord(m, w);
    } else {
      assert Summarises(m, w, p.d - 1);
      ScanDown(m[p.d - 1], m[p.d], w[p.d], p.x);
    }
  }

  lemma ScanInv(s: System, t: Thread, s': System)
    requires Inv(s) && Scan(s, t, s')
    ensures Inv(s')
  {
    var p := s.pc[t];
    SteadyInside(s, t);
    ScanFinds(s, t);
    FoundMidway(s.pools[p.c], ClassWidths(p.c), p.c, p.d,
      Lowest(Word(s.pools[p.c][p.d], ClassWidths(p.c)[p.d], p.x)));
    MoveInv(s, t, s');
  }

  /** The first reset takes the block out of the free ones, the others change levels above. */
  lemma ResetFree(s: System, t: Thread, s': System)
    requires Inv(s) && Reset(s, t, s')
    ensures Shaped(s') && Bounded(s')
    ensures forall b :: Exists(b) ==> (IsFree(s', b) <==> IsFree(s, b) && !Holds(s'.pc[t], b))
    ensures forall b :: Holds(s'.pc[t], b) ==> Exists(b) && b !in s.live && (IsFree(s, b) || Holds(s.pc[t], b))
    ensures forall b :: Holds(s.pc[t], b) ==> Holds(s'.pc[t], b)
  {
    var p := s.pc[t];
    assert Midway(p, s.pools[p.c], ClassWidths(p.c));
    assert Holds(s'.pc[t], Block(p.c, p.x));
    if p.d + 1 < Depth(p.c) {
      assert Holds(p, Block(p.c, p.x)) && Free(s'.pools[p.c]) == Free(s.pools[p.c]);
    }
  }

  lemma ResetInv(s: System, t: Thread, s': System)
    requires Inv(s) && Reset(s, t, s')
    ensures Inv(s')
  {
    var p := s.pc[t];
    ResetFree(s, t, s');
    assert InSection(p, p.c) && Midway(p, s.pools[p.c], ClassWidths(p.c));
    ExclusiveNext(s, t, s');
    WorkingNext(s, t, s');
    SteadyNext(s, t, s');
    SeparateNext(s, t, s');
    AccountedNext(s, t, s');
  }

  lemma TestInv(s: System, t: Thread, s': System)
    requires Inv(s) && Test(s, t, s')
    ensures Inv(s')
  {
    var p := s.pc[t];
    var w: Widths, m := ClassWidths(p.c), s.pools[p.c];
    assert Midway(p, m, w);
    if p.d > 0 && Word(m[p.d], w[p.d], p.y / w[p.d]) == {} {
      StaleUp(m, w, p.d, p.y);
    } else {
      StaleDone(m, w, p.d, p.y);
    }
    MoveInv(s, t, s');
  }

  /** The bitmaps after one more bit of a deallocation. */
  lemma SetMidway(m: Levels, w: Widths, d: nat, x0: nat, x: nat)
    requires 0 < d <= |w| && |m| == |w| && SetUpTo(m, w, d, x0, x)
    ensures SetUpTo(m[d - 1 := m[d - 1] + {x}], w, d - 1, x0, x / w[d - 1]) && (d == |w| ==> x == x0)
  {
    var m0 :| Sound(m0, w) && Rising(m0, m, w, d, x0, x);
    RisingStep(m0, m, w, d, x0, x);
  }

  /** With all its bits set a deallocation leaves levels that agree. */
  lemma SetDone(m: Levels, w: Widths, x0: nat, x: nat)
    requires SetUpTo(m, w, 0, x0, x) && x0 < Capacity(w)
    ensures Sound(m, w)
  {
    var m0 :| Sound(m0, w) && Rising(m0, m, w, 0, x0, x);
    RisingDone(m0, m, w, x0, x);
  }

  /** The first bit that is set makes the block free, the others change levels above. */
  lemma SetFree(s: System, t: Thread, s': System)
    requires Inv(s) && Set(s, t, s') && s.pc[t].d > 0
    ensures Shaped(s') && Bounded(s') && Held(s'.pc[t]).None?
    ensures forall b :: Exists(b) ==> (IsFree(s', b) <==> IsFree(s, b) || Holds(s.pc[t], b))
  {
    var p := s.pc[t];
    assert Midway(p, s.pools[p.c], ClassWidths(p.c));
    if p.d == Depth(p.c) {
      SetMidway(s.pools[p.c], ClassWidths(p.c), p.d, p.x0, p.x);
      assert Holds(p, Block(p.c, p.x0));
    } else {
      assert Free(s'.pools[p.c]) == Free(s.pools[p.c]);
    }
  }

  lemma SetInv(s: System, t: Thread, s': System)
    requires Inv(s) && Set(s, t, s')
    ensures Inv(s')
  {
    var p := s.pc[t];
    var w: Widths, m := ClassWidths(p.c), s.pools[p.c];
    assert Midway(p, m, w) && InSection(p, p.c);
    if p.d == 0 {
      SetDone(m, w, p.x0, p.x);
      MoveInv(s, t, s');
    } else {
      SetMidway(m, w, p.d, p.x0, p.x);
      SetFree(s, t, s');
      ExclusiveNext(s, t, s');
      WorkingNext(s, t, s');
      SteadyNext(s, t, s');
      SeparateNext(s, t, s');
      AccountedNext(s, t, s');
    }
  }

  lemma UnlockInv(s: System, t: Thread, s': System)
    requires Inv(s) && Unlock(s, t, s')
    ensures Inv(s')
  {
    var p := s.pc[t];
    assert forall b :: Holds(p, b) <==> p.got.Some? && b == Block(p.c, p.got.value);
    if p.got.Some? {
      assert Holds(s.pc[t], Block(p.c, p.got.value));
    }
    assert InSection(p, p.c);
    ExclusiveNext(s, t, s');
    WorkingNext(s, t, s');
    SteadyNext(s, t, s');
    SeparateNext(s, t, s');
    AccountedNext(s, t, s');
  }

  lemma NextInv(s: System, t: Thread, s': System)
    requires Inv(s) && Next(s, t, s')
    ensures Inv(s')
  {
    if Exchange(s, t, s') {
      ExchangeInv(s, t, s');
    } else if Begin(s, t, s') {
      BeginInv(s, t, s');
    } else if Scan(s, t, s') {
      ScanInv(s, t, s');
    } else if Reset(s, t, s') {
      ResetInv(s, t, s');
    } else if Test(s, t, s') {
      TestInv(s, t, s');
    } else if Set(s, t, s') {
      SetInv(s, t, s');
    } else if Unlock(s, t, s') {
      UnlockInv(s, t, s');
    } else if c :| StartAlloc(s, t, c, s') {
      StartAllocInv(s, t, c, s');
    } else {
      var b :| StartFree(s, t, b, s');
      StartFreeInv(s, t, b, s');
    }
  }

  ghost predicate Run(states: seq<System>, threads: seq<Thread>) {
    && |states| == |threads| + 1 && Init(states[0])
    && forall k :: 0 <= k < |threads| ==> Next(states[k], threads[k], states[k + 1])
  }

  /** Every interleaving keeps the invariant. */
  lemma {:induction false} RunInv(states: seq<System>, threads: seq<Thread>, k: nat)
    requires Run(states, threads) && k < |states|
    ensures Inv(states[k])
  {
    if k == 0 {
      InitInv(states[0]);
    } else {
      RunInv(states, threads, k - 1);
      NextInv(states[k - 1], threads[k - 1], states[k]);
    }
  }

  /** In no interleaving does a bit scan meet a word that is zero, and it finds the lowest bit of the level. */
  lemma ScansFind(states: seq<System>, threads: seq<Thread>, k: nat, t: Thread)
    requires Run(states, threads) && k < |states| && t in states[k].pc && states[k].pc[t].Scanning?
    ensures Shaped(states[k]) && states[k].pc[t].d < Depth(states[k].pc[t].c)
    ensures var p := states[k].pc[t];
      var level := states[k].pools[p.c][p.d];
      var word := Word(level, ClassWidths(p.c)[p.d], p.x);
      word != {} && IsLeast(level, Lowest(word))
  {
    RunInv(states, threads, k);
    ScanFinds(states[k], t);
  }

  /** An allocation takes the lowest block that is free when its bit is reset. */
  lemma TakesLowest(states: seq<System>, threads: seq<Thread>, k: nat, t: Thread)
    requires Run(states, threads) && k < |states| && t in states[k].pc
    requires states[k].pc[t].Resetting? && states[k].pc[t].d + 1 == Depth(states[k].pc[t].c)
    ensures Shaped(states[k]) && IsLeast(Free(states[k].pools[states[k].pc[t].c]), states[k].pc[t].x)
  {
    RunInv(states, threads, k);
    assert Midway(states[k].pc[t], states[k].pools[states[k].pc[t].c], ClassWidths(states[k].pc[t].c));
  }

  /** While no thread is changing the bitmaps of a class, they are those `Pool.Alloc` and `Pool.Release` build. */
  lemma SteadyBuilt(states: seq<System>, threads: seq<Thread>, k: nat, c: nat)
    requires Run(states, threads) && k < |states| && c < CLASSES
    requires forall t :: t in states[k].pc ==> !InFlux(states[k].pc[t], c)
    ensures Shaped(states[k]) && states[k].pools[c] == Built(ClassWidths(c), Free(states[k].pools[c]))
  {
    RunInv(states, threads, k);
    BuiltSound(states[k].pools[c], ClassWidths(c));
  }

  /** The bitmap accesses are possible whenever a thread comes to them. */
  lemma CanAccess(s: System, t: Thread) returns (s': System)
    requires Inv(s) && t in s.pc && (s.pc[t].Scanning? || s.pc[t].Resetting? || s.pc[t].Testing? || s.pc[t].Setting?)
    ensures Scan(s, t, s') || Reset(s, t, s') || Test(s, t, s') || Set(s, t, s')
  {
    var p, m := s.pc[t], s.pools[s.pc[t].c];
    assert Midway(p, m, ClassWidths(p.c));
    match p
    case Scanning(c, d, x) =>
      ScanFinds(s, t);
      s' := s.(pc := s.pc[t := Found(c, d, Lowest(Word(m[d], ClassWidths(c)[d], x)))]);
    case Resetting(c, d, y, x) =>
      s' := s.(pools := s.pools[c := m[d := m[d] - {y}]], pc := s.pc[t := Testing(c, d, y, x)]);
    case Testing(c, d, y, x) =>
      var width := ClassWidths(c)[d];
      var next := if d > 0 && Word(m[d], width, y / width) == {} then Resetting(c, d - 1, y / width, x)
        else Leaving(c, Some(x));
      s' := s.(pc := s.pc[t := next]);
    case Setting(c, d, x0, x) =>
      if d == 0 {
        s' := s.(pc := s.pc[t := Leaving(c, None)]);
      } else {
        var next := Setting(c, d - 1, x0, x / ClassWidths(c)[d - 1]);
        s' := s.(pools := s.pools[c := m[d - 1 := m[d - 1] + {x}]], pc := s.pc[t := next]);
      }
  }

  /** No thread in a call is ever stuck. */
  lemma CanStep(states: seq<System>, threads: seq<Thread>, k: nat, t: Thread) returns (s': System)
    requires Run(states, threads) && k < |states| && t in states[k].pc && !states[k].pc[t].Idle?
    ensures Next(states[k], t, s')
  {
    RunInv(states, threads, k);
    var s, p := states[k], states[k].pc[t];
    if p.Locking? {
      var pc := if s.lock[p.c] == 0 then s.pc[t := Entered(p.c, p.op)] else s.pc;
      s' := s.(lock := s.lock[p.c := 1], pc := pc);
      assert Exchange(s, t, s');
    } else if p.Entered? {
      var next := match p.op
        case Take => if s.pools[p.c][0] == {} then Leaving(p.c, None) else Scanning(p.c, 0, 0)
        case Give(x) => Setting(p.c, Depth(p.c), x, x);
      s' := s.(pc := s.pc[t := next]);
      assert Begin(s, t, s');
    } else if p.Leaving? {
      var live := s.live + if p.got.Some? then {Block(p.c, p.got.value)} else {};
      s' := s.(lock := s.lock[p.c := 0], pc := s.pc[t := Idle], live := live);
      assert Unlock(s, t, s');
    } else {
      s' := CanAccess(s, t);
    }
  }

  /** In every reachable state at most one thread is inside a pool, and only while its lock is taken. */
  lemma MutualExclusion(states: seq<System>, threads: seq<Thread>, k: nat, t: Thread, u: Thread, c: nat)
    requires Run(states, threads) && k < |states| && t in states[k].pc && u in states[k].pc && c < CLASSES
    requires InSection(states[k].pc[t], c) && InSection(states[k].pc[u], c)
    ensures t == u && Shaped(states[k]) && states[k].lock[c] == 1
  {
    RunInv(states, threads, k);
  }

  /** The block an allocation is about to return is nobody else's, and has no byte in common with a live block
      or one another thread holds. */
  lemma AllocatedApart(states: seq<System>, threads: seq<Thread>, k: nat, t: Thread, b: Block, d: Block)
    requires Run(states, threads) && k < |states| && t in states[k].pc && Holds(states[k].pc[t], b)
    requires d in states[k].live || exists u :: u in states[k].pc && u != t && Holds(states[k].pc[u], d)
    ensures Exists(b) && Exists(d) && b != d
    ensures Address(b.c, b.x) + BlockSize(b.c) <= Address(d.c, d.x)
      || Address(d.c, d.x) + BlockSize(d.c) <= Address(b.c, b.x)
  {
    RunInv(states, threads, k);
    BlocksApart(b.c, b.x, d.c, d.x);
  }

  /** Live blocks have no byte in common. */
  lemma LiveApart(states: seq<System>, threads: seq<Thread>, k: nat, b: Block, d: Block)
    requires Run(states, threads) && k < |states| && b in states[k].live && d in states[k].live && b != d
    ensures Exists(b) && Exists(d)
    ensures Address(b.c, b.x) + BlockSize(b.c) <= Address(d.c, d.x)
      || Address(d.c, d.x) + BlockSize(d.c) <= Address(b.c, b.x)
  {
    RunInv(states, threads, k);
    BlocksApart(b.c, b.x, d.c, d.x);
  }

  /** The live blocks of a class. */
  function LiveOf(s: System, c: nat): set<nat> { set b | b in s.live && b.c == c :: b.x }

  /** The threads that have a block of a class on its way. */
  function Holders(s: System, c: nat): set<Thread> {
    set t | t in s.pc && Held(s.pc[t]).Some? && Held(s.pc[t]).value.c == c
  }

  /** The blocks that `ts` have on their way. */
  function HeldBy(s: System, ts: set<Thread>): set<nat>
    requires forall t :: t in ts ==> t in s.pc && Held(s.pc[t]).Some?
  {
    set t | t in ts :: Held(s.pc[t]).value.x
  }

  /** No two threads have the same block. */
  lemma {:induction false} HeldSize(s: System, ts: set<Thread>, c: nat)
    requires Shaped(s) && Separate(s) && ts <= Holders(s, c)
    ensures |HeldBy(s, ts)| == |ts|
  {
    if ts != {} {
      var t :| t in ts;
      var rest, x := ts - {t}, Held(s.pc[t]).value.x;
      HeldSize(s, rest, c);
      forall u | u in rest ensures Held(s.pc[u]).value.x != x {
        assert Holds(s.pc[t], Held(s.pc[t]).value) && Holds(s.pc[u], Held(s.pc[u]).value);
      }
      assert HeldBy(s, ts) == HeldBy(s, rest) + {x};
    }
  }

  /** Free blocks, live blocks and blocks on their way make up the pool of a class. */
  lemma Partitioned(s: System, c: nat)
    requires Inv(s) && c < CLASSES
    ensures AllBits(Blocks(c)) == Free(s.pools[c]) + LiveOf(s, c) + HeldBy(s, Holders(s, c))
    ensures Free(s.pools[c]) !! LiveOf(s, c) !! HeldBy(s, Holders(s, c))
  {
    forall x: nat | x < Blocks(c) ensures x in Free(s.pools[c]) + LiveOf(s, c) + HeldBy(s, Holders(s, c)) {
      var b := Block(c, x);
      assert Exists(b);
      if !IsFree(s, b) && b !in s.live {
        var t :| t in s.pc && Holds(s.pc[t], b);
        assert t in Holders(s, c);
      }
    }
    forall b | b in s.live && b.c == c ensures Exists(b) && !IsFree(s, b) {
    }
    forall t | t in Holders(s, c)
      ensures Held(s.pc[t]).value.x < Blocks(c) && !IsFree(s, Held(s.pc[t]).value) && Held(s.pc[t]).value !in s.live {
      assert Holds(s.pc[t], Held(s.pc[t]).value);
    }
  }

  /** No block is lost or counted twice: in every reachable state the free blocks of a class, its live blocks and
      the threads that have one on its way add up to the blocks of the class. */
  lemma Conserved(states: seq<System>, threads: seq<Thread>, k: nat, c: nat)
    requires Run(states, threads) && k < |states| && c < CLASSES
    ensures Shaped(states[k])
    ensures |Free(states[k].pools[c])| + |LiveOf(states[k], c)| + |Holders(states[k], c)| == Blocks(c)
  {
    RunInv(states, threads, k);
    var s := states[k];
    Partitioned(s, c);
    HeldSize(s, Holders(s, c), c);
    AllBitsSize(Blocks(c));
  }

  /** When no thread is inside a call, every block is either free or live, and the two counts add up. */
  lemma QuietConserves(states: seq<System>, threads: seq<Thread>, k: nat, c: nat)
    requires Run(states, threads) && k < |states| && c < CLASSES
    requires forall t :: t in states[k].pc ==> states[k].pc[t].Idle?
    ensures Shaped(states[k])
    ensures forall x: nat :: x < Blocks(c) ==> (x in Free(states[k].pools[c]) <==> Block(c, x) !in states[k].live)
    ensures |Free(states[k].pools[c])| + |LiveOf(states[k], c)| == Blocks(c)
  {
    Conserved(states, threads, k, c);
    RunInv(states, threads, k);
    assert Holders(states[k], c) == {};
    forall x: nat | x < Blocks(c) ensures x in Free(states[k].pools[c]) <==> Block(c, x) !in states[k].live {
      assert Exists(Block(c, x));
    }
  }
}
