/** Whole runs of the page manager: blocks taken and given back in any order. */
module PoolRuns {
  import opened Pages
  import opened Sequences
  import opened Buddy
  import opened Donate

  /** The free lists and the blocks that callers hold. */
  datatype State = State(pool: Pool, taken: set<Block>)

  datatype Op = Take(level: nat) | Give(block: Block)

  predicate InBlock(b: Block, x: nat) {
    Base(x, b.level) == b.page
  }

  ghost predicate IsTaken(s: State, x: nat) {
    exists b :: b in s.taken && InBlock(b, x)
  }

  /** The page is accounted for: free or in a block that somebody holds. */
  ghost predicate Known(s: State, x: nat)
    requires |s.pool| == TOTAL_LEVEL
  {
    IsFree(s.pool, x) || IsTaken(s, x)
  }

  ghost predicate TopRunOpen(s: State, q: nat)
    requires |s.pool| == TOTAL_LEVEL
  {
    exists x: nat :: Base(x, TOTAL_LEVEL) == Base(q, TOTAL_LEVEL) && !Known(s, x)
  }

  /** A block that is held: aligned, inside memory, none of its pages free. */
  ghost predicate HeldWell(s: State, limit: nat, b: Block)
    requires |s.pool| == TOTAL_LEVEL
  {
    b.level < TOTAL_LEVEL && Aligned(b.page, b.level) && b.page + Pow2(b.level) <= limit
    && BlockTaken(s.pool, b.page, b.level)
  }

  ghost predicate SInv(s: State, limit: nat) {
    && |s.pool| == TOTAL_LEVEL
    && Inv(s.pool, limit)
    && (forall b {:trigger b in s.taken} :: b in s.taken ==> HeldWell(s, limit, b))
    && (forall b, c, x :: b in s.taken && c in s.taken && InBlock(b, x) && InBlock(c, x) ==> b == c)
    && (forall q: nat {:trigger TopRunOpen(s, q)} :: TopRunOpen(s, q))
  }

  ghost function Step(s: State, limit: nat, op: Op): State
    requires SInv(s, limit)
  {
    match op
    case Take(k) =>
      var (page, pool) := Alloc(s.pool, k);
      if page == None || pool == None then s
      else State(pool.value, s.taken + {Block(page.value, k)})
    case Give(b) =>
      if b !in s.taken then s
      else
        GiveFits(s, limit, b);
        State(Free(s.pool, b.page, b.level).value, s.taken - {b})
  }

  lemma GiveFits(s: State, limit: nat, b: Block)
    requires SInv(s, limit) && b in s.taken
    ensures HeldWell(s, limit, b) && Free(s.pool, b.page, b.level).Some?
  {
    FreeOverflowsIff(s.pool, limit, b.page, b.level);
    assert TopRunOpen(s, b.page);
    var x: nat :| Base(x, TOTAL_LEVEL) == Base(b.page, TOTAL_LEVEL) && !Known(s, x);
    assert !InBlock(b, x);
  }

  lemma TakeKeeps(s: State, limit: nat, k: nat)
    requires SInv(s, limit)
    ensures SInv(Step(s, limit, Take(k)), limit)
    ensures forall x: nat :: Known(Step(s, limit, Take(k)), x) <==> Known(s, x)
  {
    if Alloc(s.pool, k).0.Some? {
      AllocTakesBlock(s.pool, limit, k);
      var b := Block(Alloc(s.pool, k).0.value, k);
      var t := Step(s, limit, Take(k));
      assert t.taken == s.taken + {b};
      forall x: nat ensures IsTaken(t, x) <==> IsTaken(s, x) || InBlock(b, x) {
        if IsTaken(s, x) {
          var c :| c in s.taken && InBlock(c, x);
          assert c in t.taken;
        }
        assert b in t.taken;
      }
      forall x: nat ensures InBlock(b, x) ==> IsFree(s.pool, x) {
        assert Base(b.page, k) == b.page;
      }
      AllocBelowTop(s.pool, k);
      forall c | c in s.taken ensures HeldWell(t, limit, c) && forall x :: InBlock(c, x) ==> !InBlock(b, x) {
        assert HeldWell(s, limit, c);
      }
      TopsStay(s, t);
    } else {
      AllocSucceedsIff(s.pool, k);
    }
  }

  lemma {:induction false} AllocBelowTop(pool: Pool, k: nat)
    requires |pool| == TOTAL_LEVEL && Alloc(pool, k).0.Some?
    ensures k < TOTAL_LEVEL
  {
  }

  lemma TopsStay(s: State, t: State)
    requires |s.pool| == |t.pool| == TOTAL_LEVEL && forall q: nat :: TopRunOpen(s, q)
    requires forall x: nat :: Known(t, x) <==> Known(s, x)
    ensures forall q: nat :: TopRunOpen(t, q)
  {
    forall q: nat ensures TopRunOpen(t, q) {
      assert TopRunOpen(s, q);
    }
  }

  lemma GiveKeeps(s: State, limit: nat, b: Block)
    requires SInv(s, limit) && b in s.taken
    ensures SInv(Step(s, limit, Give(b)), limit)
    ensures forall x: nat :: Known(Step(s, limit, Give(b)), x) <==> Known(s, x)
  {
    GiveFits(s, limit, b);
    FreeAddsBlock(s.pool, limit, b.page, b.level);
    var t := Step(s, limit, Give(b));
    forall x: nat ensures IsTaken(s, x) <==> IsTaken(t, x) || InBlock(b, x) {
      if IsTaken(s, x) {
        var c :| c in s.taken && InBlock(c, x);
        assert c == b || c in t.taken;
      }
    }
    forall c | c in t.taken ensures HeldWell(t, limit, c) {
      assert HeldWell(s, limit, c);
      assert forall x :: InBlock(c, x) ==> !InBlock(b, x);
      forall x | Base(x, c.level) == c.page ensures !IsFree(t.pool, x) {
        assert InBlock(c, x);
      }
    }
    TopsStay(s, t);
  }

  ghost function Run(s: State, limit: nat, ops: seq<Op>): (t: State)
    requires SInv(s, limit)
    ensures SInv(t, limit)
    decreases ops
  {
    if ops == [] then s
    else
      StepKeeps(s, limit, ops[0]);
      Run(Step(s, limit, ops[0]), limit, ops[1..])
  }

  lemma StepKeeps(s: State, limit: nat, op: Op)
    requires SInv(s, limit)
    ensures SInv(Step(s, limit, op), limit)
    ensures forall x: nat :: Known(Step(s, limit, op), x) <==> Known(s, x)
  {
    match op
    case Take(k) => TakeKeeps(s, limit, k);
    case Give(b) =>
      if b in s.taken {
        GiveKeeps(s, limit, b);
      }
  }

  /** Over any run, held blocks stay aligned and disjoint from each other and from the free
      pages (SInv of the result), and no page is ever lost or gained. */
  lemma {:induction false} RunConserves(s: State, limit: nat, ops: seq<Op>)
    requires SInv(s, limit)
    ensures forall x: nat :: Known(Run(s, limit, ops), x) <==> Known(s, x)
    decreases ops
  {
    if ops != [] {
      StepKeeps(s, limit, ops[0]);
      RunConserves(Step(s, limit, ops[0]), limit, ops[1..]);
    }
  }

  /** Two histories after which the same blocks are held leave the same free blocks on every
      level, whatever splitting and coalescing happened on the way. */
  lemma HistoryForgotten(s: State, limit: nat, ops: seq<Op>, others: seq<Op>, k: nat, p: nat)
    requires SInv(s, limit) && k < TOTAL_LEVEL
    requires Run(s, limit, ops).taken == Run(s, limit, others).taken
    ensures p in Run(s, limit, ops).pool[k] <==> p in Run(s, limit, others).pool[k]
  {
    RunConserves(s, limit, ops);
    RunConserves(s, limit, others);
    var a, b := Run(s, limit, ops), Run(s, limit, others);
    forall x: nat ensures IsFree(a.pool, x) <==> IsFree(b.pool, x) {
      FreeOrTaken(a, limit, x);
      FreeOrTaken(b, limit, x);
      assert IsTaken(a, x) <==> IsTaken(b, x);
      assert Known(a, x) <==> Known(b, x);
    }
    Canonical(a.pool, b.pool, limit, k, p);
  }

  lemma FreeOrTaken(s: State, limit: nat, x: nat)
    requires SInv(s, limit)
    ensures IsFree(s.pool, x) ==> !IsTaken(s, x)
  {
    if b :| b in s.taken && InBlock(b, x) {
      assert HeldWell(s, limit, b);
    }
  }

  /** The state right after the donations: nothing taken. */
  lemma StartWell(pool: Pool, limit: nat)
    requires Inv(pool, limit)
    ensures SInv(State(pool, {}), limit)
  {
    var s := State(pool, {});
    forall q: nat ensures TopRunOpen(s, q) {
      TopRunNotFree(pool, limit, q);
      var x: nat :| Base(x, TOTAL_LEVEL) == Base(q, TOTAL_LEVEL) && !IsFree(pool, x);
      assert !Known(s, x);
    }
  }
}
