/**
 * The backing keyed object pool, reduced to what the orchestrator observes of it:
 * per-address counts of idle and checked-out connections, and whether it is closed.
 * A missing key counts as zero.
 */
module BackingPool {
  import opened Common

  datatype KeyedPool = KeyedPool(idle: map<Address, int>, active: map<Address, int>, closed: bool)
  {
    /** `getNumIdle(address)` */
    function Idle(a: Address): int
    {
      if a in idle then idle[a] else 0
    }

    /** `getNumActive(address)` */
    function Active(a: Address): int
    {
      if a in active then active[a] else 0
    }

    /** `clear(address)`: the idle connections of one address are destroyed. */
    function Clear(a: Address): (p: KeyedPool)
      ensures p.Idle(a) == 0
      ensures forall b :: b != a ==> p.Idle(b) == Idle(b)
      ensures p.active == active && p.closed == closed
    {
      this.(idle := idle[a := 0])
    }

    /** `preparePool(address, true)`: idle connections are created up to the minimum while the pool
        is open; a closed pool creates none. */
    function EnsureMinIdle(a: Address, minIdle: int): (p: KeyedPool)
      ensures p.Idle(a) == if closed then Idle(a) else Max(Idle(a), minIdle)
      ensures forall b :: b != a ==> p.Idle(b) == Idle(b)
      ensures p.active == active && p.closed == closed
    {
      if closed || Idle(a) >= minIdle then this else this.(idle := idle[a := minIdle])
    }

    /** `preparePool` for each address of `s` in turn. */
    function PrepareAll(s: seq<Address>, minIdle: int): KeyedPool
    {
      if s == [] then this else PrepareAll(s[..|s| - 1], minIdle).EnsureMinIdle(s[|s| - 1], minIdle)
    }

    /** Preparing a list of addresses tops up exactly the listed ones while the pool is open, whatever
        the order or repetitions, and nothing at all once it is closed. */
    lemma {:induction false} PrepareAllIdle(s: seq<Address>, minIdle: int)
      ensures forall a :: PrepareAll(s, minIdle).Idle(a) == if a in s && !closed then Max(Idle(a), minIdle) else Idle(a)
      ensures PrepareAll(s, minIdle).active == active && PrepareAll(s, minIdle).closed == closed
      decreases |s|
    {
      if s != [] {
        var init := s[..|s| - 1];
        PrepareAllIdle(init, minIdle);
        forall a
          ensures PrepareAll(s, minIdle).Idle(a) == if a in s && !closed then Max(Idle(a), minIdle) else Idle(a)
        {
          assert a in s <==> a in init || a == s[|s| - 1] by {
            assert s == init + [s[|s| - 1]];
          }
        }
      }
    }

    /** `borrowObject(address)` that succeeds: an idle connection is reused, or a new one is made. */
    function Borrow(a: Address): (p: KeyedPool)
      ensures p.Active(a) == Active(a) + 1
      ensures Idle(a) > 0 ==> p.Idle(a) == Idle(a) - 1
      ensures Idle(a) <= 0 ==> p.Idle(a) == Idle(a)
      ensures forall b :: b != a ==> p.Idle(b) == Idle(b) && p.Active(b) == Active(b)
      ensures p.closed == closed
    {
      var taken := if Idle(a) > 0 then this.(idle := idle[a := Idle(a) - 1]) else this;
      taken.(active := active[a := Active(a) + 1])
    }

    /** `returnObject(address, c)` with validation on return: a valid connection goes back to idle
        while the pool is open; an invalid one, or any one returned to a closed pool, is destroyed. */
    function Return(a: Address, valid: bool): (p: KeyedPool)
      ensures p.Active(a) == Active(a) - 1
      ensures p.Idle(a) == if valid && !closed then Idle(a) + 1 else Idle(a)
      ensures forall b :: b != a ==> p.Idle(b) == Idle(b) && p.Active(b) == Active(b)
      ensures p.closed == closed
    {
      var back := if valid && !closed then this.(idle := idle[a := Idle(a) + 1]) else this;
      back.(active := active[a := Active(a) - 1])
    }

    /** `close()`: every idle connection is destroyed and no further borrow is possible. */
    function Close(): (p: KeyedPool)
      ensures p.closed
      ensures forall a :: p.Idle(a) == 0 && p.Active(a) == Active(a)
    {
      KeyedPool(map[], active, true)
    }
  }

  /** Returning a valid connection right after borrowing it from an idle slot restores every count. */
  lemma BorrowThenReturnRestores(p: KeyedPool, a: Address)
    requires !p.closed && p.Idle(a) > 0
    ensures var q := p.Borrow(a).Return(a, true);
            q.closed == p.closed && forall b :: q.Idle(b) == p.Idle(b) && q.Active(b) == p.Active(b)
  {
  }

  /** Returning a connection that was newly created on borrow leaves one more idle connection. */
  lemma BorrowNewThenReturnAddsIdle(p: KeyedPool, a: Address)
    requires !p.closed && p.Idle(a) == 0
    ensures p.Borrow(a).Return(a, true).Idle(a) == 1
    ensures p.Borrow(a).Return(a, true).Active(a) == p.Active(a)
  {
  }

  /** After `close()`, a connection handed back is destroyed, valid or not: nothing is idle again. */
  lemma ReturnAfterCloseKeepsNoIdle(p: KeyedPool, a: Address, valid: bool)
    ensures p.Close().Return(a, valid).Idle(a) == 0
    ensures p.Close().Return(a, valid).Active(a) == p.Active(a) - 1
  {
  }

  /** Preparing any list of addresses after `close()` leaves the pool closed and without idle connections. */
  lemma {:induction false} PrepareAfterCloseKeepsNoIdle(p: KeyedPool, s: seq<Address>, minIdle: int)
    ensures p.Close().PrepareAll(s, minIdle).closed
    ensures forall a :: p.Close().PrepareAll(s, minIdle).Idle(a) == 0
  {
    p.Close().PrepareAllIdle(s, minIdle);
  }
}
