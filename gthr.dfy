/** The thread control table of gthr.c as mutable state: the global array
    g_gttbl and the cursor g_gtcur, with the operations that update them in
    place. Each method is proved to perform the step that GThreadSpec
    describes, so the lemmas stated there hold of the runtime. */
module GThreads {
  import opened GThreadSpec

  class ThreadTable {
    /** g_gttbl: one control block per slot. */
    const slots: array<Slot>
    /** g_gtcur: the current slot; None is the null pointer before gt_init. */
    var cur: Option<nat>

    ghost predicate Valid()
      reads this, slots
    {
      slots.Length == MaxGThreads &&
      TidsMatch(slots[..]) &&
      (cur.Some? ==> cur.value < MaxGThreads && slots[cur.value].tid == cur.value)
    }

    /** At most one slot is Running, and a Running slot is the current one. */
    ghost predicate SingleRunning()
      reads this, slots
    {
      RunningOnlyAt(slots[..], cur)
    }

    /** The table as the program starts: zero-initialised, no current thread. */
    constructor ()
      ensures Valid() && SingleRunning() && fresh(slots)
      ensures slots[..] == Blank(MaxGThreads) && cur == None
    {
      slots := new Slot[MaxGThreads](i => Slot(Unused, 0));
      cur := None;
    }

    /** gt_init: slot 0 becomes the current, Running bootstrap thread. */
    method Init()
      requires Valid()
      modifies this, slots
      ensures Valid() && cur == Some(0)
      ensures slots[..] == InitSpec(old(slots[..]))
      ensures (forall i :: 0 < i < MaxGThreads ==> old(slots[i]).state != Running) ==> SingleRunning()
    {
      InitInstallsBootstrap(slots[..]);
      cur := Some(0);
      slots[0] := Slot(Running, 0);
      assert slots[..] == InitSpec(old(slots[..]));
    }

    /** gt_go: first-fit creation of a thread; stackAllocated is whether the
        stack allocation succeeded. Returns 0 on success and -1 otherwise. */
    method Go(stackAllocated: bool) returns (r: int)
      requires Valid()
      modifies slots
      ensures Valid()
      ensures var g := GoSpec(old(slots[..]), stackAllocated);
        slots[..] == g.table && r == g.result
      ensures old(SingleRunning()) ==> SingleRunning()
    {
      ghost var s := slots[..];
      GoKeepsInvariants(s, stackAllocated, cur);
      var i := 0;
      while i < MaxGThreads && slots[i].state != Unused
        invariant 0 <= i <= MaxGThreads
        invariant forall j :: 0 <= j < i ==> slots[j].state != Unused
      {
        i := i + 1;
      }
      if i == MaxGThreads {
        assert FirstUnused(s, 0).None?;
        return -1;
      }
      assert FirstUnused(s, 0) == Some(i);
      if !stackAllocated {
        return -1;
      }
      slots[i] := Slot(Ready, i);
      assert slots[..] == s[i := Slot(Ready, i)];
      r := 0;
    }

    /** gt_yield: circular scan from the cursor for a Ready slot. Returns
        minus the number of Blocked or Suspended slots when there is none,
        otherwise dispatches the found slot and returns 1 (the context
        switch itself is just the change of cursor). */
    method Yield() returns (r: int)
      requires Valid() && cur.Some?
      modifies this, slots
      ensures Valid() && cur.Some?
      ensures var y := YieldSpec(old(slots[..]), old(cur.value));
        slots[..] == y.table && cur == Some(y.cur) && r == y.result
      ensures r == 1 ==> slots[cur.value].state == Running
      ensures old(SingleRunning()) ==> SingleRunning()
    {
      ghost var s := slots[..];
      var c := cur.value;
      var p := c;
      var noReady := 0;
      ghost var k := 0;
      while slots[p].state != Ready
        invariant 0 <= k < MaxGThreads && p == Circ(MaxGThreads, c, k)
        invariant unchanged(slots) && cur == Some(c)
        invariant forall j :: 0 <= j < k ==> s[Circ(MaxGThreads, c, j)].state != Ready
        invariant noReady == Seen(s, c, k)
        decreases MaxGThreads - k
      {
        if slots[p].state == Blocked || slots[p].state == Suspended {
          noReady := noReady + 1;
        }
        p := p + 1;
        if p == MaxGThreads {
          p := 0;
        }
        k := k + 1;
        if p == c {
          ScanExhausted(s, c);
          YieldKeeps(s, c);
          return -noReady;
        }
      }
      ScanFound(s, c, k);
      YieldKeeps(s, c);
      ghost var demoted := if s[c].state == Running then s[c := s[c].(state := Ready)] else s;
      if slots[c].state == Running {
        slots[c] := slots[c].(state := Ready);
      }
      assert slots[..] == demoted;
      slots[p] := slots[p].(state := Running);
      cur := Some(p);
      r := 1;
    }

    /** gt_ret: a non-bootstrap thread exits by marking its slot Unused and
        yielding; on the bootstrap slot nothing happens. */
    method Ret() returns (o: ExitOutcome)
      requires Valid() && cur.Some?
      modifies this, slots
      ensures Valid() && cur.Some?
      ensures var e := ExitSpec(old(slots[..]), old(cur.value));
        slots[..] == e.table && cur == Some(e.cur) && o == e.outcome
      ensures old(SingleRunning()) ==> SingleRunning()
    {
      var c := cur.value;
      ghost var s := slots[..];
      ExitKeepsTids(s, c);
      if c != 0 {
        if RunningOnlyAt(s, Some(c)) {
          ExitSwitchesAway(s, c);
        }
        slots[c] := slots[c].(state := Unused);
        assert slots[..] == s[c := s[c].(state := Unused)];
        var y := Yield();
        // With y != 1 control reaches assert(!"reachable"), which aborts
        // unless NDEBUG is defined.
        o := if y == 1 then SwitchedAway else Aborted;
      } else {
        o := Stayed;
      }
    }

    /** gt_stop: the return address of every created thread; it exits the
        thread like gt_ret. */
    method Stop() returns (o: ExitOutcome)
      requires Valid() && cur.Some?
      modifies this, slots
      ensures Valid() && cur.Some?
      ensures var e := ExitSpec(old(slots[..]), old(cur.value));
        slots[..] == e.table && cur == Some(e.cur) && o == e.outcome
      ensures old(SingleRunning()) ==> SingleRunning()
    {
      o := Ret();
    }

    /** gt_gettid: the tid of the current slot, which is its index. */
    method GetTid() returns (t: nat)
      requires Valid() && cur.Some?
      ensures t == slots[cur.value].tid && t == cur.value
    {
      t := slots[cur.value].tid;
    }
  }
}
