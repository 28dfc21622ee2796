/** Value-level model of the green-thread control table of gthr.c.

    The table g_gttbl is a sequence of slots; the cursor g_gtcur is the index
    of the current slot. Every operation of the runtime that changes the
    table is described here by a function from the old table (and cursor)
    to the new one; the class in gthr.dfy is proved to follow them, and the
    lemmas below state what the runtime promises about them. */
module GThreadSpec {

  /** Capacity of the thread table (MaxGThreads). */
  const MaxGThreads: nat := 10

  datatype Option<T> = None | Some(value: T)

  /** The thread states, in declaration order (Unused is the zero value). */
  datatype ThreadState = Unused | Running | Ready | Blocked | Suspended

  /** The part of a control block the dispatcher reads and writes: the saved
      registers, the name and the argument are not modelled. */
  datatype Slot = Slot(state: ThreadState, tid: nat)

  /** States that gt_yield counts when it finds nothing to dispatch. */
  predicate Waiting(st: ThreadState) {
    st == Blocked || st == Suspended
  }

  /** The table as C static initialisation leaves it: every slot Unused,
      every tid 0. */
  function Blank(n: nat): (s: seq<Slot>)
    ensures |s| == n && forall i :: 0 <= i < n ==> s[i] == Slot(Unused, 0)
  {
    seq(n, i => Slot(Unused, 0))
  }

  // ---------------------------------------------------------------------
  // Invariants of the table

  /** Every Running slot is the cursor's (so at most one slot is Running). */
  ghost predicate RunningOnlyAt(s: seq<Slot>, cur: Option<nat>) {
    forall i :: 0 <= i < |s| && s[i].state == Running ==> cur == Some(i)
  }

  /** Every slot in use carries its own index as tid. */
  ghost predicate TidsMatch(s: seq<Slot>) {
    forall i :: 0 <= i < |s| && s[i].state != Unused ==> s[i].tid == i
  }

  predicate AnyReady(s: seq<Slot>) {
    exists i :: 0 <= i < |s| && s[i].state == Ready
  }

  predicate AnyUnused(s: seq<Slot>) {
    exists i :: 0 <= i < |s| && s[i].state == Unused
  }

  // ---------------------------------------------------------------------
  // Circular order

  /** The slot reached after k steps of a scan that starts at c and wraps
      around at n. */
  function Circ(n: nat, c: nat, k: nat): (i: nat)
    requires c < n && k <= n
    ensures i < n
  {
    if c + k < n then c + k else c + k - n
  }

  /** How many steps a scan from c needs to reach slot i. */
  function Offset(n: nat, c: nat, i: nat): (k: nat)
    requires c < n && i < n
    ensures k < n && Circ(n, c, k) == i
    ensures k == 0 <==> i == c
  {
    if c <= i then i - c else i + n - c
  }

  lemma OffsetOfCirc(n: nat, c: nat, k: nat)
    requires c < n && k < n
    ensures Offset(n, c, Circ(n, c, k)) == k
  {
  }

  /** The table listed in the order of a scan from c. */
  function Rotate(s: seq<Slot>, c: nat): seq<Slot>
    requires c <= |s|
  {
    s[c..] + s[..c]
  }

  lemma RotateAt(s: seq<Slot>, c: nat, k: nat)
    requires c < |s| && k < |s|
    ensures |Rotate(s, c)| == |s| && Rotate(s, c)[k] == s[Circ(|s|, c, k)]
  {
    if c + k >= |s| {
      assert Rotate(s, c)[k] == s[..c][k - (|s| - c)];
    }
  }

  // ---------------------------------------------------------------------
  // Counting Blocked and Suspended slots

  /** Number of Blocked or Suspended slots. */
  function NotReady(s: seq<Slot>): (n: nat)
    ensures n <= |s|
    ensures n == 0 <==> forall i :: 0 <= i < |s| ==> !Waiting(s[i].state)
  {
    if s == [] then 0
    else
      assert forall i :: 1 <= i < |s| ==> s[i] == s[1..][i - 1];
      (if Waiting(s[0].state) then 1 else 0) + NotReady(s[1..])
  }

  lemma {:induction false} NotReadyAppend(a: seq<Slot>, b: seq<Slot>)
    ensures NotReady(a + b) == NotReady(a) + NotReady(b)
  {
    if a == [] {
      assert a + b == b;
    } else {
      assert (a + b)[1..] == a[1..] + b;
      NotReadyAppend(a[1..], b);
    }
  }

  /** Counting one more slot of a prefix adds at most that slot. */
  lemma NotReadyPrefix(a: seq<Slot>, k: nat)
    requires k < |a|
    ensures NotReady(a[..k + 1]) == NotReady(a[..k]) + (if Waiting(a[k].state) then 1 else 0)
  {
    assert a[..k + 1] == a[..k] + [a[k]];
    NotReadyAppend(a[..k], [a[k]]);
  }

  /** The count does not depend on where the circular scan starts. */
  lemma NotReadyRotate(s: seq<Slot>, c: nat)
    requires c <= |s|
    ensures NotReady(Rotate(s, c)) == NotReady(s)
  {
    NotReadyAppend(s[c..], s[..c]);
    NotReadyAppend(s[..c], s[c..]);
    assert s[..c] + s[c..] == s;
  }

  // ---------------------------------------------------------------------
  // The circular search of gt_yield

  /** j is the first Ready slot met by a scan that starts at c itself and
      goes upward with wrap-around. */
  ghost predicate FirstReadyFrom(s: seq<Slot>, c: nat, j: nat)
    requires c < |s|
  {
    j < |s| && s[j].state == Ready &&
    forall i :: 0 <= i < |s| && Offset(|s|, c, i) < Offset(|s|, c, j) ==> s[i].state != Ready
  }

  /** Steps from c (at least k) to the first Ready slot, if any. */
  function ReadyOffset(s: seq<Slot>, c: nat, k: nat): (d: Option<nat>)
    requires c < |s| && k <= |s|
    ensures d.Some? ==> k <= d.value < |s| && s[Circ(|s|, c, d.value)].state == Ready
    ensures forall j :: k <= j < |s| && (d.None? || j < d.value) ==> s[Circ(|s|, c, j)].state != Ready
    decreases |s| - k
  {
    if k == |s| then None
    else if s[Circ(|s|, c, k)].state == Ready then Some(k)
    else ReadyOffset(s, c, k + 1)
  }

  /** The slot gt_yield dispatches next, or None when no slot is Ready. */
  function Pick(s: seq<Slot>, c: nat): (r: Option<nat>)
    requires c < |s|
    ensures r.None? <==> !AnyReady(s)
    ensures r.Some? ==> FirstReadyFrom(s, c, r.value)
  {
    match ReadyOffset(s, c, 0)
    case None =>
      assert forall i :: 0 <= i < |s| ==> s[i].state != Ready by {
        forall i | 0 <= i < |s| ensures s[i].state != Ready {
          assert s[Circ(|s|, c, Offset(|s|, c, i))].state != Ready;
        }
      }
      None
    case Some(d) =>
      var j := Circ(|s|, c, d);
      OffsetOfCirc(|s|, c, d);
      assert forall i :: 0 <= i < |s| && Offset(|s|, c, i) < d ==> s[i].state != Ready by {
        forall i | 0 <= i < |s| && Offset(|s|, c, i) < d ensures s[i].state != Ready {
          assert s[Circ(|s|, c, Offset(|s|, c, i))].state != Ready;
        }
      }
      Some(j)
  }

  /** At most one slot is the first Ready one from a given start. */
  lemma FirstReadyUnique(s: seq<Slot>, c: nat, j: nat, k: nat)
    requires c < |s| && FirstReadyFrom(s, c, j) && FirstReadyFrom(s, c, k)
    ensures j == k
  {
  }

  // ---------------------------------------------------------------------
  // gt_yield

  /** A dispatch step: the new table, the new cursor, the returned value. */
  datatype AfterYield = AfterYield(table: seq<Slot>, cur: nat, result: int)

  /** Demote the current slot if Running, then make slot j Running. */
  function Switch(s: seq<Slot>, c: nat, j: nat): (t: seq<Slot>)
    requires c < |s| && j < |s|
    ensures |t| == |s| && t[j].state == Running
    ensures forall i :: 0 <= i < |s| ==> t[i].tid == s[i].tid
    ensures forall i :: 0 <= i < |s| && i != c && i != j ==> t[i] == s[i]
  {
    var demoted := if s[c].state == Running then s[c := s[c].(state := Ready)] else s;
    demoted[j := demoted[j].(state := Running)]
  }

  /** gt_yield from cursor c. */
  function YieldSpec(s: seq<Slot>, c: nat): (y: AfterYield)
    requires c < |s|
    ensures |y.table| == |s| && y.cur < |s|
    ensures y.result == 1 || -(|s| as int) <= y.result <= 0
  {
    match Pick(s, c)
    case None => AfterYield(s, c, -(NotReady(s) as int))
    case Some(j) => AfterYield(Switch(s, c, j), j, 1)
  }

  /** Blocked or Suspended slots met in the first k steps of a scan from c:
      the value of l_no_ready after k turns of the loop of gt_yield. */
  function Seen(s: seq<Slot>, c: nat, k: nat): (n: nat)
    requires c < |s| && k <= |s|
    ensures n <= k
  {
    if k == 0 then 0
    else Seen(s, c, k - 1) + (if Waiting(s[Circ(|s|, c, k - 1)].state) then 1 else 0)
  }

  lemma {:induction false} SeenInScanOrder(s: seq<Slot>, c: nat, k: nat)
    requires c < |s| && k <= |s|
    ensures Seen(s, c, k) == NotReady(Rotate(s, c)[..k])
  {
    if k > 0 {
      SeenInScanOrder(s, c, k - 1);
      RotateAt(s, c, k - 1);
      NotReadyPrefix(Rotate(s, c), k - 1);
    }
  }

  /** Once the scan has been all the way round it has counted every Blocked
      or Suspended slot of the table exactly once. */
  lemma SeenAll(s: seq<Slot>, c: nat)
    requires c < |s|
    ensures Seen(s, c, |s|) == NotReady(s)
  {
    SeenInScanOrder(s, c, |s|);
    assert Rotate(s, c)[..|s|] == Rotate(s, c);
    NotReadyRotate(s, c);
  }

  /** A scan that meets a Ready slot after k steps, and none before,
      dispatches that slot. */
  lemma ScanFound(s: seq<Slot>, c: nat, k: nat)
    requires c < |s| && k < |s| && s[Circ(|s|, c, k)].state == Ready
    requires forall j :: 0 <= j < k ==> s[Circ(|s|, c, j)].state != Ready
    ensures YieldSpec(s, c) == AfterYield(Switch(s, c, Circ(|s|, c, k)), Circ(|s|, c, k), 1)
  {
    assert ReadyOffset(s, c, 0) == Some(k);
  }

  /** A scan that goes all the way round without meeting a Ready slot
      returns minus what it counted. */
  lemma ScanExhausted(s: seq<Slot>, c: nat)
    requires c < |s|
    requires forall j :: 0 <= j < |s| ==> s[Circ(|s|, c, j)].state != Ready
    ensures YieldSpec(s, c) == AfterYield(s, c, -(Seen(s, c, |s|) as int))
  {
    assert ReadyOffset(s, c, 0).None?;
    SeenAll(s, c);
  }

  /** With no Ready slot, gt_yield changes nothing and returns minus the
      number of Blocked or Suspended slots of the whole table (0 if none). */
  lemma YieldIdle(s: seq<Slot>, c: nat)
    requires c < |s|
    ensures var y := YieldSpec(s, c);
      (!AnyReady(s) <==> y.result <= 0) &&
      (!AnyReady(s) ==>
        y.table == s && y.cur == c && y.result == -(NotReady(s) as int) &&
        (y.result == 0 <==> forall i :: 0 <= i < |s| ==> !Waiting(s[i].state)))
  {
  }

  /** With some Ready slot, gt_yield returns 1, makes the first Ready slot in
      circular order from the cursor Running and current, demotes the old
      current slot to Ready only if it was Running, and leaves every other
      slot (and every tid) as it was. */
  lemma YieldDispatch(s: seq<Slot>, c: nat)
    requires c < |s| && AnyReady(s)
    ensures var y := YieldSpec(s, c);
      y.result == 1 && |y.table| == |s| &&
      FirstReadyFrom(s, c, y.cur) &&
      y.table[y.cur] == Slot(Running, s[y.cur].tid) &&
      (y.cur != c ==> y.table[c] == (if s[c].state == Running then s[c].(state := Ready) else s[c])) &&
      (forall i :: 0 <= i < |s| && i != c && i != y.cur ==> y.table[i] == s[i])
  {
  }

  /** gt_yield keeps "only the cursor may be Running"; after a switch the new
      cursor is the one Running slot. */
  lemma YieldKeepsSingleRunning(s: seq<Slot>, c: nat)
    requires c < |s| && RunningOnlyAt(s, Some(c))
    ensures var y := YieldSpec(s, c);
      RunningOnlyAt(y.table, Some(y.cur)) &&
      (y.result == 1 ==> y.table[y.cur].state == Running)
  {
  }

  /** gt_yield never changes a tid and never makes a slot Unused. */
  lemma YieldKeepsTids(s: seq<Slot>, c: nat)
    requires c < |s| && TidsMatch(s)
    ensures var y := YieldSpec(s, c);
      |y.table| == |s| && TidsMatch(y.table) && y.cur < |s| &&
      (forall i :: 0 <= i < |s| ==> y.table[i].tid == s[i].tid) &&
      (forall i :: 0 <= i < |s| && s[i].state != Unused ==> y.table[i].state != Unused) &&
      (y.cur != c ==> y.table[y.cur].tid == y.cur)
  {
    var y := YieldSpec(s, c);
    if y.cur != c {
      assert s[y.cur].state == Ready;
    }
  }

  /** Both invariants at once, as the dispatcher needs them. */
  lemma YieldKeeps(s: seq<Slot>, c: nat)
    requires c < |s|
    ensures var y := YieldSpec(s, c);
      (TidsMatch(s) ==> TidsMatch(y.table) && y.cur < |s| && (y.cur != c ==> y.table[y.cur].tid == y.cur)) &&
      (RunningOnlyAt(s, Some(c)) ==> RunningOnlyAt(y.table, Some(y.cur)))
  {
    if TidsMatch(s) {
      YieldKeepsTids(s, c);
    }
    if RunningOnlyAt(s, Some(c)) {
      YieldKeepsSingleRunning(s, c);
    }
  }

  // ---------------------------------------------------------------------
  // gt_init

  /** gt_init: slot 0 becomes the Running bootstrap thread with tid 0; the
      other slots are not touched. */
  function InitSpec(s: seq<Slot>): (t: seq<Slot>)
    requires |s| > 0
    ensures |t| == |s| && t[0].state == Running && t[0].tid == 0
  {
    s[0 := Slot(Running, 0)]
  }

  /** gt_init installs slot 0 as the Running bootstrap thread with tid 0 and
      keeps the tid invariant; only the bootstrap slot is then Running,
      provided no other slot was (true of the zero-initialised table). */
  lemma InitInstallsBootstrap(s: seq<Slot>)
    requires |s| > 0
    ensures var t := InitSpec(s);
      |t| == |s| && t[0] == Slot(Running, 0) &&
      (forall i :: 0 < i < |s| ==> t[i] == s[i]) &&
      (TidsMatch(s) ==> TidsMatch(t)) &&
      ((forall i :: 0 < i < |s| ==> s[i].state != Running) ==> RunningOnlyAt(t, Some(0)))
  {
  }

  // ---------------------------------------------------------------------
  // gt_go

  /** A creation step: the new table and the returned value. */
  datatype AfterGo = AfterGo(table: seq<Slot>, result: int)

  /** First-fit search for an Unused slot at index k or above. */
  function FirstUnused(s: seq<Slot>, k: nat): (r: Option<nat>)
    requires k <= |s|
    ensures r.Some? ==> k <= r.value < |s| && s[r.value].state == Unused
    ensures forall j :: k <= j < |s| && (r.None? || j < r.value) ==> s[j].state != Unused
    decreases |s| - k
  {
    if k == |s| then None
    else if s[k].state == Unused then Some(k)
    else FirstUnused(s, k + 1)
  }

  /** gt_go; stackAllocated says whether malloc returned a stack. */
  function GoSpec(s: seq<Slot>, stackAllocated: bool): (g: AfterGo)
    ensures |g.table| == |s| && (g.result == 0 || g.result == -1)
    ensures g.result == 0 <==> g.table != s
  {
    match FirstUnused(s, 0)
    case None => AfterGo(s, -1)
    case Some(i) =>
      if stackAllocated then AfterGo(s[i := Slot(Ready, i)], 0) else AfterGo(s, -1)
  }

  /** gt_go fails closed: -1 and an unchanged table when the table is full or
      the stack cannot be allocated. */
  lemma GoFailsClosed(s: seq<Slot>, stackAllocated: bool)
    ensures var g := GoSpec(s, stackAllocated);
      (g.result == -1 <==> !AnyUnused(s) || !stackAllocated) &&
      (g.result == -1 ==> g.table == s)
  {
  }

  /** On success gt_go claims the lowest-index Unused slot, makes it Ready
      with its own index as tid, returns 0 and touches no other slot. */
  lemma GoFirstFit(s: seq<Slot>, i: nat)
    requires i < |s| && s[i].state == Unused
    requires forall j :: 0 <= j < i ==> s[j].state != Unused
    ensures GoSpec(s, true) == AfterGo(s[i := Slot(Ready, i)], 0)
  {
    assert FirstUnused(s, 0) == Some(i);
  }

  /** gt_go keeps both table invariants, whatever the cursor. */
  lemma GoKeepsInvariants(s: seq<Slot>, stackAllocated: bool, cur: Option<nat>)
    ensures var g := GoSpec(s, stackAllocated);
      |g.table| == |s| &&
      (RunningOnlyAt(s, cur) ==> RunningOnlyAt(g.table, cur)) &&
      (TidsMatch(s) ==> TidsMatch(g.table)) &&
      (forall i :: 0 <= i < |s| ==> g.table[i].tid == s[i].tid || g.table[i].tid == i)
  {
  }

  /** The table after gt_init and k successful calls of gt_go on the
      zero-initialised table: bootstrap Running, slots 1..k Ready with their
      index as tid, the rest Unused. */
  function Started(n: nat, k: nat): (s: seq<Slot>)
    requires 0 < n && k < n
  {
    seq(n, i => if i == 0 then Slot(Running, 0) else if 0 < i <= k then Slot(Ready, i) else Slot(Unused, 0))
  }

  /** The k-th successful gt_go after gt_init claims slot k; once all n
      slots are taken, the next call returns -1. */
  lemma GoFillsTable(n: nat, k: nat)
    requires 0 < n && k < n
    ensures InitSpec(Blank(n)) == Started(n, 0)
    ensures k + 1 < n ==> GoSpec(Started(n, k), true) == AfterGo(Started(n, k + 1), 0)
    ensures k + 1 == n ==> GoSpec(Started(n, k), true) == AfterGo(Started(n, k), -1)
  {
    var s := Started(n, k);
    if k + 1 < n {
      GoFirstFit(s, k + 1);
      assert s[k + 1 := Slot(Ready, k + 1)] == Started(n, k + 1);
    } else {
      assert !AnyUnused(s) by {
        forall i | 0 <= i < n ensures s[i].state != Unused { }
      }
    }
  }

  // ---------------------------------------------------------------------
  // gt_ret / gt_stop

  /** How gt_ret ends: nothing happens on the bootstrap thread; otherwise it
      either switches away for good or falls through to assert(!"reachable"). */
  datatype ExitOutcome = Stayed | SwitchedAway | Aborted

  datatype AfterExit = AfterExit(table: seq<Slot>, cur: nat, outcome: ExitOutcome)

  /** gt_ret from cursor c. */
  function ExitSpec(s: seq<Slot>, c: nat): (e: AfterExit)
    requires c < |s|
    ensures |e.table| == |s| && e.cur < |s|
    ensures e.outcome == Stayed <==> c == 0
  {
    if c == 0 then AfterExit(s, c, Stayed)
    else
      var y := YieldSpec(s[c := s[c].(state := Unused)], c);
      AfterExit(y.table, y.cur, if y.result == 1 then SwitchedAway else Aborted)
  }

  /** On the bootstrap slot gt_ret is a no-op. */
  lemma ExitOnBootstrap(s: seq<Slot>)
    requires 0 < |s|
    ensures ExitSpec(s, 0) == AfterExit(s, 0, Stayed)
  {
  }

  /** A non-bootstrap exit leaves the exited slot Unused; it switches away
      exactly when some other slot is Ready, and then the cursor moves to a
      different slot that is the one Running. */
  lemma ExitSwitchesAway(s: seq<Slot>, c: nat)
    requires 0 < c < |s| && RunningOnlyAt(s, Some(c))
    ensures var e := ExitSpec(s, c);
      |e.table| == |s| && e.cur < |s| && e.table[c].state == Unused &&
      (e.outcome == SwitchedAway <==> exists i :: 0 <= i < |s| && i != c && s[i].state == Ready) &&
      (e.outcome != SwitchedAway ==> e.outcome == Aborted && e.cur == c) &&
      (e.outcome == SwitchedAway ==> e.cur != c && e.table[e.cur].state == Running) &&
      RunningOnlyAt(e.table, Some(e.cur))
  {
    var t := s[c := s[c].(state := Unused)];
    assert AnyReady(t) <==> exists i :: 0 <= i < |s| && i != c && s[i].state == Ready by {
      if AnyReady(t) {
        var i :| 0 <= i < |t| && t[i].state == Ready;
        assert i != c;
      }
      if exists i :: 0 <= i < |s| && i != c && s[i].state == Ready {
        var i :| 0 <= i < |s| && i != c && s[i].state == Ready;
        assert t[i].state == Ready;
      }
    }
    YieldKeepsSingleRunning(t, c);
  }

  /** gt_ret keeps the tid invariant. */
  lemma ExitKeepsTids(s: seq<Slot>, c: nat)
    requires c < |s| && TidsMatch(s) && s[c].tid == c
    ensures var e := ExitSpec(s, c);
      e.cur < |e.table| && TidsMatch(e.table) && e.table[e.cur].tid == e.cur
  {
    if c != 0 {
      var t := s[c := s[c].(state := Unused)];
      YieldKeepsTids(t, c);
    }
  }
}
