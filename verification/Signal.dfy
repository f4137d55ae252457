/**
The signal manager: a table of signals, each holding a table of handlers by value, and
the mask of signals to wait for, which has to name exactly the signals in the table.
*/
module Signals {
  import opened Wrappers
  import opened TableSpec
  import opened TableRep
  import opened TableRuns
  import opened TableGrowth
  import opened TableKeys
  import opened TableIterate

  /** A registered handler; the null handler is 0. */
  datatype Handler = Handler(handler: nat, udata: nat)

  /** signal_register_t; `entry` is None while its handler table does not exist. */
  datatype Signal = Signal(num: nat, entry: Option<State<Handler>>)

  const ZERO_HANDLER := Handler(0, 0)
  const ZERO_SIGNAL := Signal(0, None)

  const SIG_TAB_SIZE: nat := 4
  const ENT_TAB_SIZE: nat := 4

  /** SIGSEGV, SIGKILL, SIGSTOP, SIGILL and SIGFPE, as numbered on Linux. */
  const UNHANDLED: set<nat> := {11, 9, 19, 4, 8}

  function HandlerOf(h: Handler): nat { h.handler }

  /** Handler tables refuse a handler they hold already. */
  const HANDLER_RULES: Rules<Handler> := Rules(Some((x: Handler, y: Handler) => x.handler == y.handler), None)

  function HasHandler(handler: nat): Handler -> bool { (h: Handler) => h.handler == handler }

  function HasNum(num: nat): Signal -> bool { (s: Signal) => s.num == num }

  // ---- the agreement ------------------------------------------------------

  /** A handler table: no two handlers alike. */
  ghost predicate WfHandlers(e: State<Handler>) {
    && Wf(e) && e.cfg.zero == ZERO_HANDLER && !e.cfg.noRealloc
    && LadderSize(e.size, e.cfg.maxSize)
    && UniqueKeys(e.cells, HandlerOf)
  }

  ghost predicate WfSignal(s: Signal) {
    s.num != 0 && s.entry.Some? && WfHandlers(s.entry.value) && !IsEmpty(s.entry.value)
  }

  ghost predicate Distinct(m: map<nat, Signal>) {
    forall i, j | i in m && j in m && i != j :: m[i].num != m[j].num
  }

  /**
  A signal is waited for exactly when the table holds a record for it; it then holds one
  only, whose handler table has a live handler.
  */
  ghost predicate Agree(m: map<nat, Signal>, mask: set<nat>) {
    && (forall i | i in m :: WfSignal(m[i]))
    && Distinct(m)
    && (forall n :: n in mask <==> exists i :: i in m && m[i].num == n)
  }

  ghost predicate WfSigtab(t: State<Signal>) {
    && Wf(t) && t.cfg.zero == ZERO_SIGNAL && !t.cfg.noRealloc
    && LadderSize(t.size, t.cfg.maxSize) && ENT_TAB_SIZE <= t.cfg.maxSize
  }

  lemma AgreeAdd(m: map<nat, Signal>, mask: set<nat>, slot: nat, s: Signal)
    requires Agree(m, mask) && WfSignal(s) && s.num !in mask && slot !in m
    ensures Agree(m[slot := s], mask + {s.num})
  {
    var m' := m[slot := s];
    assert slot in m' && m'[slot].num == s.num;
    forall n ensures n in mask + {s.num} <==> exists i :: i in m' && m'[i].num == n {
      if n in mask {
        var i :| i in m && m[i].num == n;
        assert i in m' && m'[i].num == n;
      }
    }
  }

  lemma AgreeReplace(m: map<nat, Signal>, mask: set<nat>, slot: nat, s: Signal)
    requires Agree(m, mask) && slot in m && s.num == m[slot].num && WfSignal(s)
    ensures Agree(m[slot := s], mask)
  {
    var m' := m[slot := s];
    forall n ensures n in mask <==> exists i :: i in m' && m'[i].num == n {
      if n in mask {
        var i :| i in m && m[i].num == n;
        assert i in m' && m'[i].num == n;
      }
    }
  }

  /** Removing the record of a signal, which may be unfit by now, and the signal from the mask. */
  lemma AgreeRemove(m: map<nat, Signal>, mask: set<nat>, slot: nat)
    requires slot in m && Distinct(m)
    requires forall i | i in m && i != slot :: WfSignal(m[i])
    requires forall n :: n in mask <==> exists i :: i in m && m[i].num == n
    ensures Agree(m - {slot}, mask - {m[slot].num})
  {
    var m' := m - {slot};
    forall n ensures n in mask - {m[slot].num} <==> exists i :: i in m' && m'[i].num == n {
      if n in mask - {m[slot].num} {
        var i :| i in m && m[i].num == n;
        assert i in m' && m'[i].num == n;
      }
    }
  }

  lemma SearchNum(t: State<Signal>, mask: set<nat>, num: nat)
    requires WfSigtab(t) && num != 0
    requires forall n :: n in mask <==> exists i :: i in Live(t.cells) && Live(t.cells)[i].num == n
    ensures var (t1, found) := Search(t, HasNum(num));
      && t1 == t.(pos := t1.pos) && WfSigtab(t1)
      && (found.Some? <==> num in mask)
      && (found.Some? ==> found.value == t1.pos && CanDelete(t1) && t1.pos in Live(t.cells)
                          && Live(t.cells)[t1.pos] == t1.cells[t1.pos].value && t1.cells[t1.pos].value.num == num)
  {
    hide OnLadder;
    SearchIff(t, HasNum(num));
    var (t1, found) := Search(t, HasNum(num));
    if found.Some? { assert t1.pos in Live(t.cells) && Live(t.cells)[t1.pos].num == num; }
    if num in mask {
      var i :| i in Live(t.cells) && Live(t.cells)[i].num == num;
      assert t.cells[i].Some? && HasNum(num)(t.cells[i].value);
    }
  }

  /** The record of a signal holds this handler with this user data. */
  predicate Has(s: Signal, h: Handler) {
    s.entry.Some? && exists i :: 0 <= i < |s.entry.value.cells| && s.entry.value.cells[i] == Some(h)
  }

  /** The record of a signal holds this handler, with whatever user data. */
  predicate Handles(s: Signal, handler: nat) {
    s.entry.Some? &&
    exists i :: 0 <= i < |s.entry.value.cells| && s.entry.value.cells[i].Some? &&
      s.entry.value.cells[i].value.handler == handler
  }

  /** Looking for the null handler matches the zeroed chunk of a hole under the cursor. */
  predicate MissesNull(s: Signal, handler: nat) {
    handler == 0 && s.entry.Some? && s.entry.value.pos < |s.entry.value.cells| &&
      s.entry.value.cells[s.entry.value.pos].None?
  }

  /** What the manager is for: which handler is registered for which signal, to be called with which user data. */
  ghost predicate Registered(m: map<nat, Signal>, num: nat, h: Handler) {
    exists i :: i in m && m[i].num == num && Has(m[i], h)
  }

  /** No record has number 0, so looking for it finds a hole if anything. */
  lemma SearchZero(t: State<Signal>, mask: set<nat>)
    requires WfSigtab(t) && Agree(Live(t.cells), mask)
    ensures 0 !in mask
    ensures var (t1, found) := Search(t, HasNum(0));
      && t1 == t.(pos := t1.pos) && WfSigtab(t1)
      && (found.Some? ==> t1.pos < |t1.cells| && t1.cells[t1.pos].None?)
  {
    hide OnLadder, LadderSize;
    SearchFound(t, HasNum(0));
    forall i: nat | i < |t.cells| && t.cells[i].Some? ensures !HasNum(0)(t.cells[i].value) {
      assert i in Live(t.cells) && WfSignal(Live(t.cells)[i]);
    }
  }

  /** Whether a table has a slot to append to, or can grow. */
  predicate HasRoom<C>(t: State<C>, alloc: bool) { !Full(t) || CanGrow(t, alloc) }

  /** Whether the handler table of a signal takes a handler: it finds none like it, and has room. */
  predicate TakesHandler(s: Signal, handler: nat, alloc: bool) {
    s.entry.Some? && !Handles(s, handler) && !MissesNull(s, handler) && HasRoom(s.entry.value, alloc)
  }

  ghost predicate SomeTakes(m: map<nat, Signal>, num: nat, handler: nat, alloc: bool) {
    exists i :: i in m && m[i].num == num && TakesHandler(m[i], handler, alloc)
  }

  /** With distinct signals, the record of a signal decides on that. */
  lemma TakesIn(m: map<nat, Signal>, slot: nat, handler: nat, alloc: bool)
    requires Distinct(m) && slot in m
    ensures SomeTakes(m, m[slot].num, handler, alloc) <==> TakesHandler(m[slot], handler, alloc)
  {
    hide TakesHandler;
  }

  lemma NewTakes(s: Signal, handler: nat, alloc: bool)
    requires s.entry.Some? && s.entry.value.cells == [] && !Full(s.entry.value)
    ensures TakesHandler(s, handler, alloc)
  {
  }

  /** What is registered in `now` is what was in `was` and, if `on`, one handler of one signal. */
  ghost predicate RegisteredPlus(now: map<nat, Signal>, was: map<nat, Signal>, on: bool, num: nat, added: Handler) {
    forall n, h :: Registered(now, n, h) <==> Registered(was, n, h) || (on && n == num && h == added)
  }

  /** With distinct signals, the record of a signal decides on its handlers. */
  lemma RegisteredIn(m: map<nat, Signal>, slot: nat, h: Handler)
    requires Distinct(m) && slot in m
    ensures Registered(m, m[slot].num, h) <==> Has(m[slot], h)
  {
  }

  lemma RegisteredUpdate(m: map<nat, Signal>, slot: nat, s: Signal, num: nat, h: Handler)
    requires Distinct(m) && Distinct(m[slot := s])
    requires slot in m ==> m[slot].num == s.num
    ensures Registered(m[slot := s], num, h) <==>
      if num == s.num then Has(s, h) else Registered(m, num, h)
  {
    var m' := m[slot := s];
    assert m'[slot] == s;
    RegisteredIn(m', slot, h);
    if num != s.num {
      if i :| i in m && m[i].num == num && Has(m[i], h) { assert i in m' && m'[i] == m[i]; }
      if i :| i in m' && m'[i].num == num && Has(m'[i], h) { assert i in m && m'[i] == m[i]; }
    }
  }

  lemma UpdatedRegistered(m: map<nat, Signal>, slot: nat, s: Signal)
    requires Distinct(m) && Distinct(m[slot := s])
    requires slot in m ==> m[slot].num == s.num
    ensures forall n, h :: Registered(m[slot := s], n, h) <==> if n == s.num then Has(s, h) else Registered(m, n, h)
    ensures slot in m ==> forall h :: Registered(m, s.num, h) <==> Has(m[slot], h)
  {
    forall n, h
      ensures Registered(m[slot := s], n, h) <==> if n == s.num then Has(s, h) else Registered(m, n, h)
    {
      RegisteredUpdate(m, slot, s, n, h);
    }
    if slot in m {
      forall h ensures Registered(m, s.num, h) <==> Has(m[slot], h) { RegisteredIn(m, slot, h); }
    }
  }

  lemma RegisteredRemove(m: map<nat, Signal>, slot: nat, num: nat, h: Handler)
    requires Distinct(m) && slot in m
    ensures Registered(m - {slot}, num, h) <==> num != m[slot].num && Registered(m, num, h)
  {
    var m' := m - {slot};
    if num != m[slot].num {
      if i :| i in m && m[i].num == num && Has(m[i], h) { assert i in m' && m'[i] == m[i]; }
    }
    if i :| i in m' && m'[i].num == num && Has(m'[i], h) { assert i in m && m'[i] == m[i]; }
  }

  /** Pushing a handler is refused when it is there already or memory runs out; otherwise it is added. */
  lemma PushHandler(e: State<Handler>, h: Handler, alloc: bool)
    requires WfHandlers(e) && !Emptied(e)
    ensures var o := Push(e, HANDLER_RULES, h, alloc);
      && (|e.cells| < LADDER_TOP ==> o.Done?)
      && (o.Done? ==> WfHandlers(o.next))
      && (o.Done? && o.ok ==> !IsEmpty(o.next) && !HasMatch(e.cells, HasHandler(h.handler)) && Placed(e, o.next, h))
      && (o.Done? && !o.ok ==> o.next == e.(pos := o.next.pos))
      && (o.Done? ==>
            (o.ok <==> !HasMatch(e.cells, HasHandler(h.handler)) && !MissesNull(Signal(1, Some(e)), h.handler)
                       && HasRoom(e, alloc)))
  {
    hide OnLadder, Append, Lookup, SearchLive, HasRoom, MissesNull;
    var p := Conflict(HANDLER_RULES.constrains.value, h);
    FoundIff(e, p, h.handler);
    SearchFound(e, p);
    var (e1, found) := Search(e, p);
    var o := Push(e, HANDLER_RULES, h, alloc);
    if found.None? {
      if |e.cells| < LADDER_TOP { LadderAppends(e1, h, alloc); }
      if o.Done? {
        AppendHasRoom(e, e1, h, alloc);
        PlaceShape(e1, h, false, alloc);
        if o.ok {
          SomeLive(o.next.cells, o.next.pos);
          PlacedUnique(e1, o.next, h);
        }
      }
    }
    if o.Done? {
      StepKeepsWf(e, HANDLER_RULES, OpPush(h, alloc));
      StepKeepsLadder(e, HANDLER_RULES, OpPush(h, alloc));
    }
  }

  lemma AppendHasRoom(e: State<Handler>, e1: State<Handler>, h: Handler, alloc: bool)
    requires e1 == e.(pos := e1.pos) && Append(e1, h, alloc).Done?
    ensures Append(e1, h, alloc).ok <==> HasRoom(e, alloc)
  {
  }

  lemma FoundIff(e: State<Handler>, p: Handler -> bool, handler: nat)
    requires Wf(e) && e.cfg.zero == ZERO_HANDLER && !Emptied(e) && forall x :: p(x) == HasHandler(handler)(x)
    ensures Search(e, p).1.Some? <==> HasMatch(e.cells, HasHandler(handler)) || MissesNull(Signal(1, Some(e)), handler)
  {
    hide Holes;
    if IsEmpty(e) {
      NoneLive(e.cells);
    } else if NoZeroMatch(e, p) {
      SearchIff(e, p);
      SameMatches(e.cells, p, handler);
    } else {
      SearchOnHole(e, p);
    }
  }

  lemma SameMatches(cells: seq<Option<Handler>>, p: Handler -> bool, handler: nat)
    requires forall x :: p(x) == HasHandler(handler)(x)
    ensures HasMatch(cells, p) <==> HasMatch(cells, HasHandler(handler))
  {
  }

  lemma PlacedUnique(s: State<Handler>, t: State<Handler>, h: Handler)
    requires UniqueKeys(s.cells, HandlerOf) && Placed(s, t, h) && !HasMatch(s.cells, HasHandler(h.handler))
    ensures UniqueKeys(t.cells, HandlerOf)
  {
    forall i | 0 <= i < |s.cells| && s.cells[i].Some? ensures HandlerOf(s.cells[i].value) != h.handler {
      assert !HasHandler(h.handler)(s.cells[i].value);
    }
  }

  lemma PlacedHas(s: Signal, t: Signal, h: Handler)
    requires s.entry.Some? && t.entry.Some? && Placed(s.entry.value, t.entry.value, h)
    ensures forall x :: Has(t, x) <==> Has(s, x) || x == h
  {
    var a, b := s.entry.value.cells, t.entry.value.cells;
    forall x ensures Has(t, x) <==> Has(s, x) || x == h {
      if i :| 0 <= i < |a| && a[i] == Some(x) { assert b[i] == a[i]; }
      assert b[t.entry.value.pos] == Some(h);
    }
  }

  /** Deleting a handler that is there takes that one away. */
  lemma DeleteHandler(e: State<Handler>, handler: nat)
    requires WfHandlers(e) && NoZeroMatch(e, HasHandler(handler))
    ensures var (e1, found) := Search(e, HasHandler(handler));
      && WfHandlers(e1) && e1 == e.(pos := e1.pos)
      && (found.Some? <==> HasMatch(e.cells, HasHandler(handler)))
      && (found.Some? ==> CanDelete(e1) && WfHandlers(Delete(e1)) && e1.cells[e1.pos].value.handler == handler)
  {
    hide OnLadder;
    SearchIff(e, HasHandler(handler));
    var (e1, found) := Search(e, HasHandler(handler));
    if found.Some? {
      CountDelete(e1);
      assert UniqueKeys(Delete(e1).cells, HandlerOf);
    }
  }

  lemma DeletedHas(s: Signal, t: Signal, handler: nat)
    requires s.entry.Some? && CanDelete(s.entry.value) && UniqueKeys(s.entry.value.cells, HandlerOf)
    requires s.entry.value.cells[s.entry.value.pos].value.handler == handler
    requires t.entry == Some(Delete(s.entry.value))
    ensures forall x :: Has(t, x) <==> Has(s, x) && x.handler != handler
  {
    var a, b, p := s.entry.value.cells, t.entry.value.cells, s.entry.value.pos;
    forall x ensures Has(t, x) <==> Has(s, x) && x.handler != handler {
      if i :| 0 <= i < |a| && a[i] == Some(x) && x.handler != handler {
        assert i != p && i < |b| && b[i] == a[i];
      }
      if i :| 0 <= i < |b| && b[i] == Some(x) {
        assert i != p && a[i] == b[i];
        assert HandlerOf(a[i].value) != HandlerOf(a[p].value);
      }
    }
  }

  lemma WriteBack(t: State<Signal>, s: Signal)
    requires Wf(t) && CanDelete(t)
    ensures var t' := t.(cells := t.cells[t.pos := Some(s)]);
      Live(t'.cells) == Live(t.cells)[t.pos := s] && CanDelete(t') && Wf(t')
  {
  }

  lemma PushRecord(t: State<Signal>, s: Signal, alloc: bool)
    requires WfSigtab(t)
    ensures var o := Push(t, Rules(None, None), s, alloc);
      && (o.Done? ==> WfSigtab(o.next))
      && (o.Done? && o.ok ==> o.next.pos !in Live(t.cells) && CanDelete(o.next)
                              && Live(o.next.cells) == Live(t.cells)[o.next.pos := s]
                              && o.next.cells[o.next.pos] == Some(s))
      && (o.Done? && !o.ok ==> Live(o.next.cells) == Live(t.cells))
      && (|t.cells| < LADDER_TOP ==> (o.Corrupt? <==> Emptied(t)))
      && (o.Done? ==> (o.ok <==> HasRoom(t, alloc)))
  {
    hide OnLadder;
    var op, rules := OpPush(s, alloc), Rules(None, None);
    var o := Push(t, Rules(None, None), s, alloc);
    assert o == Step(t, rules, op);
    if !Emptied(t) && |t.cells| < LADDER_TOP { LadderAppends(t, s, alloc); }
    if o.Done? {
      StepKeepsWf(t, rules, op);
      StepKeepsLadder(t, rules, op);
      StepOnLive(t, rules, op);
    }
  }

  /** The slots a pass of unregister_signal deletes. */
  function NumIs(cells: seq<Option<Signal>>, num: nat): nat -> bool {
    (i: nat) => i < |cells| && cells[i].Some? && cells[i].value.num == num
  }

  lemma KeptOthers(m: map<nat, Signal>, cells: seq<Option<Signal>>, slot: nat)
    requires m == Live(cells) && slot in m && Distinct(m)
    ensures Kept(cells, 0, NumIs(cells, m[slot].num)) == m - {slot}
  {
  }

  /** Unregistering the null handler misses it: the search in that signal's handler table stops at a hole. */
  ghost predicate NullMissed(m: map<nat, Signal>, num: nat, handler: nat) {
    exists i :: i in m && m[i].num == num && MissesNull(m[i], handler)
  }

  lemma MissedIn(m: map<nat, Signal>, slot: nat, handler: nat)
    requires slot in m && Distinct(m)
    ensures NullMissed(m, m[slot].num, handler) <==> MissesNull(m[slot], handler)
  {
  }

  lemma SomeLiveSlot<C>(cells: seq<Option<C>>) returns (k: nat)
    requires Count(cells) > 0
    ensures k < |cells| && cells[k].Some?
  {
    if forall i | 0 <= i < |cells| :: cells[i].None? { AllHoles(cells); }
    k :| k < |cells| && cells[k].Some?;
  }

  /** Slot `i` holds the record of a signal, and no other slot does. */
  ghost predicate OnlyRecord(m: map<nat, Signal>, num: nat, i: nat) {
    i in m && m[i].num == num && forall j | j in m && m[j].num == num :: j == i
  }

  /**
  What the agreement means: a signal is in the wait mask exactly when some handler is
  registered for it, and then the table holds one record of it and no second.
  */
  lemma WaitedExactly(m: map<nat, Signal>, mask: set<nat>, num: nat)
    requires Agree(m, mask)
    ensures num in mask <==> exists h :: Registered(m, num, h)
    ensures num in mask <==> exists i :: OnlyRecord(m, num, i)
  {
    hide WfHandlers;
    if num in mask {
      var i :| i in m && m[i].num == num;
      assert OnlyRecord(m, num, i);
      UsedSignalHasHandler(m, i);
    }
    assert (exists i :: OnlyRecord(m, num, i)) ==> num in mask;
    assert (exists h :: Registered(m, num, h)) ==> num in mask;
  }

  lemma UsedSignalHasHandler(m: map<nat, Signal>, i: nat)
    requires i in m && WfSignal(m[i])
    ensures exists h :: Registered(m, m[i].num, h)
  {
    hide WfHandlers;
    var cells := m[i].entry.value.cells;
    var k := SomeLiveSlot(cells);
    assert Has(m[i], cells[k].value);
    assert Registered(m, m[i].num, cells[k].value);
  }

  lemma SignalInUse(sig: Signal, m: map<nat, Signal>, slot: nat)
    requires slot in m && m[slot] == sig && WfSignal(m[slot])
    ensures sig.num != 0 && sig.entry.Some? && WfHandlers(sig.entry.value) && !IsEmpty(sig.entry.value)
  {
  }

  /** Taking a handler from a record, before the record is dropped for having none. */
  lemma UnregisterOne(m: map<nat, Signal>, mask: set<nat>, slot: nat, sig: Signal, sig': Signal, handler: nat)
    requires Agree(m, mask) && slot in m && m[slot] == sig
    requires sig'.num == sig.num && sig'.entry.Some? && WfHandlers(sig'.entry.value)
    requires forall x :: Has(sig', x) <==> Has(sig, x) && x.handler != handler
    ensures var m' := m[slot := sig'];
      && Distinct(m')
      && (forall i | i in m' && i != slot :: WfSignal(m'[i]))
      && (forall n :: n in mask <==> exists i :: i in m' && m'[i].num == n)
      && (!IsEmpty(sig'.entry.value) ==> Agree(m', mask))
      && (forall n, h :: Registered(m', n, h) <==> Registered(m, n, h) && !(n == sig.num && h.handler == handler))
      && (IsEmpty(sig'.entry.value) ==>
            forall n, h ::
              Registered(m' - {slot}, n, h) <==> Registered(m, n, h) && !(n == sig.num && h.handler == handler))
      && (IsEmpty(sig'.entry.value) ==> forall h :: !Registered(m' - {slot}, sig.num, h))
  {
    hide WfHandlers, Has, Registered;
    var m' := m[slot := sig'];
    UpdatedRegistered(m, slot, sig');
    if !IsEmpty(sig'.entry.value) {
      AgreeReplace(m, mask, slot, sig');
    } else {
      EmptyHasNone(sig');
      forall n, h
        ensures Registered(m' - {slot}, n, h) <==> Registered(m, n, h) && !(n == sig.num && h.handler == handler)
        ensures !Registered(m' - {slot}, sig.num, h)
      {
        RegisteredRemove(m', slot, n, h);
        RegisteredRemove(m', slot, sig.num, h);
      }
    }
    forall n ensures n in mask <==> exists i :: i in m' && m'[i].num == n {
      if n in mask {
        var i :| i in m && m[i].num == n;
        assert i in m' && m'[i].num == n;
      }
    }
  }

  lemma EmptyHasNone(s: Signal)
    requires s.entry.Some? && IsEmpty(s.entry.value)
    ensures forall h :: !Has(s, h)
  {
    NoneLive(s.entry.value.cells);
  }

  lemma LastSignalEmpties(t: State<Signal>, mask: set<nat>)
    requires Agree(Live(t.cells), mask)
    ensures mask == {} && t.cells != [] ==> Emptied(t)
  {
    if Count(t.cells) > 0 {
      var k := SomeLiveSlot(t.cells);
      assert k in Live(t.cells);
      assert Live(t.cells)[k].num in mask;
    }
  }

  lemma NotEmptied(sig: Signal, slot: nat, m: map<nat, Signal>, mask: set<nat>)
    requires Agree(m, mask) && sig.entry.Some?
    requires (slot in m && m[slot] == sig) || sig.entry.value.cells == []
    ensures !Emptied(sig.entry.value)
  {
  }

  /** The end of signal_register for a new signal: it stays if its first handler went in. */
  lemma SettleNew(m: map<nat, Signal>, mask: set<nat>, slot: nat, sig: Signal, sig': Signal, h: Handler, pushed: bool)
    requires Agree(m, mask) && slot !in m && sig.num != 0 && sig.num !in mask
    requires sig'.num == sig.num && sig.entry.Some? && sig.entry.value.cells == [] && sig'.entry.Some? &&
      WfHandlers(sig'.entry.value)
    requires pushed ==> !IsEmpty(sig'.entry.value) && Placed(sig.entry.value, sig'.entry.value, h)
    requires !pushed ==> sig'.entry.value == sig.entry.value.(pos := sig'.entry.value.pos)
    ensures var m', mask' := m[slot := sig'], mask + {sig.num};
      && Distinct(m') && m' - {slot} == m
      && (forall i | i in m' && i != slot :: WfSignal(m'[i]))
      && (forall n :: n in mask' <==> exists i :: i in m' && m'[i].num == n)
      && (!pushed ==> IsEmpty(sig'.entry.value) && mask' - {sig.num} == mask)
      && (pushed ==> Agree(m', mask'))
      && RegisteredPlus(if pushed then m' else m, m, pushed, sig.num, h)
  {
    hide WfHandlers, Placed, Has, Registered;
    NewInMask(m, mask, slot, sig');
    if pushed {
      AgreeAdd(m, mask, slot, sig');
      PlacedHas(sig, sig', h);
      EmptyHasNone(sig);
      NoneRegistered(m, mask, sig.num);
      UpdatedPlus(m, slot, sig, sig', pushed, h);
    }
  }

  /** The end of signal_register for a signal that was there already. */
  lemma SettleOld(m: map<nat, Signal>, mask: set<nat>, slot: nat, sig: Signal, sig': Signal, h: Handler, pushed: bool)
    requires Agree(m, mask) && slot in m && m[slot] == sig
    requires sig'.num == sig.num && sig.entry.Some? && sig'.entry.Some? && WfHandlers(sig'.entry.value)
    requires pushed ==> !IsEmpty(sig'.entry.value) && Placed(sig.entry.value, sig'.entry.value, h)
    requires !pushed ==> sig'.entry.value == sig.entry.value.(pos := sig'.entry.value.pos)
    ensures !IsEmpty(sig'.entry.value) && Agree(m[slot := sig'], mask)
    ensures RegisteredPlus(m[slot := sig'], m, pushed, sig.num, h)
  {
    hide WfHandlers, Placed, Has, Registered;
    AgreeReplace(m, mask, slot, sig');
    if pushed { PlacedHas(sig, sig', h); } else { MovedHas(sig, sig'); }
    UpdatedPlus(m, slot, sig, sig', pushed, h);
  }

  lemma UpdatedPlus(m: map<nat, Signal>, slot: nat, sig: Signal, sig': Signal, on: bool, h: Handler)
    requires Distinct(m) && Distinct(m[slot := sig']) && sig'.num == sig.num
    requires forall x :: Has(sig', x) <==> Has(sig, x) || (on && x == h)
    requires if slot in m then m[slot] == sig else forall x :: !Registered(m, sig.num, x) && !Has(sig, x)
    ensures RegisteredPlus(m[slot := sig'], m, on, sig.num, h)
  {
    hide Has, Registered;
    forall n, x
      ensures Registered(m[slot := sig'], n, x) <==> Registered(m, n, x) || (on && n == sig.num && x == h)
    {
      RegisteredUpdate(m, slot, sig', n, x);
      if slot in m { RegisteredIn(m, slot, x); }
    }
  }

  lemma MovedHas(s: Signal, t: Signal)
    requires s.entry.Some? && t.entry.Some? && t.entry.value == s.entry.value.(pos := t.entry.value.pos)
    ensures forall x :: Has(t, x) <==> Has(s, x)
  {
    assert t.entry.value.cells == s.entry.value.cells;
  }

  lemma NoneRegistered(m: map<nat, Signal>, mask: set<nat>, num: nat)
    requires Agree(m, mask) && num !in mask
    ensures forall h :: !Registered(m, num, h)
  {
  }

  lemma NewInMask(m: map<nat, Signal>, mask: set<nat>, slot: nat, s: Signal)
    requires Agree(m, mask) && slot !in m && s.num !in mask
    ensures var m' := m[slot := s];
      Distinct(m') && forall n :: n in mask + {s.num} <==> exists i :: i in m' && m'[i].num == n
  {
    var m' := m[slot := s];
    assert slot in m' && m'[slot].num == s.num;
    forall n ensures n in mask + {s.num} <==> exists i :: i in m' && m'[i].num == n {
      if n in mask {
        var i :| i in m && m[i].num == n;
        assert i in m' && m'[i].num == n;
      }
    }
  }

  lemma RungFour(t: State<Signal>)
    requires WfSigtab(t)
    ensures ENT_TAB_SIZE <= t.cfg.maxSize && LadderSize(ENT_TAB_SIZE, t.cfg.maxSize)
  {
  }

  lemma SeenInLive(cells: seq<Option<Signal>>, signum: nat)
    ensures (exists i: nat :: i < |cells| && NumIs(cells, signum)(i)) <==>
            exists i :: i in Live(cells) && Live(cells)[i].num == signum
  {
    if i: nat :| i < |cells| && NumIs(cells, signum)(i) {
      assert i in Live(cells) && Live(cells)[i].num == signum;
    }
    if i :| i in Live(cells) && Live(cells)[i].num == signum {
      assert NumIs(cells, signum)(i);
    }
  }

  // ---- what a signal calls ------------------------------------------------

  /** The live handlers below a slot, from the last to the first; the null handler is not called. */
  function HandlersBelow(cells: seq<Option<Handler>>, below: nat): seq<Handler>
    requires below <= |cells|
  {
    if below == 0 then []
    else
      var cell := cells[below - 1];
      (if cell.Some? && cell.value.handler != 0 then [cell.value] else []) + HandlersBelow(cells, below - 1)
  }

  lemma {:induction false} HandlersSkipHoles(cells: seq<Option<Handler>>, from: nat, below: nat)
    requires from <= below <= |cells| && forall i | from <= i < below :: cells[i].None?
    ensures HandlersBelow(cells, below) == HandlersBelow(cells, from)
  {
    if from == below {
    } else {
      HandlersSkipHoles(cells, from, below - 1);
    }
  }

  /** Each of them is listed once, with its user data, and later ones come first. */
  lemma {:induction false} HandlersBelowLists(cells: seq<Option<Handler>>, below: nat)
    requires below <= |cells| && UniqueKeys(cells, HandlerOf)
    ensures var calls := HandlersBelow(cells, below);
      && (forall h :: h in calls <==> h.handler != 0 && exists i: nat :: i < below && cells[i] == Some(h))
      && (forall j, k | 0 <= j < k < |calls| :: calls[j].handler != calls[k].handler)
      && (forall i, j | 0 <= i < j < below && cells[i].Some? && cells[j].Some? ::
            Before(calls, cells[j].value, cells[i].value))
  {
    if below != 0 { HandlersBelowLists(cells, below - 1); }
  }

  /** If both are called, `x` is called before `y`. */
  ghost predicate Before(calls: seq<Handler>, x: Handler, y: Handler) {
    forall j, k | 0 <= j < |calls| && 0 <= k < |calls| && calls[j] == x && calls[k] == y :: j < k
  }

  lemma HandlersStep(e: State<Handler>, h: Handler)
    requires e.cfg.zero == ZERO_HANDLER && e.pos < |e.cells| && h == At(e, e.pos)
    ensures HandlersBelow(e.cells, e.pos + 1) ==
      (if h.handler != 0 then [h] else []) + HandlersBelow(e.cells, e.pos)
  {
  }

  lemma HandlersEnd(cells: seq<Option<Handler>>)
    ensures HandlersBelow(cells, 0) == []
  {
  }

  /** Of two handlers of a signal, the one in the later slot is called first. */
  ghost predicate LatestFirst(m: map<nat, Signal>, num: nat, calls: seq<Handler>) {
    forall r | r in m && m[r].num == num && m[r].entry.Some? :: LatestFirstIn(m[r].entry.value.cells, calls)
  }

  ghost predicate LatestFirstIn(cells: seq<Option<Handler>>, calls: seq<Handler>) {
    forall i, j | 0 <= i < j < |cells| && cells[i].Some? && cells[j].Some? ::
      Before(calls, cells[j].value, cells[i].value)
  }

  lemma SamePlus(m: map<nat, Signal>, num: nat)
    ensures RegisteredPlus(m, m, false, num, ZERO_HANDLER)
  {
    hide Registered;
  }

  lemma NoneLatest(m: map<nat, Signal>, num: nat)
    ensures LatestFirst(m, num, [])
  {
  }

  lemma CalledAreRegistered(m: map<nat, Signal>, slot: nat, calls: seq<Handler>)
    requires slot in m && Distinct(m) && WfSignal(m[slot])
    requires calls == HandlersBelow(m[slot].entry.value.cells, |m[slot].entry.value.cells|)
    ensures forall h :: h in calls <==> h.handler != 0 && Registered(m, m[slot].num, h)
    ensures forall j, k | 0 <= j < k < |calls| :: calls[j].handler != calls[k].handler
    ensures LatestFirst(m, m[slot].num, calls)
  {
    hide Before;
    var cells := m[slot].entry.value.cells;
    HandlersBelowLists(cells, |cells|);
    hide HandlersBelow, Registered;
    forall h ensures h in calls <==> h.handler != 0 && Registered(m, m[slot].num, h) {
      RegisteredIn(m, slot, h);
    }
  }

  class Manager {
    var sigtab: State<Signal>
    var waitMask: set<nat>

    /** Set once an operation has corrupted a table; nothing is claimed from then on. */
    var broken: bool

    constructor (maxSize: nat)
      requires SIG_TAB_SIZE <= maxSize < SIZE_MODULUS - 1
      ensures Valid() && !broken && waitMask == {}
    {
      sigtab := Fresh(SIG_TAB_SIZE, Config(ZERO_SIGNAL, false, false, maxSize));
      waitMask, broken := {}, false;
    }

    ghost predicate Valid()
      reads this
    {
      !broken ==> WfSigtab(sigtab) && Agree(Live(sigtab.cells), waitMask)
    }

    /** All tables are far below the sizes at which growing could miss a mask byte. */
    ghost predicate Bounded()
      reads this
    {
      && |sigtab.cells| < LADDER_TOP
      && forall i | 0 <= i < |sigtab.cells| && sigtab.cells[i].Some? && sigtab.cells[i].value.entry.Some? ::
           |sigtab.cells[i].value.entry.value.cells| < LADDER_TOP
    }

    /** unregister_signal: a FOREACH that deletes every record of the signal it meets. */
    method UnregisterSignal(signum: nat)
      requires WfSigtab(sigtab)
      modifies this`sigtab, this`waitMask
      ensures WfSigtab(sigtab)
      ensures Live(sigtab.cells) == Kept(old(sigtab).cells, 0, NumIs(old(sigtab).cells, signum))
      ensures waitMask == if exists i :: i in Live(old(sigtab).cells) && Live(old(sigtab).cells)[i].num == signum
                          then old(waitMask) - {signum} else old(waitMask)
    {
      hide OnLadder, Iterating, Wf, Live, Kept, Holes, NextLive;
      ghost var cells, drop, seen := sigtab.cells, NumIs(sigtab.cells, signum), false;
      IterationStarts(sigtab, drop);
      var (s, found) := FirstNext(sigtab);
      sigtab := s;
      while found.Some?
        invariant Iterating(sigtab, found, cells, drop)
        invariant sigtab.cfg == old(sigtab).cfg && sigtab.size == old(sigtab).size
        invariant waitMask == if seen then old(waitMask) - {signum} else old(waitMask)
        invariant seen <==> exists i: nat :: i < (if found.Some? then found.value else |cells|) && drop(i)
        invariant found.Some? ==> found.value < |cells|
        decreases if found.Some? then 1 + |cells| - found.value else 0
      {
        IterationTurn(sigtab, found, cells, drop);
        if sigtab.cells[found.value].value.num == signum {
          waitMask := waitMask - {signum};
          seen := true;
          assert drop(found.value);
          sigtab := Delete(sigtab);
        }
        var (t, next) := Next(sigtab);
        sigtab, found := t, next;
      }
      IterationEnds(sigtab, found, cells, drop);
      SeenInLive(cells, signum);
    }

    /** unregister_signal for the record under the cursor keeps the agreement. */
    method DropRecord(signum: nat)
      requires WfSigtab(sigtab) && CanDelete(sigtab) && sigtab.cells[sigtab.pos].value.num == signum
      requires Distinct(Live(sigtab.cells))
      requires forall i | i in Live(sigtab.cells) && i != sigtab.pos :: WfSignal(Live(sigtab.cells)[i])
      requires forall n :: n in waitMask <==> exists i :: i in Live(sigtab.cells) && Live(sigtab.cells)[i].num == n
      modifies this`sigtab, this`waitMask
      ensures WfSigtab(sigtab) && Agree(Live(sigtab.cells), waitMask)
      ensures waitMask == old(waitMask) - {signum}
      ensures Live(sigtab.cells) == Live(old(sigtab).cells) - {old(sigtab).pos}
    {
      hide OnLadder, Wf, Kept, WfSignal;
      ghost var m, slot := Live(sigtab.cells), sigtab.pos;
      assert slot in m && m[slot].num == signum;
      KeptOthers(m, sigtab.cells, slot);
      AgreeRemove(m, waitMask, slot);
      UnregisterSignal(signum);
    }

    /**
    register_signal.  A record is pushed, so an emptied signal table is corrupted; in
    every other case the new signal is under the cursor, with an empty handler table.
    */
    method RegisterSignal(signum: nat, allocEntry: bool, allocTab: bool) returns (ok: bool)
      requires !broken && WfSigtab(sigtab) && Agree(Live(sigtab.cells), waitMask) && signum != 0
      modifies this
      ensures |old(sigtab).cells| < LADDER_TOP ==>
        (broken <==> signum !in old(waitMask) && signum !in UNHANDLED && allocEntry && Emptied(old(sigtab)))
      ensures !broken ==>
        (ok <==> signum !in old(waitMask) && signum !in UNHANDLED && allocEntry && HasRoom(old(sigtab), allocTab))
      ensures !broken && !ok ==>
        WfSigtab(sigtab) && Live(sigtab.cells) == Live(old(sigtab).cells) && waitMask == old(waitMask)
      ensures !broken && ok ==>
        var m := Live(old(sigtab).cells);
        && WfSigtab(sigtab) && CanDelete(sigtab) && sigtab.pos !in m
        && (var rec := sigtab.cells[sigtab.pos].value;
            && rec.num == signum && rec.entry.Some? && rec.entry.value.cells == [] && WfHandlers(rec.entry.value)
            && !Full(rec.entry.value) && Live(sigtab.cells) == m[sigtab.pos := rec])
        && waitMask == old(waitMask) + {signum}
      ensures ok ==> signum !in UNHANDLED && signum !in old(waitMask)
    {
      hide OnLadder, WfSignal;
      if signum in UNHANDLED { return false; }
      SearchNum(sigtab, waitMask, signum);
      var (t, found) := Search(sigtab, HasNum(signum));
      sigtab := t;
      if found.Some? { return false; }
      if !allocEntry { return false; }
      var entry := Fresh(ENT_TAB_SIZE, Config(ZERO_HANDLER, false, false, sigtab.cfg.maxSize));
      assert ENT_TAB_SIZE <= sigtab.cfg.maxSize && LadderSize(ENT_TAB_SIZE, sigtab.cfg.maxSize) by { RungFour(sigtab); }
      PushRecord(sigtab, Signal(signum, Some(entry)), allocTab);
      var o := Push(sigtab, Rules(None, None), Signal(signum, Some(entry)), allocTab);
      if o.Corrupt? {
        broken := true;
        return true;
      }
      sigtab := o.next;
      if !o.ok { return false; }
      waitMask := waitMask + {signum};
      return true;
    }

    /**
    signal_register adds the handler to its signal or, on every failing path, changes
    nothing.  It pushes, so it corrupts a signal table whose signals have all been
    unregistered; for tables of the sizes of Bounded it does so in that case only.
    */
    method SignalRegister(signum: nat, handler: nat, udata: nat, allocEntry: bool, allocTab: bool, allocHandler: bool)
      returns (ok: bool)
      requires Valid() && !broken && signum != 0
      modifies this
      ensures Valid()
      ensures !broken ==>
        (ok <==> if signum in old(waitMask) then SomeTakes(old(Live(sigtab.cells)), signum, handler, allocHandler)
                 else signum !in {4, 8, 9, 11, 19} && allocEntry && HasRoom(old(sigtab), allocTab))
      ensures old(Bounded()) ==>
        (broken <==> signum !in old(waitMask) && signum !in {4, 8, 9, 11, 19} && allocEntry && Emptied(old(sigtab)))
      ensures !broken && ok ==> waitMask == old(waitMask) + {signum} && forall n, h ::
        Registered(Live(sigtab.cells), n, h) <==>
          Registered(old(Live(sigtab.cells)), n, h) || (n == signum && h == Handler(handler, udata))
      ensures !broken && !ok ==> waitMask == old(waitMask) && forall n, h ::
        Registered(Live(sigtab.cells), n, h) <==> Registered(old(Live(sigtab.cells)), n, h)
    {
      hide OnLadder, WfHandlers, Holes, SearchLive, Has;
      SearchNum(sigtab, waitMask, signum);
      var (t, found) := Search(sigtab, HasNum(signum));
      sigtab := t;
      if found.None? {
        var registered := RegisterSignal(signum, allocEntry, allocTab);
        if !registered || broken { return registered; }
        NewTakes(sigtab.cells[sigtab.pos].value, handler, allocHandler);
      } else {
        TakesIn(old(Live(sigtab.cells)), sigtab.pos, handler, allocHandler);
      }
      ok := AddHandler(old(Live(sigtab.cells)), old(waitMask), Handler(handler, udata), allocHandler);
    }

    /** The second half of signal_register: push the handler into the record under the cursor. */
    method AddHandler(ghost m: map<nat, Signal>, ghost mask: set<nat>, h: Handler, alloc: bool) returns (ok: bool)
      requires !broken && WfSigtab(sigtab) && CanDelete(sigtab)
      requires Agree(m, mask)
      requires var sig := sigtab.cells[sigtab.pos].value;
        && sig.num != 0 && sig.entry.Some? && WfHandlers(sig.entry.value)
        && waitMask == mask + {sig.num} && Live(sigtab.cells) == m[sigtab.pos := sig]
        && (if sig.num in mask then sigtab.pos in m && m[sigtab.pos] == sig
            else sigtab.pos !in m && sig.entry.value.cells == [])
      modifies this
      ensures |old(sigtab.cells[sigtab.pos].value.entry.value).cells| < LADDER_TOP ==> !broken
      ensures !broken ==> WfSigtab(sigtab) && Agree(Live(sigtab.cells), waitMask)
      ensures var num := old(sigtab.cells[sigtab.pos].value.num);
        !broken ==>
          && waitMask == (if ok then mask + {num} else mask)
          && RegisteredPlus(Live(sigtab.cells), m, ok, num, h)
          && (ok <==> TakesHandler(old(sigtab.cells[sigtab.pos].value), h.handler, alloc))
    {
      hide OnLadder, WfHandlers, Emptied, SearchLive, Delete, Has, Handles;
      hide RegisteredPlus, WfSignal, Distinct, Placed, Holes;
      var sig := sigtab.cells[sigtab.pos].value;
      ghost var slot := sigtab.pos;
      NotEmptied(sig, sigtab.pos, m, mask);
      var pushed, corrupt, sig' := PushInto(sig, h, alloc);
      if corrupt {
        broken := true;
        return true;
      }
      WriteBack(sigtab, sig');
      sigtab := sigtab.(cells := sigtab.cells[sigtab.pos := Some(sig')]);
      ghost var m' := m[slot := sig'];
      assert Live(sigtab.cells) == m';
      if sig.num !in mask {
        SettleNew(m, mask, slot, sig, sig', h, pushed);
        assert !pushed ==> m' - {slot} == m;
      } else {
        SettleOld(m, mask, slot, sig, sig', h, pushed);
        assert Agree(m', mask) && !IsEmpty(sig'.entry.value);
      }
      ok := pushed;
      if !pushed && IsEmpty(sig'.entry.value) {
        DropRecord(sig.num);
        assert Live(sigtab.cells) == m;
      }
    }

    static method PushInto(sig: Signal, h: Handler, alloc: bool) returns (ok: bool, corrupt: bool, sig': Signal)
      requires sig.entry.Some? && WfHandlers(sig.entry.value) && !Emptied(sig.entry.value)
      ensures corrupt ==> LADDER_TOP <= |sig.entry.value.cells|
      ensures !corrupt ==> (ok <==> TakesHandler(sig, h.handler, alloc))
      ensures !corrupt ==> sig'.num == sig.num && sig'.entry.Some? && WfHandlers(sig'.entry.value)
      ensures !corrupt && ok ==> !IsEmpty(sig'.entry.value) && Placed(sig.entry.value, sig'.entry.value, h)
      ensures !corrupt && !ok ==> sig'.entry.value == sig.entry.value.(pos := sig'.entry.value.pos)
    {
      hide OnLadder, Write;
      PushHandler(sig.entry.value, h, alloc);
      var o := Push(sig.entry.value, HANDLER_RULES, h, alloc);
      if o.Corrupt? { return true, true, sig; }
      return o.ok, false, sig.(entry := Some(o.next));
    }

    /**
    handle_signal calls the handlers of a signal, each once and with the user data it was
    registered with, those in later slots first and the null handler excepted; what is
    registered stays.
    */
    method HandleSignal(signum: nat) returns (calls: seq<Handler>)
      requires Valid() && !broken && signum != 0
      modifies this`sigtab
      ensures Valid()
      ensures RegisteredPlus(Live(sigtab.cells), old(Live(sigtab.cells)), false, signum, ZERO_HANDLER)
      ensures forall h :: h in calls <==> h.handler != 0 && Registered(old(Live(sigtab.cells)), signum, h)
      ensures forall j, k | 0 <= j < k < |calls| :: calls[j].handler != calls[k].handler
      ensures LatestFirst(old(Live(sigtab.cells)), signum, calls)
    {
      hide OnLadder, WfHandlers, Holes, SearchLive, Has, Registered, RegisteredPlus, WfSignal, Distinct, LatestFirst;
      ghost var m := Live(sigtab.cells);
      SearchNum(sigtab, waitMask, signum);
      var (t, found) := Search(sigtab, HasNum(signum));
      sigtab := t;
      if found.None? {
        NoneRegistered(m, waitMask, signum);
        SamePlus(m, signum);
        NoneLatest(m, signum);
        return [];
      }
      var sig := sigtab.cells[sigtab.pos].value;
      SignalInUse(sig, m, sigtab.pos);
      var entry;
      calls, entry := CallHandlers(sig.entry.value);
      var sig' := sig.(entry := Some(entry));
      SettleOld(m, waitMask, sigtab.pos, sig, sig', ZERO_HANDLER, false);
      CalledAreRegistered(m, sigtab.pos, calls);
      WriteBack(sigtab, sig');
      sigtab := sigtab.(cells := sigtab.cells[sigtab.pos := Some(sig')]);
    }

    /** The reverse FOREACH over a handler table; on a hole in the last slot it meets the null handler. */
    static method CallHandlers(e: State<Handler>) returns (calls: seq<Handler>, e': State<Handler>)
      requires WfHandlers(e) && !IsEmpty(e)
      ensures calls == HandlersBelow(e.cells, |e.cells|)
      ensures WfHandlers(e') && e' == e.(pos := e'.pos)
    {
      hide OnLadder, Holes, HandlersBelow;
      calls, e' := [], e.(pos := Last(e));
      var found := Some(Last(e));
      while found.Some?
        invariant WfHandlers(e') && e' == e.(pos := e'.pos)
        invariant found.Some? ==> found.value == e'.pos < |e.cells|
        invariant calls + HandlersBelow(e.cells, if found.Some? then found.value + 1 else 0)
               == HandlersBelow(e.cells, |e.cells|)
        decreases if found.Some? then 1 + found.value else 0
      {
        var h := At(e', e'.pos);
        HandlersStep(e', h);
        if h.handler != 0 { calls := calls + [h]; }
        var (t, prev) := Prev(e');
        HandlersSkipHoles(e.cells, if prev.Some? then prev.value + 1 else 0, e'.pos);
        e', found := t, prev;
      }
      HandlersEnd(e.cells);
    }

    /**
    signal_unregister takes the handler away, and the signal with its last handler, unless
    it looks for the null handler and stops at a hole.  The last signal to go leaves the
    table emptied.
    */
    method SignalUnregister(signum: nat, handler: nat)
      requires Valid() && !broken
      modifies this
      ensures Valid() && !broken
      ensures forall n, h ::
        Registered(Live(sigtab.cells), n, h) <==>
        Registered(old(Live(sigtab.cells)), n, h) &&
          !(n == signum && h.handler == handler && !NullMissed(old(Live(sigtab.cells)), signum, handler))
      ensures waitMask == old(waitMask) ||
        (waitMask == old(waitMask) - {signum} && forall h :: !Registered(Live(sigtab.cells), signum, h))
      ensures waitMask == {} && sigtab.cells != [] ==> Emptied(sigtab)
    {
      hide OnLadder, WfHandlers, Holes, SearchLive, Delete, Has, Registered, WfSignal, Distinct, NullMissed;
      ghost var m := Live(sigtab.cells);
      if signum == 0 {
        SearchZero(sigtab, waitMask);
      } else {
        SearchNum(sigtab, waitMask, signum);
      }
      var (t, found) := Search(sigtab, HasNum(signum));
      sigtab := t;
      if found.None? || sigtab.cells[sigtab.pos].None? {
        // nothing, or the zeroed record of a hole, which has no handler table
        NoneRegistered(m, waitMask, signum);
      } else {
        RemoveHandler(handler);
      }
      LastSignalEmpties(sigtab, waitMask);
    }

    /** The part of signal_unregister that works on the record under the cursor. */
    method RemoveHandler(handler: nat)
      requires Valid() && !broken && CanDelete(sigtab)
      modifies this
      ensures Valid() && !broken
      ensures var m, num := Live(old(sigtab).cells), old(sigtab).cells[old(sigtab).pos].value.num;
        && (forall n, h :: Registered(Live(sigtab.cells), n, h) <==>
              Registered(m, n, h) && !(n == num && h.handler == handler && !NullMissed(m, num, handler)))
        && (waitMask == old(waitMask) ||
            (waitMask == old(waitMask) - {num} && forall h :: !Registered(Live(sigtab.cells), num, h)))
    {
      hide OnLadder, WfHandlers, Holes, SearchLive, Delete, Has, Registered, WfSignal, MissesNull, NullMissed;
      ghost var m := Live(sigtab.cells);
      var sig := sigtab.cells[sigtab.pos].value;
      assert sigtab.pos in m && m[sigtab.pos] == sig;
      SignalInUse(sig, m, sigtab.pos);
      MissedIn(m, sigtab.pos, handler);
      var hit, sig' := TakeHandler(sig, handler);
      WriteBack(sigtab, sig');
      sigtab := sigtab.(cells := sigtab.cells[sigtab.pos := Some(sig')]);
      if MissesNull(sig, handler) {
        assert m[sigtab.pos := sig'] == m;
      } else {
        UnregisterOne(m, waitMask, sigtab.pos, sig, sig', handler);
      }
      if hit && IsEmpty(sig'.entry.value) { DropRecord(sig.num); }
    }

    /** Search a handler table and delete what was found; a hole that was found is left alone. */
    static method TakeHandler(sig: Signal, handler: nat) returns (hit: bool, sig': Signal)
      requires sig.entry.Some? && WfHandlers(sig.entry.value) && !IsEmpty(sig.entry.value)
      ensures sig'.num == sig.num && sig'.entry.Some? && WfHandlers(sig'.entry.value)
      ensures !hit ==> !IsEmpty(sig'.entry.value)
      ensures MissesNull(sig, handler) ==> sig' == sig
      ensures !MissesNull(sig, handler) ==> forall x :: Has(sig', x) <==> Has(sig, x) && x.handler != handler
    {
      hide OnLadder;
      var (e, found) := Search(sig.entry.value, HasHandler(handler));
      sig' := sig.(entry := Some(e));
      hit := found.Some?;
      if MissesNull(sig, handler) {
        SearchOnHole(sig.entry.value, HasHandler(handler));
      } else {
        DeleteHandler(sig.entry.value, handler);
      }
      if hit {
        sig' := sig.(entry := Some(Delete(e)));
        if !MissesNull(sig, handler) { DeletedHas(sig.(entry := Some(e)), sig', handler); }
      }
    }
  }
}
