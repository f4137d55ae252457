/**
The module registry: modules attach to cores by putting a hook into the core's hook
table, and keep a pointer back to their core.  Attaching is a transaction of several
steps, each of which can fail; detaching looks the hook up again and deletes it.
*/
module Modules {
  import opened Wrappers
  import opened TableSpec
  import opened TableRep
  import opened TableRuns
  import opened TableCorrupt
  import opened TableKeys

  /** ratt_module_entry_t; the flags say which callbacks and configuration it comes with. */
  datatype Module = Module(name: nat, core: Option<nat>, attach: bool, detach: bool, config: bool, hookSize: nat)

  /** ratt_module_hook_t; the owning module is null in zeroed memory only. */
  datatype Hook = Hook(owner: Option<nat>)

  datatype Core = Core(hookSize: nat, verMajor: nat, attach: bool, detach: bool)

  /** What the callbacks and the allocator answer during one attachment. */
  datatype Answers = Answers(conf: bool, mem: bool, attach: bool, version: nat, core: bool, alloc: bool)

  /** What is outstanding: configurations parsed, hooks allocated, attach callbacks not undone. */
  datatype Effects = Effects(confs: int, hooks: int, attached: int, coreAttached: int)

  const ZERO_HOOK := Hook(None)

  function HooksModule(name: nat): Hook -> bool { (h: Hook) => h.owner == Some(name) }

  // ---- the agreement ------------------------------------------------------

  ghost predicate WfHooks(t: State<Hook>) { Wf(t) && t.cfg.zero == ZERO_HOOK && !t.cfg.noReuse }

  ghost predicate DistinctNames(m: map<nat, Module>) {
    forall i, j | i in m && j in m && i != j :: m[i].name != m[j].name
  }

  /** Some module of this name points at the core. */
  ghost predicate AttachedTo(m: map<nat, Module>, c: nat, name: nat) {
    exists i :: i in m && m[i].name == name && m[i].core == Some(c)
  }

  ghost predicate HasHook(h: map<nat, Hook>, name: nat) {
    exists j :: j in h && h[j] == Hook(Some(name))
  }

  /** A hook table holds one hook for each module attached to the core, and nothing else. */
  ghost predicate HooksAgree(m: map<nat, Module>, h: map<nat, Hook>, c: nat) {
    && (forall name :: AttachedTo(m, c, name) <==> HasHook(h, name))
    && (forall j | j in h :: h[j].owner.Some?)
    && DistinctHooks(h)
  }

  ghost predicate DistinctHooks(h: map<nat, Hook>) {
    forall j, k | j in h && k in h && j != k :: h[j] != h[k]
  }

  ghost predicate Agree(m: map<nat, Module>, hooks: map<nat, State<Hook>>) {
    && DistinctNames(m)
    && (forall c | c in hooks :: HooksAgree(m, Live(hooks[c].cells), c))
    && (forall i | i in m && m[i].core.Some? :: m[i].core.value in hooks)
  }

  /** Pointing a module elsewhere changes whether that one module is attached. */
  lemma AttachedAfter(m: map<nat, Module>, i: nat, to: Option<nat>, c: nat, name: nat)
    requires DistinctNames(m) && i in m
    ensures AttachedTo(m[i := m[i].(core := to)], c, name) <==>
            if name == m[i].name then to == Some(c) else AttachedTo(m, c, name)
  {
    var m' := m[i := m[i].(core := to)];
    assert m'[i].name == m[i].name && m'[i].core == to;
    if k :| k in m && m[k].name == name && m[k].core == Some(c) && k != i { assert k in m' && m'[k] == m[k]; }
    if k :| k in m' && m'[k].name == name && m'[k].core == Some(c) && k != i { assert k in m && m'[k] == m[k]; }
  }

  lemma HasHookAfterAdd(h: map<nat, Hook>, j: nat, added: nat, name: nat)
    requires j !in h
    ensures HasHook(h[j := Hook(Some(added))], name) <==> HasHook(h, name) || name == added
  {
    var h' := h[j := Hook(Some(added))];
    assert h'[j] == Hook(Some(added));
    if k :| k in h && h[k] == Hook(Some(name)) { assert k in h' && h'[k] == h[k]; }
  }

  lemma HasHookAfterRemove(h: map<nat, Hook>, j: nat, removed: nat, name: nat)
    requires j in h && h[j] == Hook(Some(removed)) && DistinctHooks(h)
    ensures HasHook(h - {j}, name) <==> HasHook(h, name) && name != removed
  {
    var h' := h - {j};
    if k :| k in h && h[k] == Hook(Some(name)) && k != j { assert k in h' && h'[k] == h[k]; }
  }

  lemma AttachAgrees(m: map<nat, Module>, h: map<nat, Hook>, c: nat, i: nat, j: nat)
    requires DistinctNames(m) && HooksAgree(m, h, c) && i in m && m[i].core.None? && j !in h
    ensures HooksAgree(m[i := m[i].(core := Some(c))], h[j := Hook(Some(m[i].name))], c)
  {
    hide HasHook;
    var m', h' := m[i := m[i].(core := Some(c))], h[j := Hook(Some(m[i].name))];
    assert !AttachedTo(m, c, m[i].name);
    forall name ensures AttachedTo(m', c, name) <==> HasHook(h', name) {
      AttachedAfter(m, i, Some(c), c, name);
      HasHookAfterAdd(h, j, m[i].name, name);
    }
    forall k | k in h ensures h[k] != Hook(Some(m[i].name)) { HookIsHad(h, k, m[i].name); }
  }

  lemma HookIsHad(h: map<nat, Hook>, k: nat, name: nat)
    requires k in h
    ensures h[k] == Hook(Some(name)) ==> HasHook(h, name)
  {
  }

  /** A change of one module's pointer away from or to another core does not concern this one. */
  lemma OtherCoreAgrees(m: map<nat, Module>, h: map<nat, Hook>, c: nat, i: nat, to: Option<nat>)
    requires DistinctNames(m) && HooksAgree(m, h, c) && i in m && m[i].core != Some(c) && to != Some(c)
    ensures HooksAgree(m[i := m[i].(core := to)], h, c)
  {
    hide HasHook;
    assert !AttachedTo(m, c, m[i].name);
    forall name ensures AttachedTo(m[i := m[i].(core := to)], c, name) <==> HasHook(h, name) {
      AttachedAfter(m, i, to, c, name);
    }
  }

  lemma DetachAgrees(m: map<nat, Module>, h: map<nat, Hook>, c: nat, i: nat, j: nat)
    requires DistinctNames(m) && HooksAgree(m, h, c) && i in m && m[i].core == Some(c)
    requires j in h && h[j] == Hook(Some(m[i].name))
    ensures HooksAgree(m[i := m[i].(core := None)], h - {j}, c)
  {
    hide HasHook;
    var m', h' := m[i := m[i].(core := None)], h - {j};
    forall name ensures AttachedTo(m', c, name) <==> HasHook(h', name) {
      AttachedAfter(m, i, None, c, name);
      HasHookAfterRemove(h, j, m[i].name, name);
    }
  }

  /** What the agreement means for one module: it points at a core exactly when that core has one hook for it. */
  lemma AttachedExactly(m: map<nat, Module>, hooks: map<nat, State<Hook>>, c: nat, i: nat)
    requires Agree(m, hooks) && c in hooks && i in m
    ensures m[i].core == Some(c) <==> exists j :: OnlyHook(Live(hooks[c].cells), m[i].name, j)
  {
    var h := Live(hooks[c].cells);
    assert HooksAgree(m, h, c);
    assert m[i].core == Some(c) ==> AttachedTo(m, c, m[i].name);
    if HasHook(h, m[i].name) {
      var j :| j in h && h[j] == Hook(Some(m[i].name));
      assert OnlyHook(h, m[i].name, j);
    }
    assert (exists j :: OnlyHook(h, m[i].name, j)) ==> HasHook(h, m[i].name);
  }

  ghost predicate OnlyHook(h: map<nat, Hook>, name: nat, j: nat) {
    j in h && h[j] == Hook(Some(name)) && forall k | k in h && h[k] == Hook(Some(name)) :: k == j
  }

  // ---- detaching ----------------------------------------------------------

  /**
  Searching a hook table reads the name of the module behind the chunk under the cursor.
  On a hole that chunk is zeroed and its module pointer null.
  */
  predicate SearchCrashes(t: State<Hook>) { !IsEmpty(t) && t.pos < |t.cells| && t.cells[t.pos].None? }

  /** Where the hook of a module is. */
  function HookSlot(cells: seq<Option<Hook>>, name: nat): Option<nat> { NextMatch(cells, HooksModule(name), 0) }

  /** The look-up of detach_module, when it does not crash, finds the hook of the module. */
  lemma SearchHook(m: map<nat, Module>, hooks: map<nat, State<Hook>>, c: nat, i: nat)
    requires Agree(m, hooks) && c in hooks && WfHooks(hooks[c]) && i in m && m[i].core == Some(c)
    requires !SearchCrashes(hooks[c])
    ensures var t, name := hooks[c], m[i].name;
      var (t1, found) := Search(t, HooksModule(name)); var slot := HookSlot(t.cells, name);
      && found.Some? && found == slot && t1 == t.(pos := slot.value) && CanDelete(t1) && WfHooks(t1)
      && slot.value in Live(t.cells) && Live(t.cells)[slot.value] == Hook(Some(m[i].name))
      && WfHooks(Delete(t1)) && Live(Delete(t1).cells) == Live(t.cells) - {slot.value}
  {
    hide Holes, HookSlot, Search, Agree, HooksAgree, Delete, SearchCrashes;
    var j := HookOfModule(m, hooks, c, i);
    SearchOneHook(hooks[c], m[i].name, j);
    HookDeleted(hooks[c].(pos := j));
  }

  lemma HookOfModule(m: map<nat, Module>, hooks: map<nat, State<Hook>>, c: nat, i: nat) returns (j: nat)
    requires Agree(m, hooks) && c in hooks && i in m && m[i].core == Some(c)
    ensures j in Live(hooks[c].cells) && Live(hooks[c].cells)[j] == Hook(Some(m[i].name))
    ensures DistinctHooks(Live(hooks[c].cells))
  {
    assert HooksAgree(m, Live(hooks[c].cells), c) && AttachedTo(m, c, m[i].name);
    j :| j in Live(hooks[c].cells) && Live(hooks[c].cells)[j] == Hook(Some(m[i].name));
  }

  lemma HookDeleted(t: State<Hook>)
    requires WfHooks(t) && CanDelete(t)
    ensures WfHooks(Delete(t)) && Live(Delete(t).cells) == Live(t.cells) - {t.pos}
  {
    hide Holes;
    CountDelete(t);
  }

  /** With distinct hooks, the search ends on the slot of the one that matches. */
  lemma SearchOneHook(t: State<Hook>, name: nat, j: nat)
    requires WfHooks(t) && !SearchCrashes(t)
    requires j in Live(t.cells) && Live(t.cells)[j] == Hook(Some(name))
    requires DistinctHooks(Live(t.cells))
    ensures var (t1, found) := Search(t, HooksModule(name));
      && found == Some(j) == HookSlot(t.cells, name) && t1 == t.(pos := j) && CanDelete(t1) && WfHooks(t1)
  {
    hide Holes;
    assert t.cells[j].Some? && HooksModule(name)(t.cells[j].value);
    SearchIff(t, HooksModule(name));
    var (t1, found) := Search(t, HooksModule(name));
    assert t1.pos in Live(t.cells) && Live(t.cells)[t1.pos] == Hook(Some(name));
    var slot := HookSlot(t.cells, name);
    assert slot.value in Live(t.cells) && Live(t.cells)[slot.value] == Hook(Some(name));
  }

  /** The hooks of a core deleted one after the other, in the order of these slots; None once a search crashes. */
  function DetachRun(t: State<Hook>, slots: seq<nat>): Option<State<Hook>>
    decreases |slots|
  {
    if slots == [] then Some(t)
    else if SearchCrashes(t) then None
    else DetachRun(Delete(t.(pos := slots[0])), slots[1..])
  }

  ghost predicate DistinctSlots(slots: seq<nat>) {
    forall j, k | 0 <= j < k < |slots| :: slots[j] != slots[k]
  }

  /** Every slot with a hook, each once. */
  ghost predicate ListsHooks(cells: seq<Option<Hook>>, slots: seq<nat>) {
    DistinctSlots(slots) && forall q: nat :: q in slots <==> q in Live(cells)
  }

  /**
  The cursor is on a hook, and two or more hooks come up from the last slot down, with no
  hole between them or behind them.
  */
  predicate GoesThrough(t: State<Hook>, slots: seq<nat>) {
    slots == [] ||
    (t.pos < |t.cells| && t.cells[t.pos].Some? &&
     (|slots| >= 2 ==> forall k | 0 <= k < |slots| :: slots[k] == |t.cells| - 1 - k))
  }

  /**
  Detaching all modules of a core goes through exactly then.  In any other order some
  look-up finds the cursor on the hole an earlier deletion left, and crashes.
  */
  lemma {:induction false} DetachesOnlyBackwards(t: State<Hook>, slots: seq<nat>)
    requires Wf(t) && ListsHooks(t.cells, slots)
    ensures DetachRun(t, slots).Some? <==> GoesThrough(t, slots)
    decreases |slots|
  {
    hide Holes;
    if slots != [] {
      var d := t.(pos := slots[0]);
      assert slots[0] in Live(t.cells);
      SomeLive(t.cells, slots[0]);
      if |slots| == 1 {
        assert DetachRun(Delete(d), slots[1..]).Some?;
      } else {
        CountDelete(d);
        RestLists(t, slots);
        DetachesOnlyBackwards(Delete(d), slots[1..]);
        if t.cells[t.pos].Some? { RestGoesThrough(t, slots); }
      }
    }
  }

  lemma RestLists(t: State<Hook>, slots: seq<nat>)
    requires Wf(t) && ListsHooks(t.cells, slots) && slots != []
    ensures slots[0] in Live(t.cells) && ListsHooks(Delete(t.(pos := slots[0])).cells, slots[1..])
  {
    assert slots[0] in slots;
    var d := Delete(t.(pos := slots[0]));
    forall q: nat ensures q in slots[1..] <==> q in Live(d.cells) {
      assert q in slots <==> q in Live(t.cells);
      assert q in slots[1..] ==> q in slots && q != slots[0];
    }
  }

  lemma RestGoesThrough(t: State<Hook>, slots: seq<nat>)
    requires Wf(t) && ListsHooks(t.cells, slots) && |slots| >= 2
    requires t.pos < |t.cells| && t.cells[t.pos].Some?
    ensures GoesThrough(t, slots) <==> GoesThrough(Delete(t.(pos := slots[0])), slots[1..])
  {
    var d, n := Delete(t.(pos := slots[0])), |t.cells|;
    assert slots[0] in slots && slots[1] in slots && slots[0] in Live(t.cells) && slots[1] in Live(t.cells);
    if slots[0] == n - 1 {
      RestLists(t, slots);
      if GoesThrough(d, slots[1..]) {
        if |slots| == 2 { assert d.pos in Live(d.cells) && d.pos in slots[1..]; }
        forall k | 0 <= k < |slots| ensures slots[k] == n - 1 - k {
          if k > 0 { assert slots[k] == slots[1..][k - 1]; }
        }
      }
    }
  }

  /** The slots of the hooks of a core's modules, in the order of the modules. */
  function HookOrder(cells: seq<Option<Module>>, tab: seq<Option<Hook>>, c: nat, from: nat): seq<nat>
    decreases |cells| - from
  {
    if from >= |cells| then []
    else
      var attached := cells[from].Some? && cells[from].value.core == Some(c);
      var here := if attached then HookSlot(tab, cells[from].value.name) else None;
      (if here.Some? then [here.value] else []) + HookOrder(cells, tab, c, from + 1)
  }

  /** The modules with the pointer to a core cleared, below slot `upto`. */
  ghost function Cleared(cells: seq<Option<Module>>, c: nat, upto: nat): seq<Option<Module>> {
    seq(|cells|, i requires 0 <= i < |cells| =>
      if i < upto && cells[i].Some? && cells[i].value.core == Some(c) then Some(cells[i].value.(core := None))
      else cells[i])
  }

  /** What is still in a hook table is where it was. */
  ghost predicate StillHooked(now: seq<Option<Hook>>, was: seq<Option<Hook>>) {
    forall j | j in Live(now) :: j in Live(was) && Live(was)[j] == Live(now)[j]
  }

  // ---- what attaching leaves behind ---------------------------------------

  /** Whether attach_module gets past the attach callback of the module. */
  predicate GetsAttached(m: Module, core: Core, a: Answers) {
    && m.core.None? && m.attach && 0 < m.hookSize <= core.hookSize
    && (m.config ==> a.conf) && a.mem && a.attach
  }

  /** Whether attach_module gets as far as inserting the hook. */
  predicate Acceptable(m: Module, core: Core, a: Answers) {
    GetsAttached(m, core, a) && a.version <= core.verMajor && (core.attach ==> a.core)
  }

  /** Whether a hook table takes one more hook: it was not emptied, and has a hole, a free slot or memory to grow. */
  predicate TakesHook(t: State<Hook>, alloc: bool) {
    !Emptied(t) && (Holes(t.cells) > 0 || !Full(t) || CanGrow(t, alloc))
  }

  function One(b: bool): int { if b then 1 else 0 }

  /** What is outstanding once a module is attached. */
  function AfterAttach(e: Effects, m: Module, core: Core): Effects {
    Effects(e.confs + One(m.config), e.hooks + 1, e.attached + 1, e.coreAttached + One(core.attach))
  }

  /** And once it failed before the insertion: a module without detach callback stays attached. */
  function AfterFailure(e: Effects, m: Module, core: Core, a: Answers): Effects {
    e.(attached := e.attached + One(GetsAttached(m, core, a) && !m.detach))
  }

  /** And once the hook table refused the hook. */
  function AfterRefusal(e: Effects, m: Module, core: Core): Effects {
    e.(attached := e.attached + One(!m.detach), coreAttached := e.coreAttached + One(core.attach) - One(core.detach))
  }

  /** What these come to, one check, callback and allocation after the other. */
  lemma AttachingMeans(e: Effects, m: Module, core: Core, a: Answers, t: State<Hook>)
    ensures Acceptable(m, core, a) <==>
      && m.core.None? && m.attach && 1 <= m.hookSize <= core.hookSize
      && (m.config ==> a.conf) && a.mem && a.attach
      && a.version <= core.verMajor && (core.attach ==> a.core)
    ensures TakesHook(t, a.alloc) <==>
      !Emptied(t) && (Holes(t.cells) > 0 || !Full(t) || CanGrow(t, a.alloc))
    ensures var attached := m.core.None? && m.attach && 1 <= m.hookSize <= core.hookSize &&
        (m.config ==> a.conf) && a.mem && a.attach;
      AfterFailure(e, m, core, a) == e.(attached := e.attached + if attached && !m.detach then 1 else 0)
  {
  }

  function AfterDetach(e: Effects, m: Module, core: Core): Effects {
    e.(hooks := e.hooks - 1, attached := e.attached - One(m.detach), coreAttached := e.coreAttached - One(core.detach))
  }

  /**
  A failed attachment always gives back the hook and the configuration.  Everything is
  as before exactly when, before the insertion, the module has a detach callback or was
  not attached yet; and at the insertion, the module has one and the core has both or neither.
  */
  lemma UndoneIff(e: Effects, m: Module, core: Core, a: Answers)
    ensures AfterFailure(e, m, core, a).hooks == AfterRefusal(e, m, core).hooks == e.hooks
    ensures AfterFailure(e, m, core, a).confs == AfterRefusal(e, m, core).confs == e.confs
    ensures AfterFailure(e, m, core, a) == e <==>
      || m.detach || m.core.Some? || !m.attach || m.hookSize == 0 || m.hookSize > core.hookSize
      || (m.config && !a.conf) || !a.mem || !a.attach
    ensures AfterRefusal(e, m, core) == e <==> m.detach && core.detach == core.attach
  {
  }

  /** A core with a detach callback and no attach callback is told to detach what it never attached. */
  lemma RefusalDetachesTooMuch(e: Effects)
    ensures var m, core := Module(1, None, true, true, false, 8), Core(8, 1, false, true);
      && Acceptable(m, core, Answers(true, true, true, 1, true, true))
      && AfterRefusal(e, m, core) == e.(coreAttached := e.coreAttached - 1)
  {
  }

  /**
  Attaching and detaching again gives everything back exactly when the module has no
  configuration, which detach_module does not release, and the callbacks come in pairs.
  */
  lemma DetachUndoesIff(e: Effects, m: Module, core: Core)
    ensures AfterDetach(AfterAttach(e, m, core), m, core) == e <==> !m.config && m.detach && core.detach == core.attach
  {
  }

  /** What is outstanding after detaching a core's modules below slot `upto`. */
  function AfterDetaching(e: Effects, cells: seq<Option<Module>>, c: nat, core: Core, upto: nat): Effects
    requires upto <= |cells|
  {
    if upto == 0 then e
    else
      var e1 := AfterDetaching(e, cells, c, core, upto - 1);
      var m := cells[upto - 1];
      if m.Some? && m.value.core == Some(c) then AfterDetach(e1, m.value, core) else e1
  }

  lemma {:induction false} DetachingSkipsHoles(e: Effects, cells: seq<Option<Module>>, c: nat, core: Core,
      from: nat, upto: nat)
    requires from <= upto <= |cells| && forall i | from <= i < upto :: cells[i].None?
    ensures AfterDetaching(e, cells, c, core, from) == AfterDetaching(e, cells, c, core, upto)
    decreases upto
  {
    if from == upto {
    } else {
      DetachingSkipsHoles(e, cells, c, core, from, upto - 1);
    }
  }

  /** Detaching a core's modules gives back one hook for each of them, and no configuration. */
  lemma {:induction false} DetachingFrees(e: Effects, cells: seq<Option<Module>>, tab: seq<Option<Hook>>, c: nat,
      core: Core, upto: nat)
    requires upto <= |cells|
    requires forall i | 0 <= i < |cells| && cells[i].Some? && cells[i].value.core == Some(c) ::
      HookSlot(tab, cells[i].value.name).Some?
    ensures var e1 := AfterDetaching(e, cells, c, core, upto);
      e1.confs == e.confs && e1.hooks + |HookOrder(cells, tab, c, 0)| == e.hooks + |HookOrder(cells, tab, c, upto)|
    decreases upto
  {
    if upto == 0 {
    } else {
      DetachingFrees(e, cells, tab, c, core, upto - 1);
    }
  }

  lemma NothingDetached(e: Effects, cells: seq<Option<Module>>, c: nat, core: Core, upto: nat)
    requires upto <= |cells| && forall i | 0 <= i < upto :: cells[i].None?
    ensures AfterDetaching(e, cells, c, core, upto) == e
  {
    DetachingSkipsHoles(e, cells, c, core, 0, upto);
  }

  lemma OneDetached(e: Effects, cells: seq<Option<Module>>, c: nat, core: Core, p: nat, next: nat)
    requires p < next <= |cells| && cells[p].Some? && forall i | p < i < next :: cells[i].None?
    ensures AfterDetaching(e, cells, c, core, next) ==
      (var e1 := AfterDetaching(e, cells, c, core, p);
       if cells[p].value.core == Some(c) then AfterDetach(e1, cells[p].value, core) else e1)
  {
    DetachingSkipsHoles(e, cells, c, core, p + 1, next);
  }

  lemma PointsAtCore(m: map<nat, Module>, hooks: map<nat, State<Hook>>, i: nat)
    requires Agree(m, hooks) && i in m
    ensures m[i].core.Some? ==> m[i].core.value in hooks
  {
  }

  lemma SlotIsLive(cells: seq<Option<Module>>, slot: nat)
    requires slot in Live(cells)
    ensures slot < |cells| && cells[slot].Some? && Live(cells)[slot] == cells[slot].value
  {
  }

  lemma ModuleUpdate(t: State<Module>, slot: nat, m: Module)
    requires Wf(t) && slot in Live(t.cells)
    ensures slot < |t.cells|
    ensures var t' := t.(cells := t.cells[slot := Some(m)]); Wf(t') && Live(t'.cells) == Live(t.cells)[slot := m]
  {
  }

  lemma InsertHook(t: State<Hook>, name: nat, alloc: bool)
    requires WfHooks(t)
    ensures var o := Insert(t, Rules(None, None), Hook(Some(name)), alloc);
      && (o.Corrupt? <==> TakesHook(t, alloc) && MissesByte(t, true, alloc))
      && (o.Corrupt? || o.ok <==> TakesHook(t, alloc))
      && (o.Done? ==> WfHooks(o.next))
      && (o.Done? && o.ok ==>
            o.next.pos !in Live(t.cells) && Live(o.next.cells) == Live(t.cells)[o.next.pos := Hook(Some(name))])
      && (o.Done? && !o.ok ==> o.next == t.(pos := o.next.pos))
  {
    hide Holes, CanGrow, NextSize;
    var op := OpInsert(Hook(Some(name)), alloc);
    InsertFailsIff(t, Rules(None, None), Hook(Some(name)), alloc);
    HookCorruptIff(t, name, alloc);
    var o := Insert(t, Rules(None, None), Hook(Some(name)), alloc);
    assert o == Step(t, Rules(None, None), op);
    if o.Done? {
      StepKeepsWf(t, Rules(None, None), op);
      StepOnLive(t, Rules(None, None), op);
      PlaceShape(t, Hook(Some(name)), true, alloc);
    }
  }

  lemma HookCorruptIff(t: State<Hook>, name: nat, alloc: bool)
    requires WfHooks(t)
    ensures Insert(t, Rules(None, None), Hook(Some(name)), alloc).Corrupt? <==> MissesByte(t, true, alloc)
    ensures MissesByte(t, true, alloc) ==> TakesHook(t, alloc)
  {
    hide Holes;
    CorruptIff(t, Rules(None, None), Hook(Some(name)), true, alloc);
  }

  lemma HooksMoved(m: map<nat, Module>, hooks: map<nat, State<Hook>>, c: nat, t: State<Hook>)
    requires Agree(m, hooks) && c in hooks && t.cells == hooks[c].cells
    ensures Agree(m, hooks[c := t])
  {
  }

  lemma HookedAgrees(m: map<nat, Module>, hooks: map<nat, State<Hook>>, c: nat, i: nat, t: State<Hook>)
    requires Agree(m, hooks) && c in hooks && i in m && m[i].core.None?
    requires t.pos !in Live(hooks[c].cells) && Live(t.cells) == Live(hooks[c].cells)[t.pos := Hook(Some(m[i].name))]
    ensures Agree(m[i := m[i].(core := Some(c))], hooks[c := t])
  {
    hide HooksAgree, Live;
    AttachAgrees(m, Live(hooks[c].cells), c, i, t.pos);
    forall d | d in hooks && d != c
      ensures HooksAgree(m[i := m[i].(core := Some(c))], Live(hooks[d].cells), d)
    {
      OtherCoreAgrees(m, Live(hooks[d].cells), d, i, Some(c));
    }
  }

  lemma UnhookedAgrees(m: map<nat, Module>, hooks: map<nat, State<Hook>>, c: nat, i: nat, j: nat, t: State<Hook>)
    requires Agree(m, hooks) && c in hooks && i in m && m[i].core == Some(c)
    requires j in Live(hooks[c].cells) && Live(hooks[c].cells)[j] == Hook(Some(m[i].name))
    requires Live(t.cells) == Live(hooks[c].cells) - {j}
    ensures Agree(m[i := m[i].(core := None)], hooks[c := t])
  {
    hide HooksAgree, Live;
    DetachAgrees(m, Live(hooks[c].cells), c, i, j);
    forall d | d in hooks && d != c
      ensures HooksAgree(m[i := m[i].(core := None)], Live(hooks[d].cells), d)
    {
      OtherCoreAgrees(m, Live(hooks[d].cells), d, i, None);
    }
  }

  // ---- the loop over the modules ------------------------------------------

  lemma {:induction false} OrderSkipsHoles(cells: seq<Option<Module>>, tab: seq<Option<Hook>>, c: nat, from: nat,
      to: nat)
    requires from <= to <= |cells| && forall i | from <= i < to :: cells[i].None?
    ensures HookOrder(cells, tab, c, from) == HookOrder(cells, tab, c, to)
    ensures Cleared(cells, c, from) == Cleared(cells, c, to)
    decreases |cells| - from
  {
    if from == to {
    } else {
      OrderSkipsHoles(cells, tab, c, from + 1, to);
    }
  }

  lemma FirstModule(s: State<Module>, c: nat)
    requires Wf(s)
    ensures var (t, found) := FirstNext(s); var at := if found.Some? then found.value else |s.cells|;
      && t == s.(pos := t.pos) && Wf(t)
      && (found.Some? ==> found.value == t.pos && CanDelete(t) && found.value < |s.cells|)
      && s.cells == Cleared(s.cells, c, at)
      && (forall i | 0 <= i < at :: s.cells[i].None?)
      && forall tab :: HookOrder(s.cells, tab, c, at) == HookOrder(s.cells, tab, c, 0)
  {
    hide Holes;
    if IsEmpty(s) { NoneLive(s.cells); }
    var (t, found) := FirstNext(s);
    forall tab
      ensures var at := if found.Some? then found.value else |s.cells|;
        HookOrder(s.cells, tab, c, at) == HookOrder(s.cells, tab, c, 0)
    {
      OrderSkipsHoles(s.cells, tab, c, 0, if found.Some? then found.value else |s.cells|);
    }
  }

  /** The module under the cursor is the one the pass started with. */
  lemma AtModule(s: State<Module>, cells: seq<Option<Module>>, c: nat)
    requires CanDelete(s) && s.cells == Cleared(cells, c, s.pos) && s.pos < |cells|
    ensures cells[s.pos].Some? && s.cells[s.pos] == cells[s.pos] && s.pos in Live(s.cells) &&
      Live(s.cells)[s.pos] == cells[s.pos].value
  {
  }

  lemma NextModule(s: State<Module>, cells: seq<Option<Module>>, tab: seq<Option<Hook>>, c: nat, p: nat)
    requires Wf(s) && s.pos == p < |cells| && cells[p].Some?
    requires s.cells == Cleared(cells, c, p + 1)
    ensures var (t, found) := Next(s); var at := if found.Some? then found.value else |cells|;
      && t == s.(pos := t.pos) && Wf(t)
      && (found.Some? ==> found.value == t.pos && CanDelete(t) && p < found.value < |cells|)
      && s.cells == Cleared(cells, c, at)
      && (forall i | p < i < at :: cells[i].None?)
      && HookOrder(cells, tab, c, at) == HookOrder(cells, tab, c, p + 1)
  {
    hide Holes;
    SomeLive(s.cells, p);
    var (t, found) := Next(s);
    forall i | p + 1 <= i < (if found.Some? then found.value else |cells|) ensures cells[i].None? {
      assert s.cells[i].None?;
    }
    OrderSkipsHoles(cells, tab, c, p + 1, if found.Some? then found.value else |cells|);
  }

  /** The hook of a module that is still attached is at its first place. */
  lemma HookStaysPut(m: map<nat, Module>, hooks: map<nat, State<Hook>>, tab: State<Hook>, c: nat, i: nat)
    requires Agree(m, hooks) && c in hooks && WfHooks(hooks[c]) && i in m && m[i].core == Some(c)
    requires StillHooked(hooks[c].cells, tab.cells)
    requires DistinctHooks(Live(tab.cells))
    ensures HookSlot(hooks[c].cells, m[i].name).Some? &&
      HookSlot(hooks[c].cells, m[i].name) == HookSlot(tab.cells, m[i].name)
    ensures HookSlot(hooks[c].cells, m[i].name).value in Live(hooks[c].cells)
  {
    var name := m[i].name;
    assert HooksAgree(m, Live(hooks[c].cells), c) && AttachedTo(m, c, name);
    var j :| j in Live(hooks[c].cells) && Live(hooks[c].cells)[j] == Hook(Some(name));
    HookSlotIs(hooks[c].cells, name, j);
    HookSlotIs(tab.cells, name, j);
  }

  lemma HooksAtStart(m: map<nat, Module>, hooks: map<nat, State<Hook>>, c: nat)
    requires Agree(m, hooks) && c in hooks
    ensures StillHooked(hooks[c].cells, hooks[c].cells) && DistinctHooks(Live(hooks[c].cells))
    ensures hooks == hooks[c := hooks[c]]
  {
    assert HooksAgree(m, Live(hooks[c].cells), c);
  }

  lemma OrderEnds(t: State<Hook>, cells: seq<Option<Module>>, tab: seq<Option<Hook>>, c: nat)
    ensures DetachRun(t, HookOrder(cells, tab, c, |cells|)).Some?
  {
  }

  lemma ClearedStep(cells: seq<Option<Module>>, c: nat, p: nat)
    requires p < |cells| && cells[p].Some?
    ensures var now, m := Cleared(cells, c, p), cells[p].value;
      && |now| == |cells| && now[p] == cells[p]
      && Cleared(cells, c, p + 1) == (if m.core == Some(c) then now[p := Some(m.(core := None))] else now)
  {
  }

  lemma SlotInTable(cells: seq<Option<Hook>>, j: nat)
    requires j in Live(cells)
    ensures j < |cells|
  {
  }

  lemma HookSlotIs(cells: seq<Option<Hook>>, name: nat, j: nat)
    requires j in Live(cells) && Live(cells)[j] == Hook(Some(name))
    requires DistinctHooks(Live(cells))
    ensures HookSlot(cells, name) == Some(j)
  {
    assert cells[j].Some? && HooksModule(name)(cells[j].value);
    var slot := HookSlot(cells, name);
    assert slot.value in Live(cells) && Live(cells)[slot.value] == Hook(Some(name));
  }

  lemma StillHookedAfter(t: State<Hook>, tab: State<Hook>, slot: nat)
    requires StillHooked(t.cells, tab.cells) && slot < |t.cells|
    ensures StillHooked(Delete(t.(pos := slot)).cells, tab.cells)
  {
    var d := Delete(t.(pos := slot));
    forall j | j in Live(d.cells) ensures j in Live(t.cells) && Live(t.cells)[j] == Live(d.cells)[j] {}
  }

  lemma NoneAttached(m: map<nat, Module>, hooks: map<nat, State<Hook>>, cells: seq<Option<Module>>, c: nat)
    requires Agree(m, hooks) && c in hooks && m == Live(Cleared(cells, c, |cells|))
    ensures Live(hooks[c].cells) == map[]
  {
    var h := Live(hooks[c].cells);
    assert HooksAgree(m, h, c);
    assert forall i | i in m :: m[i].core != Some(c);
    if j :| j in h { HookMeansAttached(m, h, c, j); }
  }

  lemma HookMeansAttached(m: map<nat, Module>, h: map<nat, Hook>, c: nat, j: nat)
    requires HooksAgree(m, h, c) && j in h
    ensures exists i :: i in m && m[i].core == Some(c)
  {
    assert HasHook(h, h[j].owner.value);
    assert AttachedTo(m, c, h[j].owner.value);
  }

  // ---- a table that was never detached from -------------------------------

  /** What is in the order: the slot of each attached module's hook from `from` on, each once. */
  lemma {:induction false} OrderLists(cells: seq<Option<Module>>, tab: State<Hook>, c: nat, from: nat)
    requires DistinctNames(Live(cells)) && HooksAgree(Live(cells), Live(tab.cells), c)
    ensures var order := HookOrder(cells, tab.cells, c, from);
      && DistinctSlots(order)
      && (forall q: nat :: q in order <==> HookOfModuleFrom(cells, tab.cells, c, from, q))
    decreases |cells| - from
  {
    if from < |cells| {
      OrderLists(cells, tab, c, from + 1);
      var rest, order := HookOrder(cells, tab.cells, c, from + 1), HookOrder(cells, tab.cells, c, from);
      if cells[from].Some? && cells[from].value.core == Some(c) {
        var name := cells[from].value.name;
        var j := HookOfAttached(cells, tab, c, from);
        assert order == [j] + rest;
        forall q: nat ensures q in order <==> HookOfModuleFrom(cells, tab.cells, c, from, q) {
          assert q in rest <==> HookOfModuleFrom(cells, tab.cells, c, from + 1, q);
          HookOfEither(cells, tab.cells, c, from, q);
          if IsHookOf(cells, tab.cells, c, from, q) { HookSlotIs(tab.cells, name, q); }
        }
        assert j in rest <==> HookOfModuleFrom(cells, tab.cells, c, from + 1, j);
        OtherModulesHook(cells, tab.cells, c, from, j);
      } else {
        assert order == rest;
        forall q: nat ensures q in order <==> HookOfModuleFrom(cells, tab.cells, c, from, q) {
          assert q in rest <==> HookOfModuleFrom(cells, tab.cells, c, from + 1, q);
          HookOfEither(cells, tab.cells, c, from, q);
        }
      }
    }
  }

  lemma HookOfEither(cells: seq<Option<Module>>, tab: seq<Option<Hook>>, c: nat, from: nat, q: nat)
    requires from < |cells|
    ensures HookOfModuleFrom(cells, tab, c, from, q) <==>
      IsHookOf(cells, tab, c, from, q) || HookOfModuleFrom(cells, tab, c, from + 1, q)
  {
  }

  ghost predicate IsHookOf(cells: seq<Option<Module>>, tab: seq<Option<Hook>>, c: nat, i: nat, q: nat)
    requires i < |cells|
  {
    cells[i].Some? && cells[i].value.core == Some(c) && q in Live(tab) &&
      Live(tab)[q] == Hook(Some(cells[i].value.name))
  }

  ghost predicate HookOfModuleFrom(cells: seq<Option<Module>>, tab: seq<Option<Hook>>, c: nat, from: nat, q: nat) {
    exists i: nat :: from <= i < |cells| && IsHookOf(cells, tab, c, i, q)
  }

  lemma HookOfAttached(cells: seq<Option<Module>>, tab: State<Hook>, c: nat, i: nat) returns (j: nat)
    requires HooksAgree(Live(cells), Live(tab.cells), c)
    requires i < |cells| && cells[i].Some? && cells[i].value.core == Some(c)
    ensures HookSlot(tab.cells, cells[i].value.name) == Some(j) && IsHookOf(cells, tab.cells, c, i, j)
  {
    var name := cells[i].value.name;
    assert i in Live(cells) && Live(cells)[i].name == name && Live(cells)[i].core == Some(c);
    assert AttachedTo(Live(cells), c, name);
    j :| j in Live(tab.cells) && Live(tab.cells)[j] == Hook(Some(name));
    HookSlotIs(tab.cells, name, j);
  }

  /** Hooks of later modules carry other names. */
  lemma OtherModulesHook(cells: seq<Option<Module>>, tab: seq<Option<Hook>>, c: nat, from: nat, q: nat)
    requires DistinctNames(Live(cells)) && from < |cells| && IsHookOf(cells, tab, c, from, q)
    ensures !HookOfModuleFrom(cells, tab, c, from + 1, q)
  {
    assert from in Live(cells);
    assert forall i: nat | from + 1 <= i < |cells| && cells[i].Some? ::
      i in Live(cells) && Live(cells)[i] == cells[i].value;
  }

  lemma EveryHookInOrder(cells: seq<Option<Module>>, tab: State<Hook>, c: nat, q: nat)
    requires HooksAgree(Live(cells), Live(tab.cells), c) && q in Live(tab.cells)
    ensures HookOfModuleFrom(cells, tab.cells, c, 0, q)
  {
    var name := Live(tab.cells)[q].owner.value;
    assert HasHook(Live(tab.cells), name);
    assert AttachedTo(Live(cells), c, name);
    var i :| i in Live(cells) && Live(cells)[i].name == name && Live(cells)[i].core == Some(c);
    assert IsHookOf(cells, tab.cells, c, i, q);
  }

  /** The order goes through every hook once. */
  lemma OrderListsHooks(cells: seq<Option<Module>>, tab: State<Hook>, c: nat)
    requires DistinctNames(Live(cells)) && HooksAgree(Live(cells), Live(tab.cells), c)
    ensures ListsHooks(tab.cells, HookOrder(cells, tab.cells, c, 0))
  {
    var order := HookOrder(cells, tab.cells, c, 0);
    OrderLists(cells, tab, c, 0);
    forall q: nat ensures q in order <==> q in Live(tab.cells) {
      assert q in order <==> HookOfModuleFrom(cells, tab.cells, c, 0, q);
      if q in Live(tab.cells) { EveryHookInOrder(cells, tab, c, q); }
    }
  }

  /** Distinct numbers are as many as the set they make up. */
  lemma {:induction false} DistinctCount(slots: seq<nat>, all: set<nat>)
    requires DistinctSlots(slots)
    requires forall q: nat :: q in slots <==> q in all
    ensures |slots| == |all|
    decreases |slots|
  {
    if slots == [] {
      assert forall q: nat :: q in all ==> q in slots;
      assert all == {};
    } else {
      assert slots[0] in slots;
      forall q: nat ensures q in slots[1..] <==> q in all - {slots[0]} {
        assert q in slots <==> q in all;
        assert q in slots[1..] ==> q in slots && q != slots[0];
      }
      DistinctCount(slots[1..], all - {slots[0]});
    }
  }

  /**
  When detaching a whole core works.  The look-ups of the loop of module_core_detach all
  succeed exactly when the core has no hook; or the cursor of its hook table is on a hook
  and, if there are more, they fill the end of the table and the registered modules come
  up in the reverse order of their hooks.
  */
  lemma CoreDetachesOnlyBackwards(cells: seq<Option<Module>>, hooks: map<nat, State<Hook>>, c: nat)
    requires Agree(Live(cells), hooks) && c in hooks && WfHooks(hooks[c])
    ensures var tab := hooks[c]; var order := HookOrder(cells, tab.cells, c, 0);
      && ListsHooks(tab.cells, order) && |order| == |Live(tab.cells)|
      && (DetachRun(tab, order).Some? <==> GoesThrough(tab, order))
  {
    hide HooksAgree, ListsHooks, DetachRun, GoesThrough;
    assert HooksAgree(Live(cells), Live(hooks[c].cells), c);
    OrderListsHooks(cells, hooks[c], c);
    ListedCount(hooks[c].cells, HookOrder(cells, hooks[c].cells, c, 0));
    DetachesOnlyBackwards(hooks[c], HookOrder(cells, hooks[c].cells, c, 0));
  }

  lemma ListedCount(cells: seq<Option<Hook>>, slots: seq<nat>)
    requires ListsHooks(cells, slots)
    ensures |slots| == |Live(cells)|
  {
    DistinctCount(slots, Live(cells).Keys);
    assert |Live(cells).Keys| == |Live(cells)|;
  }

  /** Detaching all modules of a core gives back all its hooks, and no configuration. */
  lemma DetachingGivesBack(e: Effects, cells: seq<Option<Module>>, hooks: map<nat, State<Hook>>, c: nat, core: Core)
    requires Agree(Live(cells), hooks) && c in hooks && WfHooks(hooks[c])
    ensures var e1 := AfterDetaching(e, cells, c, core, |cells|);
      e1.hooks == e.hooks - |Live(hooks[c].cells)| && e1.confs == e.confs
  {
    hide HookSlot, HooksAgree, DetachRun, GoesThrough, ListsHooks, AfterDetaching;
    CoreDetachesOnlyBackwards(cells, hooks, c);
    forall i | 0 <= i < |cells| && cells[i].Some? && cells[i].value.core == Some(c)
      ensures HookSlot(hooks[c].cells, cells[i].value.name).Some?
    {
      assert HooksAgree(Live(cells), Live(hooks[c].cells), c);
      var j := HookOfAttached(cells, hooks[c], c, i);
    }
    DetachingFrees(e, cells, hooks[c].cells, c, core, |cells|);
    assert HookOrder(cells, hooks[c].cells, c, |cells|) == [];
  }

  // ---- the registry -------------------------------------------------------

  class Registry {
    const cores: map<nat, Core>
    var modules: State<Module>
    var hooks: map<nat, State<Hook>>
    var effects: Effects

    constructor (modules: State<Module>, cores: map<nat, Core>, hooks: map<nat, State<Hook>>)
      requires Wf(modules) && DistinctNames(Live(modules.cells)) && cores.Keys == hooks.Keys
      requires forall i | i in Live(modules.cells) :: Live(modules.cells)[i].core.None?
      requires forall c | c in hooks :: WfHooks(hooks[c]) && hooks[c].cells == []
      ensures Valid()
    {
      this.cores, this.modules, this.hooks := cores, modules, hooks;
      effects := Effects(0, 0, 0, 0);
    }

    ghost predicate Valid()
      reads this
    {
      && Wf(modules) && cores.Keys == hooks.Keys
      && (forall c | c in hooks :: WfHooks(hooks[c]))
      && Agree(Live(modules.cells), hooks)
    }

    /**
    attach_module, for a module found at `slot`.  It succeeds exactly when every check,
    callback and allocation does and the hook table takes the hook, which it never does
    again once its last hook was deleted.  Any failure leaves modules and hooks as they
    were.  `lost` says that the hook table grew at a size that leaves stray mask bits.
    */
    method AttachModule(c: nat, slot: nat, a: Answers) returns (ok: bool, lost: bool)
      requires Valid() && c in cores && slot in Live(modules.cells)
      modifies this
      ensures !lost ==> Valid()
      ensures var m := Live(old(modules).cells)[slot]; var t := old(hooks)[c];
        && (ok <==>
              && m.core.None? && m.attach && 1 <= m.hookSize <= cores[c].hookSize
              && (m.config ==> a.conf) && a.mem && a.attach
              && a.version <= cores[c].verMajor && (cores[c].attach ==> a.core)
              && !Emptied(t) && (Holes(t.cells) > 0 || !Full(t) || CanGrow(t, a.alloc)))
        && (lost <==> ok && MissesByte(t, true, a.alloc))
      ensures ok ==>
        var m := Live(old(modules).cells)[slot];
        && Live(modules.cells) == Live(old(modules).cells)[slot := m.(core := Some(c))]
        && effects == AfterAttach(old(effects), m, cores[c])
        && c in hooks && hooks == old(hooks)[c := hooks[c]]
      ensures ok && !lost ==>
        var m := Live(old(modules).cells)[slot]; var t := hooks[c];
        && t.pos !in Live(old(hooks)[c].cells)
        && Live(t.cells) == Live(old(hooks)[c].cells)[t.pos := Hook(Some(m.name))]
      ensures !ok ==>
        && modules == old(modules)
        && hooks.Keys == old(hooks).Keys
        && forall d | d in hooks :: Live(hooks[d].cells) == Live(old(hooks)[d].cells)
      ensures !ok ==>
        var m := Live(old(modules).cells)[slot];
        var attached := m.core.None? && m.attach && 1 <= m.hookSize <= cores[c].hookSize &&
          (m.config ==> a.conf) && a.mem && a.attach;
        var refused := attached && a.version <= cores[c].verMajor && (cores[c].attach ==> a.core);
        effects == if refused then AfterRefusal(old(effects), m, cores[c])
                   else old(effects).(attached := old(effects).attached + if attached && !m.detach then 1 else 0)
    {
      hide Holes, HooksAgree, Acceptable, Live, Agree, Wf, WfHooks, MissesByte, TakesHook;
      hide AfterFailure, AfterAttach, AfterRefusal, GetsAttached, HooksModule, DistinctNames, Emptied, Full, CanGrow;
      SlotIsLive(modules.cells, slot);
      var m := modules.cells[slot].value;
      lost := false;
      ghost var e := effects;
      AttachingMeans(effects, m, cores[c], a, hooks[c]);
      ok := RunCallbacks(m, cores[c], a);
      if !ok { return; }
      ok, lost := InsertHookOf(c, slot, m, a.alloc);
      if !ok {
        UndoAttached(m, cores[c], e);
      }
    }

    /** The failing path behind the insertion. */
    method UndoAttached(m: Module, core: Core, ghost e: Effects)
      requires effects == AfterAttach(e, m, core)
      modifies this`effects
      ensures effects == AfterRefusal(e, m, core)
    {
      UndoCore(core);
      UndoModule(m);
    }

    /** The end of attach_module: the hook is inserted, and the module pointed to the core. */
    method InsertHookOf(c: nat, slot: nat, m: Module, alloc: bool) returns (ok: bool, lost: bool)
      requires Valid() && c in hooks && slot in Live(modules.cells) && Live(modules.cells)[slot] == m && m.core.None?
      modifies this`modules, this`hooks
      ensures !lost ==> Valid()
      ensures var t := old(hooks)[c];
        && (ok <==> TakesHook(t, alloc))
        && (lost <==> ok && MissesByte(t, true, alloc))
      ensures ok ==>
        && Live(modules.cells) == Live(old(modules).cells)[slot := m.(core := Some(c))]
        && c in hooks && hooks == old(hooks)[c := hooks[c]]
      ensures ok && !lost ==>
        && hooks[c].pos !in Live(old(hooks)[c].cells)
        && Live(hooks[c].cells) == Live(old(hooks)[c].cells)[hooks[c].pos := Hook(Some(m.name))]
      ensures !ok ==>
        && modules == old(modules)
        && hooks.Keys == old(hooks).Keys
        && forall d | d in hooks :: Live(hooks[d].cells) == Live(old(hooks)[d].cells)
    {
      hide Holes, HooksAgree, Insert, Live, Agree, Wf, MissesByte, TakesHook;
      InsertHook(hooks[c], m.name, alloc);
      var o := Insert(hooks[c], Rules(None, None), Hook(Some(m.name)), alloc);
      if o.Done? && !o.ok {
        HooksMoved(Live(modules.cells), hooks, c, o.next);
        hooks := hooks[c := o.next];
        return false, false;
      }
      lost := o.Corrupt?;
      if !lost {
        HookedAgrees(Live(modules.cells), hooks, c, slot, o.next);
        hooks := hooks[c := o.next];
      }
      ModuleUpdate(modules, slot, m.(core := Some(c)));
      modules := modules.(cells := modules.cells[slot := Some(m.(core := Some(c)))]);
      return true, lost;
    }

    /** attach_module up to the insertion of the hook; a failure undoes what went before it. */
    method RunCallbacks(m: Module, core: Core, a: Answers) returns (ok: bool)
      modifies this`effects
      ensures ok == Acceptable(m, core, a) && (ok ==> m.core.None?)
      ensures ok <==>
        && m.core.None? && m.attach && 1 <= m.hookSize <= core.hookSize
        && (m.config ==> a.conf) && a.mem && a.attach
        && a.version <= core.verMajor && (core.attach ==> a.core)
      ensures effects == if ok then AfterAttach(old(effects), m, core) else AfterFailure(old(effects), m, core, a)
    {
      if m.core.Some? || !m.attach || m.hookSize > core.hookSize || m.hookSize == 0 { return false; }
      if m.config {
        if !a.conf { return false; }
        effects := effects.(confs := effects.confs + 1);
      }
      if !a.mem {
        ReleaseConfig(m);
        return false;
      }
      effects := effects.(hooks := effects.hooks + 1);
      if !a.attach {
        effects := effects.(hooks := effects.hooks - 1);
        ReleaseConfig(m);
        return false;
      }
      effects := effects.(attached := effects.attached + 1);
      if a.version > core.verMajor {
        UndoModule(m);
        return false;
      }
      if core.attach {
        if !a.core {
          UndoModule(m);
          return false;
        }
        effects := effects.(coreAttached := effects.coreAttached + 1);
      }
      return true;
    }

    /** The detach callback of the core. */
    method UndoCore(core: Core)
      modifies this`effects
      ensures effects == old(effects).(coreAttached := old(effects).coreAttached - if core.detach then 1 else 0)
    {
      if core.detach { effects := effects.(coreAttached := effects.coreAttached - 1); }
    }

    method ReleaseConfig(m: Module)
      modifies this`effects
      ensures effects == if m.config then old(effects).(confs := old(effects).confs - 1) else old(effects)
    {
      if m.config { effects := effects.(confs := effects.confs - 1); }
    }

    /** The common tail of the failing paths behind the attach callback. */
    method UndoModule(m: Module)
      modifies this`effects
      ensures var e := old(effects);
        effects == Effects(if m.config then e.confs - 1 else e.confs, e.hooks - 1,
                           if m.detach then e.attached - 1 else e.attached, e.coreAttached)
    {
      if m.detach { effects := effects.(attached := effects.attached - 1); }
      effects := effects.(hooks := effects.hooks - 1);
      ReleaseConfig(m);
    }

    /**
    detach_module.  It crashes exactly when the hook table has hooks left and its cursor is
    on a hole; otherwise it removes the hook of the module, and its pointer.
    */
    method DetachModule(slot: nat) returns (crashed: bool)
      requires Valid() && slot in Live(modules.cells)
      modifies this
      ensures var m := Live(old(modules).cells)[slot];
        crashed <==> m.core.Some? && SearchCrashes(old(hooks)[m.core.value])
      ensures !crashed ==> Valid()
      ensures slot < |old(modules).cells| && old(modules).cells[slot].Some?
      ensures !crashed ==>
        var m := old(modules).cells[slot].value;
        modules == old(modules).(cells := old(modules).cells[slot := Some(m.(core := None))])
      ensures var m := Live(old(modules).cells)[slot];
        !crashed && m.core.Some? ==>
          var c := m.core.value; var at := HookSlot(old(hooks)[c].cells, m.name);
          && at.Some? && hooks == old(hooks)[c := Delete(old(hooks)[c].(pos := at.value))]
          && effects == AfterDetach(old(effects), m, cores[c])
      ensures Live(old(modules).cells)[slot].core.None? ==> hooks == old(hooks) && effects == old(effects)
    {
      hide Holes, Agree, Delete, HookSlot, Live, Wf, SearchCrashes;
      SlotIsLive(modules.cells, slot);
      var m := modules.cells[slot].value;
      PointsAtCore(Live(modules.cells), hooks, slot);
      if m.core.None? {
        ModuleUpdate(modules, slot, m);
        assert modules.cells[slot := Some(m)] == modules.cells;
        return false;
      }
      if SearchCrashes(hooks[m.core.value]) { return true; }
      Unhook(m.core.value, slot, m);
      UndoCore(cores[m.core.value]);
      if m.detach { effects := effects.(attached := effects.attached - 1); }
      return false;
    }

    /** The look-up of the hook, its deletion, and the pointer of the module. */
    method Unhook(c: nat, slot: nat, m: Module)
      requires Valid() && slot in Live(modules.cells) && Live(modules.cells)[slot] == m && m.core == Some(c)
      requires c in hooks && !SearchCrashes(hooks[c])
      modifies this
      ensures Valid() && slot < |old(modules).cells|
      ensures modules == old(modules).(cells := old(modules).cells[slot := Some(m.(core := None))])
      ensures var at := HookSlot(old(hooks)[c].cells, m.name);
        at.Some? && hooks == old(hooks)[c := Delete(old(hooks)[c].(pos := at.value))]
      ensures effects == old(effects).(hooks := old(effects).hooks - 1)
    {
      hide Holes, Agree, Delete, HookSlot, Live, Wf, SearchCrashes;
      SearchHook(Live(modules.cells), hooks, c, slot);
      var (t, found) := Search(hooks[c], HooksModule(m.name));
      UnhookedAgrees(Live(modules.cells), hooks, c, slot, found.value, Delete(t));
      hooks := hooks[c := Delete(t)];
      effects := effects.(hooks := effects.hooks - 1);
      ModuleUpdate(modules, slot, m.(core := None));
      modules := modules.(cells := modules.cells[slot := Some(m.(core := None))]);
    }

    /**
    The loop of module_core_detach over all registered modules.  It crashes exactly when
    looking up the hooks in registry order does; otherwise no module points at the core
    any more, its hook table is empty, every hook was given back, and no other pointer
    or table has changed.
    */
    method DetachAll(c: nat) returns (crashed: bool)
      requires Valid() && c in hooks
      modifies this
      ensures crashed <==> !GoesThrough(old(hooks)[c], HookOrder(old(modules).cells, old(hooks)[c].cells, c, 0))
      ensures !crashed ==> Valid()
      ensures !crashed ==> modules.cells == Cleared(old(modules).cells, c, |old(modules).cells|)
      ensures !crashed ==> hooks == old(hooks)[c := hooks[c]] && Live(hooks[c].cells) == map[]
      ensures !crashed ==>
        && effects == AfterDetaching(old(effects), old(modules).cells, c, cores[c], |old(modules).cells|)
        && effects.hooks == old(effects).hooks - |Live(old(hooks)[c].cells)| && effects.confs == old(effects).confs
    {
      hide Holes, HooksAgree, Live, Wf, Agree, Cleared, StillHooked, DistinctHooks, HookOrder;
      hide DetachRun, Next, FirstNext;
      hide AfterDetaching, AfterDetach, GoesThrough, WfHooks, ListsHooks, DistinctNames;
      ghost var cells, tab, e := modules.cells, hooks[c], effects;
      CoreDetachesOnlyBackwards(cells, hooks, c);
      DetachingGivesBack(e, cells, hooks, c, cores[c]);
      FirstModule(modules, c);
      HooksAtStart(Live(modules.cells), hooks, c);
      var (s, found) := FirstNext(modules);
      modules := s;
      NothingDetached(e, cells, c, cores[c], if found.Some? then found.value else |cells|);
      while found.Some?
        invariant Valid() && c in hooks
        invariant found.Some? ==> found.value == modules.pos && CanDelete(modules)
        invariant modules.cells == Cleared(cells, c, if found.Some? then found.value else |cells|)
        invariant found.Some? ==> found.value < |cells|
        invariant hooks == old(hooks)[c := hooks[c]]
        invariant StillHooked(hooks[c].cells, tab.cells)
        invariant DetachRun(hooks[c], HookOrder(cells, tab.cells, c, if found.Some? then found.value else |cells|))
               == DetachRun(tab, HookOrder(cells, tab.cells, c, 0))
        invariant effects == AfterDetaching(e, cells, c, cores[c], if found.Some? then found.value else |cells|)
        decreases if found.Some? then 1 + |cells| - found.value else 0
      {
        ghost var p := found.value;
        crashed := DetachCurrent(cells, tab, c);
        if crashed { return; }
        NextModule(modules, cells, tab.cells, c, p);
        var (t, next) := Next(modules);
        modules, found := t, next;
        OneDetached(e, cells, c, cores[c], p, if found.Some? then found.value else |cells|);
      }
      OrderEnds(hooks[c], cells, tab.cells, c);
      NoneAttached(Live(modules.cells), hooks, cells, c);
      return false;
    }

    /** One turn of that loop: the module under the cursor is detached if it points at the core. */
    method DetachCurrent(ghost cells: seq<Option<Module>>, ghost tab: State<Hook>, c: nat) returns (crashed: bool)
      requires Valid() && c in hooks && CanDelete(modules)
      requires modules.pos < |cells| && modules.cells == Cleared(cells, c, modules.pos)
      requires StillHooked(hooks[c].cells, tab.cells) && DistinctHooks(Live(tab.cells))
      modifies this
      ensures crashed ==> DetachRun(old(hooks)[c], HookOrder(cells, tab.cells, c, old(modules).pos)).None?
      ensures !crashed ==>
        && Valid() && c in hooks && hooks == old(hooks)[c := hooks[c]]
        && modules.pos == old(modules).pos && cells[modules.pos].Some?
        && modules.cells == Cleared(cells, c, modules.pos + 1)
        && StillHooked(hooks[c].cells, tab.cells)
        && DetachRun(old(hooks)[c], HookOrder(cells, tab.cells, c, modules.pos))
           == DetachRun(hooks[c], HookOrder(cells, tab.cells, c, modules.pos + 1))
        && effects == (var m := cells[modules.pos].value;
                       if m.core == Some(c) then AfterDetach(old(effects), m, cores[c]) else old(effects))
    {
      hide Holes, HooksAgree, Delete, HookSlot, Live, Wf, SearchCrashes, Agree, Cleared;
      hide StillHooked, DistinctHooks, AfterDetach;
      ghost var p, t := modules.pos, hooks[c];
      AtModule(modules, cells, c);
      ClearedStep(cells, c, p);
      if modules.cells[modules.pos].value.core == Some(c) {
        HookStaysPut(Live(modules.cells), hooks, tab, c, p);
        ghost var j := HookSlot(t.cells, cells[p].value.name).value;
        SlotInTable(t.cells, j);
        assert HookOrder(cells, tab.cells, c, p) == [j] + HookOrder(cells, tab.cells, c, p + 1);
        crashed := DetachModule(modules.pos);
        if crashed { return; }
        StillHookedAfter(t, tab, j);
      } else {
        assert HookOrder(cells, tab.cells, c, p) == HookOrder(cells, tab.cells, c, p + 1);
        crashed := false;
      }
    }
  }
}
