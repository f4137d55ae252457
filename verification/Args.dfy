/**
The arguments manager: options found on the command line are folded into one table per
section, and later bound to the options a module declares.
*/
module Args {
  import opened Wrappers
  import opened TableSpec
  import opened TableRuns
  import opened TableGrowth
  import opened TableCounters
  import opened TableKeys
  import opened ArgsSyntax

  /** Sections A to Z and, last, the main section. */
  const ARGS_SEC_SIZ: nat := 27

  const ARGS_USR_SIZ: nat := 26

  const ARGS_SEC_TAB_SIZ: nat := 1

  datatype Usr = Usr(found: nat, arg: Option<string>)

  const NO_USR := Usr(0, None)

  type UsrArgs = u: seq<Usr> | |u| == ARGS_USR_SIZ witness NoUsrs(ARGS_USR_SIZ)

  function NoUsrs(n: nat): (u: seq<Usr>)
    ensures |u| == n && forall i | 0 <= i < n :: u[i] == NO_USR
  {
    if n == 0 then [] else NoUsrs(n - 1) + [NO_USR]
  }

  /** One declared option.  `get` names a callback; `counted` says whether a counter is supplied. */
  datatype ArgDecl = ArgDecl(option: char, counted: bool, get: Option<nat>, argNeeded: bool, onceOnly: bool)

  /** args_entry_t; a null name is the principal entry of its section. */
  datatype Entry = Entry(name: Option<string>, sysargs: Option<seq<ArgDecl>>, usrargs: UsrArgs)

  const ZERO_ENTRY := Entry(None, None, NoUsrs(ARGS_USR_SIZ))

  function UsrPos(option: char): nat
    requires IsLower(option)
  {
    (option - 'a') as nat
  }

  predicate ValidSection(section: char) { section == MAIN_SECTION || IsUpper(section) }

  /** pointer_to_section. */
  function SectionPos(section: char): (p: Option<nat>)
    ensures p.Some? <==> section == '0' || 'A' <= section <= 'Z'
    ensures p.Some? ==> p.value < ARGS_SEC_SIZ
  {
    if section == MAIN_SECTION then Some(ARGS_SEC_SIZ - 1)
    else if !IsUpper(section) then None
    else Some((section - 'A') as nat)
  }

  lemma SectionPosInjective(a: char, b: char)
    requires ValidSection(a) && ValidSection(b) && a != b
    ensures SectionPos(a) != SectionPos(b)
  {
  }

  // ---- folding one entry into another -------------------------------------

  function MergedUsr(was: Usr, now: Usr): Usr { if now.found != 0 then Usr(was.found + 1, now.arg) else was }

  function Merge(entry: Entry, newEntry: Entry): Entry {
    if newEntry.sysargs.Some? then entry.(sysargs := newEntry.sysargs)
    else
      entry.(usrargs := seq(ARGS_USR_SIZ,
                            o requires 0 <= o < ARGS_USR_SIZ => MergedUsr(entry.usrargs[o], newEntry.usrargs[o])))
  }

  /** update_on_constrains: either the declarations or every option found, never both. */
  method UpdateOnConstrains(entry: Entry, newEntry: Entry) returns (updated: Entry)
    ensures updated == Merge(entry, newEntry)
    ensures updated.name == entry.name
    ensures newEntry.sysargs.Some? ==> updated.sysargs == newEntry.sysargs && updated.usrargs == entry.usrargs
    ensures newEntry.sysargs.None? ==>
      && updated.sysargs == entry.sysargs
      && forall o: nat | o < ARGS_USR_SIZ ::
           var was, now, u := entry.usrargs[o], newEntry.usrargs[o], updated.usrargs[o];
           if now.found == 0 then u == was else u.found == was.found + 1 && u.arg == now.arg
  {
    if newEntry.sysargs.Some? {
      return entry.(sysargs := newEntry.sysargs);
    }
    var usr, opt := entry.usrargs, 0;
    while opt < ARGS_USR_SIZ
      invariant 0 <= opt <= ARGS_USR_SIZ
      invariant forall o: nat | o < opt :: usr[o] == MergedUsr(entry.usrargs[o], newEntry.usrargs[o])
      invariant forall o: nat | opt <= o < ARGS_USR_SIZ :: usr[o] == entry.usrargs[o]
    {
      if newEntry.usrargs[opt].found != 0 {
        usr := usr[opt := Usr(usr[opt].found + 1, newEntry.usrargs[opt].arg)];
      }
      opt := opt + 1;
    }
    updated := entry.(usrargs := usr);
    assert updated.usrargs == Merge(entry, newEntry).usrargs;
  }

  const ENTRY_RULES: Rules<Entry> :=
    Rules(Some((x: Entry, y: Entry) => x.name == y.name), Some((x, y) => Resolved(true, Merge(x, y))))

  function NameOf(e: Entry): Option<string> { e.name }

  lemma EntryRulesKeyed()
    ensures KeyRules(ENTRY_RULES, NameOf)
  {
  }

  // ---- what the tables have to hold ---------------------------------------

  /** How often an option was given to an entry, and with which argument last. */
  function Summary(given: seq<Insertion>, section: char, name: Option<string>, option: char): Usr {
    if given == [] then NO_USR
    else
      var rest, x := given[..|given| - 1], given[|given| - 1];
      var before := Summary(rest, section, name, option);
      if x == Insertion(section, name, option, x.arg) then Usr(before.found + 1, x.arg) else before
  }

  function Occurrences(given: seq<Insertion>, section: char, name: Option<string>, option: char): set<nat> {
    set k: nat | k < |given| && given[k].section == section && given[k].name == name && given[k].option == option
  }

  ghost predicate IsLast(occ: set<nat>, k: nat) { k in occ && forall j | j in occ :: j <= k }

  /** `found` is the number of occurrences, and `arg` the argument of the last one. */
  lemma {:induction false} SummaryCounts(given: seq<Insertion>, section: char, name: Option<string>, option: char)
    ensures var s, occ := Summary(given, section, name, option), Occurrences(given, section, name, option);
      && s.found == |occ|
      && (occ == {} ==> s == NO_USR)
      && (forall k: nat | IsLast(occ, k) :: k < |given| && s.arg == given[k].arg)
  {
    if given != [] {
      var n := |given| - 1;
      var rest := given[..n];
      SummaryCounts(rest, section, name, option);
      var occ, before := Occurrences(given, section, name, option), Occurrences(rest, section, name, option);
      OneMore(given, section, name, option);
      hide Occurrences;
      if n in occ {
        forall k: nat | IsLast(occ, k) ensures k == n { assert n in occ; }
      } else {
        assert forall k: nat | IsLast(occ, k) :: IsLast(before, k) && rest[k] == given[k];
      }
    }
  }

  lemma OneMore(given: seq<Insertion>, section: char, name: Option<string>, option: char)
    requires given != []
    ensures var n := |given| - 1; var before := Occurrences(given[..n], section, name, option); var x := given[n];
      && n !in before
      && (if x.section == section && x.name == name && x.option == option
          then Occurrences(given, section, name, option) == before + {n}
          else Occurrences(given, section, name, option) == before)
  {
  }

  /** A section's table: not created, in use, or in use with stray bits in its mask. */
  datatype Section = Absent | Present(table: State<Entry>) | Lost

  function Stored(s: Section, name: Option<string>): Option<Entry> {
    if s.Present? then Lookup(s.table.cells, NameOf, name) else None
  }

  function StoredUsr(s: Section, name: Option<string>, option: char): Usr
    requires IsLower(option)
  {
    var e := Stored(s, name);
    if e.Some? then e.value.usrargs[UsrPos(option)] else NO_USR
  }

  /** Section tables never delete: they have no holes, and no two entries of one name. */
  ghost predicate WfTable(t: State<Entry>, bound: nat) {
    && Wf(t) && t.cfg.zero == ZERO_ENTRY && !t.cfg.noRealloc && !t.cfg.noReuse
    && LadderSize(t.size, t.cfg.maxSize) && LADDER_TOP <= t.cfg.maxSize < SIZE_MODULUS - 1
    && (forall i | 0 <= i < |t.cells| :: t.cells[i].Some?)
    && UniqueKeys(t.cells, NameOf)
    && |t.cells| <= bound
  }

  /** insert_args and args_register end in the same insertion into the section's table. */
  function InsertEntry(s: Section, e: Entry, maxSize: nat, alloc: bool): (bool, Section)
    requires ARGS_SEC_TAB_SIZ <= maxSize < SIZE_MODULUS - 1
    requires s.Present? ==> Wf(s.table)
  {
    if s.Lost? then (true, Lost)
    else if s.Absent? && !alloc then (false, s)
    else
      var t := if s.Present? then s.table else Fresh(ARGS_SEC_TAB_SIZ, Config(ZERO_ENTRY, false, false, maxSize));
      var o := Insert(t, ENTRY_RULES, e, alloc);
      if o.Corrupt? then (true, Lost) else (o.ok, Present(o.next))
  }

  /** Whether an insertion gets its memory: none is asked for when the entry or a free slot is there. */
  predicate Grants(s: Section, name: Option<string>, alloc: bool) {
    alloc || (s.Present? && (Stored(s, name).Some? || !Full(s.table)))
  }

  /** What one insertion does to a section: the upsert law, for entries. */
  lemma InsertEntryLaw(s: Section, e: Entry, maxSize: nat, alloc: bool, bound: nat)
    requires LADDER_TOP <= maxSize < SIZE_MODULUS - 1
    requires s.Present? ==> WfTable(s.table, bound)
    ensures var (ok, t) := InsertEntry(s, e, maxSize, alloc);
      && (t.Present? ==> WfTable(t.table, bound + 1))
      && (s.Present? ==> !t.Absent?)
      && (bound < LADDER_TOP && !s.Lost? ==> !t.Lost? && (ok <==> Grants(s, e.name, alloc)))
      && (ok && !t.Lost? ==> t.Present?)
      && (t.Present? && ok ==>
            && Stored(t, e.name) == Some(if Stored(s, e.name).Some? then Merge(Stored(s, e.name).value, e) else e)
            && CanDelete(t.table) && t.table.cells[t.table.pos] == Stored(t, e.name))
      && (!t.Lost? && !ok ==> Stored(t, e.name) == Stored(s, e.name))
      && (!t.Lost? ==> forall name | name != e.name :: Stored(t, name) == Stored(s, name))
  {
    hide OnLadder, Lookup, Holes, Place, Full;
    if !(s.Lost? || (s.Absent? && !alloc)) {
      var t := if s.Present? then s.table else Fresh(ARGS_SEC_TAB_SIZ, Config(ZERO_ENTRY, false, false, maxSize));
      FreshLookup(e.name);
      assert LadderSize(1, maxSize) by { BottomRung(maxSize); }
      InsertDone(t, e, alloc, bound);
      EntryRulesKeyed();
      if Insert(t, ENTRY_RULES, e, alloc).Done? { InsertIntoTable(t, e, alloc, bound); }
      if s.Absent? { forall name ensures Lookup(t.cells, NameOf, name) == None { FreshLookup(name); } }
    }
  }

  lemma BottomRung(maxSize: nat)
    ensures LadderSize(1, maxSize)
  {
  }

  lemma FreshLookup(name: Option<string>)
    ensures Lookup([], NameOf, name) == None
  {
  }

  /** Without holes the cursor is on a live chunk, so no zeroed entry can match a null name. */
  lemma InsertDone(t: State<Entry>, e: Entry, alloc: bool, bound: nat)
    requires WfTable(t, bound)
    ensures NoZeroMatch(t, Conflict(ENTRY_RULES.constrains.value, e))
    ensures bound < LADDER_TOP ==> Insert(t, ENTRY_RULES, e, alloc).Done?
  {
    hide OnLadder;
    var p := Conflict(ENTRY_RULES.constrains.value, e);
    SearchIff(t, p);
    var (s1, found) := Search(t, p);
    NoHoles(t.cells);
    if found.None? && bound < LADDER_TOP { LadderAppends(s1, e, alloc); }
  }

  lemma NoHoles(cells: seq<Option<Entry>>)
    requires forall i | 0 <= i < |cells| :: cells[i].Some?
    ensures Holes(cells) == 0
  {
  }

  lemma InsertKeepsTable(t: State<Entry>, e: Entry, alloc: bool, bound: nat)
    requires WfTable(t, bound) && Insert(t, ENTRY_RULES, e, alloc).Done?
    ensures WfTable(Insert(t, ENTRY_RULES, e, alloc).next, bound + 1)
  {
    hide OnLadder, Lookup, Place, Live;
    EntryRulesKeyed();
    InsertDone(t, e, alloc, bound);
    UpsertLaw(t, ENTRY_RULES, NameOf, e, true, alloc);
    WriteKeepsWf(t, ENTRY_RULES, e, true, alloc);
    StepKeepsLadder(t, ENTRY_RULES, OpInsert(e, alloc));
    var p := Conflict(ENTRY_RULES.constrains.value, e);
    SearchIff(t, p);
    var (s1, found) := Search(t, p);
    if found.None? { PlaceShape(s1, e, true, alloc); }
  }

  /** Memory is asked for only when the entry is new and the table full. */
  lemma InsertGetsMemory(t: State<Entry>, e: Entry, alloc: bool, bound: nat)
    requires WfTable(t, bound) && Insert(t, ENTRY_RULES, e, alloc).Done?
    ensures bound < LADDER_TOP ==>
      (Insert(t, ENTRY_RULES, e, alloc).ok <==> alloc || Lookup(t.cells, NameOf, e.name).Some? || !Full(t))
  {
    hide OnLadder, LadderSize, Lookup, Place, Live, Full;
    EntryRulesKeyed();
    InsertDone(t, e, alloc, bound);
    var p := Conflict(ENTRY_RULES.constrains.value, e);
    SearchIff(t, p);
    var (s1, found) := Search(t, p);
    if found.None? {
      LookupNone(t.cells, NameOf, e.name);
      NoHoles(t.cells);
      RoomToGrow(s1, e, alloc, bound);
      FullMoved(t, s1);
    } else {
      LookupIs(t.cells, NameOf, s1.pos);
    }
  }

  lemma FullMoved(s: State<Entry>, t: State<Entry>)
    requires t == s.(pos := t.pos)
    ensures Full(s) == Full(t)
  {
  }

  lemma InsertIntoTable(t: State<Entry>, e: Entry, alloc: bool, bound: nat)
    requires WfTable(t, bound) && Insert(t, ENTRY_RULES, e, alloc).Done?
    ensures var o := Insert(t, ENTRY_RULES, e, alloc); var was := Lookup(t.cells, NameOf, e.name);
      && WfTable(o.next, bound + 1)
      && (bound < LADDER_TOP ==> (o.ok <==> alloc || was.Some? || !Full(t)))
      && (o.ok ==> Lookup(o.next.cells, NameOf, e.name) == Some(if was.Some? then Merge(was.value, e) else e)
                   && CanDelete(o.next) && o.next.cells[o.next.pos] == Lookup(o.next.cells, NameOf, e.name))
      && (!o.ok ==> Lookup(o.next.cells, NameOf, e.name) == was)
      && (forall name | name != e.name :: Lookup(o.next.cells, NameOf, name) == Lookup(t.cells, NameOf, name))
  {
    hide OnLadder, Lookup, Place, Write, Search;
    InsertKeepsTable(t, e, alloc, bound);
    InsertGetsMemory(t, e, alloc, bound);
    EntryRulesKeyed();
    InsertDone(t, e, alloc, bound);
    UpsertLaw(t, ENTRY_RULES, NameOf, e, true, alloc);
    var o := Insert(t, ENTRY_RULES, e, alloc);
    if o.ok { LookupIs(o.next.cells, NameOf, o.next.pos); }
  }

  lemma RoomToGrow(t: State<Entry>, e: Entry, alloc: bool, bound: nat)
    requires Wf(t) && !t.cfg.noRealloc && LADDER_TOP <= t.cfg.maxSize < SIZE_MODULUS - 1
    requires LadderSize(t.size, t.cfg.maxSize) && |t.cells| <= bound
    requires forall i | 0 <= i < |t.cells| :: t.cells[i].Some?
    requires Place(t, e, true, alloc).Done?
    ensures bound < LADDER_TOP ==> (Place(t, e, true, alloc).ok <==> alloc || !Full(t))
  {
    hide OnLadder;
    NoHoles(t.cells);
    NextSizeGrows(t.size, t.cfg.maxSize);
  }

  // ---- binding ------------------------------------------------------------

  /** The declarations up to the terminating one. */
  function Declared(args: seq<ArgDecl>): (decls: seq<ArgDecl>)
    ensures decls <= args && forall d | d in decls :: 'a' <= d.option <= 'z'
    ensures |decls| < |args| ==> !('a' <= args[|decls|].option <= 'z')
  {
    if args == [] || !IsLower(args[0].option) then [] else [args[0]] + Declared(args[1..])
  }

  /** Whether what was given for an option fits its declaration, callback included. */
  predicate Fits(given: Usr, d: ArgDecl, accepts: (nat, string) -> bool) {
    given.found == 0 ||
    ((d.onceOnly ==> given.found == 1) &&
     (d.argNeeded ==> given.arg.Some?) &&
     (given.arg.Some? ==> d.get.Some? && accepts(d.get.value, given.arg.value)))
  }

  /** The counters bind_args has written after the first `n` declarations. */
  ghost function Reports(entry: Entry, decls: seq<ArgDecl>, n: nat): map<nat, nat>
    requires n <= |decls| && forall d | d in decls :: IsLower(d.option)
  {
    map k: nat | k < n && decls[k].counted && entry.usrargs[UsrPos(decls[k].option)].found > 0 ::
      entry.usrargs[UsrPos(decls[k].option)].found
  }

  ghost predicate AllFit(entry: Entry, decls: seq<ArgDecl>, accepts: (nat, string) -> bool)
    requires forall d | d in decls :: IsLower(d.option)
  {
    forall d | d in decls :: Fits(entry.usrargs[UsrPos(d.option)], d, accepts)
  }

  /** Declaration `k` is the first that does not fit. */
  ghost predicate StopsAt(entry: Entry, decls: seq<ArgDecl>, accepts: (nat, string) -> bool, k: nat)
    requires k < |decls| && forall d | d in decls :: IsLower(d.option)
  {
    && !Fits(entry.usrargs[UsrPos(decls[k].option)], decls[k], accepts)
    && forall j | 0 <= j < k :: Fits(entry.usrargs[UsrPos(decls[j].option)], decls[j], accepts)
  }

  /**
  bind_args succeeds exactly when everything given fits its declaration: at most once if
  it asks for that, with an argument if it needs one, and an argument only where a callback
  takes it.  It then reports every count;
  otherwise it stops at the first that does not fit, with the counts before it written.
  */
  method BindArgs(entry: Entry, args: seq<ArgDecl>, accepts: (nat, string) -> bool)
    returns (ok: bool, found: map<nat, nat>)
    ensures ok <==> forall d | d in Declared(args) ::
      var u := entry.usrargs[UsrPos(d.option)];
      u.found != 0 ==>
        && (d.onceOnly ==> u.found == 1)
        && (d.argNeeded ==> u.arg.Some?)
        && (u.arg.Some? ==> d.get.Some? && accepts(d.get.value, u.arg.value))
    ensures ok <==> AllFit(entry, Declared(args), accepts)
    ensures ok ==> found == Reports(entry, Declared(args), |Declared(args)|)
    ensures !ok ==>
      exists k: nat :: k < |Declared(args)| && StopsAt(entry, Declared(args), accepts, k)
                       && found == Reports(entry, Declared(args), k)
  {
    hide Fits, Declared;
    ghost var decls := Declared(args);
    NoneGivenFits(accepts);
    found := map[];
    var i := 0;
    while i < |args| && IsLower(args[i].option)
      invariant i <= |decls| <= |args|
      invariant forall j | 0 <= j < i :: Fits(entry.usrargs[UsrPos(decls[j].option)], decls[j], accepts)
      invariant found == Reports(entry, decls, i)
      decreases |args| - i
    {
      DeclaredReaches(args, i);
      var d := args[i];
      var given := entry.usrargs[UsrPos(d.option)];
      if given.found != 0 {
        var fits := BindOne(given, d, accepts);
        if !fits {
          GivenFits(accepts);
          return false, found;
        }
        if d.counted { found := found[i := given.found]; }
      }
      i := i + 1;
    }
    DeclaredEnds(args, i);
    ok := true;
    GivenFits(accepts);
  }

  /** The checks of bind_args for one option that was given. */
  method BindOne(given: Usr, d: ArgDecl, accepts: (nat, string) -> bool) returns (ok: bool)
    requires given.found != 0
    ensures ok == Fits(given, d, accepts)
  {
    if d.onceOnly && given.found > 1 { return false; }
    if d.argNeeded && given.arg.None? { return false; }
    if given.arg.Some? && d.get.None? {
      return false;
    } else if given.arg.Some? {
      ok := accepts(d.get.value, given.arg.value);
      return;
    }
    ok := true;
  }

  lemma GivenFits(accepts: (nat, string) -> bool)
    ensures forall u: Usr, d :: Fits(u, d, accepts) <==>
      (u.found != 0 ==>
        && (d.onceOnly ==> u.found == 1)
        && (d.argNeeded ==> u.arg.Some?)
        && (u.arg.Some? ==> d.get.Some? && accepts(d.get.value, u.arg.value)))
  {
  }

  lemma NoneGivenFits(accepts: (nat, string) -> bool)
    ensures forall u: Usr, d | u.found == 0 :: Fits(u, d, accepts)
  {
  }

  lemma {:induction false} DeclaredReaches(args: seq<ArgDecl>, i: nat)
    requires i <= |Declared(args)| && i < |args| && IsLower(args[i].option)
    ensures i < |Declared(args)| && Declared(args)[i] == args[i]
  {
    if i == 0 {
    } else {
      DeclaredReaches(args[1..], i - 1);
    }
  }

  lemma {:induction false} DeclaredEnds(args: seq<ArgDecl>, i: nat)
    requires i <= |Declared(args)|
    requires i < |args| ==> !IsLower(args[i].option)
    ensures i == |Declared(args)|
  {
    if i == 0 {
    } else {
      DeclaredEnds(args[1..], i - 1);
    }
  }

  // ---- the manager --------------------------------------------------------

  lemma SummaryAppend(given: seq<Insertion>, x: Insertion, section: char, name: Option<string>, option: char)
    ensures Summary(given + [x], section, name, option) ==
      (var before := Summary(given, section, name, option);
       if x.section == section && x.name == name && x.option == option then Usr(before.found + 1, x.arg) else before)
  {
    assert (given + [x])[..|given|] == given;
  }

  function OptionEntry(name: Option<string>, option: char, arg: Option<string>): Entry
    requires IsLower(option)
  {
    Entry(name, None, NoUsrs(ARGS_USR_SIZ)[UsrPos(option) := Usr(1, arg)])
  }

  /** A section holds, for every entry and option, what was given for it. */
  ghost predicate Holds(s: Section, section: char, given: seq<Insertion>) {
    !s.Lost? ==> forall name, option | IsLower(option) ::
      StoredUsr(s, name, option) == Summary(given, section, name, option)
  }

  /** An option inserted into its section is one more occurrence, and the last. */
  lemma InsertedHolds(s: Section, t: Section, section: char, given: seq<Insertion>, x: Insertion)
    requires IsLower(x.option) && x.section == section && Holds(s, section, given) && !s.Lost?
    requires t.Present?
    requires var e := OptionEntry(x.name, x.option, x.arg);
      Stored(t, x.name) == Some(if Stored(s, x.name).Some? then Merge(Stored(s, x.name).value, e) else e)
    requires forall name | name != x.name :: Stored(t, name) == Stored(s, name)
    ensures Holds(t, section, given + [x])
  {
    forall name, option | IsLower(option)
      ensures StoredUsr(t, name, option) == Summary(given + [x], section, name, option)
    {
      SummaryAppend(given, x, section, name, option);
      assert StoredUsr(s, name, option) == Summary(given, section, name, option);
      assert UsrPos(option) == UsrPos(x.option) <==> option == x.option;
    }
  }

  /** Declarations do not count as options given. */
  lemma RegisteredHolds(s: Section, t: Section, section: char, given: seq<Insertion>, name: Option<string>,
      sysargs: Option<seq<ArgDecl>>)
    requires Holds(s, section, given) && !s.Lost? && t.Present?
    requires var e := Entry(name, sysargs, NoUsrs(ARGS_USR_SIZ));
      Stored(t, name) == Some(if Stored(s, name).Some? then Merge(Stored(s, name).value, e) else e)
    requires forall n | n != name :: Stored(t, n) == Stored(s, n)
    ensures Holds(t, section, given)
  {
    forall n, option | IsLower(option) ensures StoredUsr(t, n, option) == StoredUsr(s, n, option) {}
  }

  lemma OtherSectionHolds(s: Section, section: char, given: seq<Insertion>, x: Insertion)
    requires Holds(s, section, given) && x.section != section
    ensures Holds(s, section, given + [x])
  {
    forall name, option | IsLower(option)
      ensures Summary(given + [x], section, name, option) == Summary(given, section, name, option)
    {
      SummaryAppend(given, x, section, name, option);
    }
  }

  /** An option inserted into a section. */
  lemma InsertOption(s: Section, section: char, given: seq<Insertion>, x: Insertion, maxSize: nat, alloc: bool,
      bound: nat)
    requires LADDER_TOP <= maxSize < SIZE_MODULUS - 1
    requires s.Present? ==> WfTable(s.table, bound)
    requires IsLower(x.option) && x.section == section && Holds(s, section, given)
    ensures s.Present? ==> Wf(s.table)
    ensures var (ok, t) := InsertEntry(s, OptionEntry(x.name, x.option, x.arg), maxSize, alloc);
      && (t.Present? ==> WfTable(t.table, bound + 1))
      && (bound < LADDER_TOP && !s.Lost? ==> !t.Lost? && (ok <==> Grants(s, x.name, alloc)))
      && Holds(t, section, if ok then given + [x] else given)
  {
    hide WfTable, Insert, Stored, OnLadder, Grants;
    var e := OptionEntry(x.name, x.option, x.arg);
    InsertEntryLaw(s, e, maxSize, alloc, bound);
    WfTableIsWf(s, bound);
    var (ok, t) := InsertEntry(s, e, maxSize, alloc);
    if !t.Lost? {
      if ok {
        InsertedHolds(s, t, section, given, x);
      } else {
        SameStored(s, t, section, given, e.name);
      }
    }
  }

  /** The entry of that name has the new declarations, if any are passed, and the others are untouched. */
  ghost predicate KeepsDeclarations(s: Section, t: Section, e: Entry, ok: bool) {
    && (ok ==> Stored(t, e.name).Some?)
    && (ok && e.sysargs.Some? ==> Stored(t, e.name).value.sysargs == e.sysargs)
    && (ok && e.sysargs.None? && Stored(s, e.name).Some? ==>
          Stored(t, e.name).value.sysargs == Stored(s, e.name).value.sysargs)
    && (!ok ==> Stored(t, e.name) == Stored(s, e.name))
    && (forall n | n != e.name :: Stored(t, n) == Stored(s, n))
  }

  /** Declarations registered in a section. */
  lemma InsertDeclarations(s: Section, section: char, given: seq<Insertion>, e: Entry, maxSize: nat, alloc: bool,
      bound: nat)
    requires LADDER_TOP <= maxSize < SIZE_MODULUS - 1
    requires s.Present? ==> WfTable(s.table, bound)
    requires e.usrargs == NoUsrs(ARGS_USR_SIZ) && Holds(s, section, given)
    ensures s.Present? ==> Wf(s.table)
    ensures var (ok, t) := InsertEntry(s, e, maxSize, alloc);
      && (t.Present? ==> WfTable(t.table, bound + 1))
      && (bound < LADDER_TOP && !s.Lost? ==> !t.Lost? && (ok <==> Grants(s, e.name, alloc)))
      && (ok && !t.Lost? ==> t.Present?)
      && Holds(t, section, given)
      && (t.Present? && ok ==> CanDelete(t.table) && t.table.cells[t.table.pos] == Stored(t, e.name))
      && (!t.Lost? ==> KeepsDeclarations(s, t, e, ok))
  {
    hide WfTable, Insert, Stored, OnLadder, Grants;
    InsertEntryLaw(s, e, maxSize, alloc, bound);
    WfTableIsWf(s, bound);
    var (ok, t) := InsertEntry(s, e, maxSize, alloc);
    if !t.Lost? {
      if ok {
        RegisteredHolds(s, t, section, given, e.name, e.sysargs);
      } else {
        SameStored(s, t, section, given, e.name);
      }
    }
  }

  lemma WfTableIsWf(s: Section, bound: nat)
    requires s.Present? ==> WfTable(s.table, bound)
    ensures s.Present? ==> Wf(s.table)
  {
  }

  lemma SameStored(s: Section, t: Section, section: char, given: seq<Insertion>, name: Option<string>)
    requires Holds(s, section, given) && !s.Lost?
    requires Stored(t, name) == Stored(s, name) && forall n | n != name :: Stored(t, n) == Stored(s, n)
    ensures Holds(t, section, given)
  {
    forall n, option | IsLower(option) ensures StoredUsr(t, n, option) == StoredUsr(s, n, option) {}
  }

  lemma MoreAttempts(s: Section, bound: nat)
    requires s.Present? ==> WfTable(s.table, bound)
    ensures s.Present? ==> WfTable(s.table, bound + 1)
  {
  }

  /** What Parse does with the words from number `i` on, by index. */
  lemma ParseAt(argv: seq<string>, i: nat, section: char, name: Option<string>)
    requires i < |argv|
    ensures var p := Parse(argv[i..], section, name);
      if !IsDashWord(argv[i]) then p == Parsed(false, [])
      else if IsUpper(argv[i][1]) then
        if i + 1 == |argv| then p == Parse(argv[i + 1..], argv[i][1], name)
        else if IsAlnum(At0(argv[i + 1])) then p == Parse(argv[i + 2..], argv[i][1], Some(argv[i + 1]))
        else p == Parse(argv[i + 1..], argv[i][1], None)
      else if IsAlpha(argv[i][1]) then
        if i + 1 < |argv| && At0(argv[i + 1]) != '-' then
          p == Prepend(Insertion(section, name, argv[i][1], Some(argv[i + 1])), Parse(argv[i + 2..], section, name))
        else
          p == Prepend(Insertion(section, name, argv[i][1], None), Parse(argv[i + 1..], section, name))
      else p == Parsed(argv[i][1] == '-', [])
  {
    var rest := argv[i..];
    assert rest[1..] == argv[i + 1..];
    assert i + 1 < |argv| ==> rest[2..] == argv[i + 2..] && rest[1] == argv[i + 1];
  }

  lemma ParseNothing(section: char, name: Option<string>)
    ensures Parse([], section, name) == Parsed(true, [])
  {
  }

  /** For every declared option that occurred and has a counter, the number of its occurrences. */
  ghost function Counts(given: seq<Insertion>, section: char, name: Option<string>, decls: seq<ArgDecl>)
    : map<nat, nat>
  {
    map k: nat | k < |decls| && decls[k].counted && Occurrences(given, section, name, decls[k].option) != {} ::
      |Occurrences(given, section, name, decls[k].option)|
  }

  /** What it means, on the command line, that what was given for an option fits its declaration. */
  lemma FitsMeans(given: seq<Insertion>, section: char, name: Option<string>, d: ArgDecl,
      accepts: (nat, string) -> bool)
    ensures var occ := Occurrences(given, section, name, d.option);
      Fits(Summary(given, section, name, d.option), d, accepts) <==>
        && (d.onceOnly ==> |occ| <= 1)
        && forall k: nat | IsLast(occ, k) ::
             && k < |given|
             && (d.argNeeded ==> given[k].arg.Some?)
             && (given[k].arg.Some? ==> d.get.Some? && accepts(d.get.value, given[k].arg.value))
  {
    hide Summary, Occurrences, IsLast;
    SummaryCounts(given, section, name, d.option);
    var occ := Occurrences(given, section, name, d.option);
    if occ != {} { var k := LastOf(occ); } else { NoLast(); }
  }

  lemma NoLast()
    ensures forall k: nat :: !IsLast({}, k)
  {
  }

  /** The same for all declarations at once. */
  lemma AllFitMeans(entry: Entry, given: seq<Insertion>, section: char, name: Option<string>, decls: seq<ArgDecl>,
      accepts: (nat, string) -> bool)
    requires forall d | d in decls :: IsLower(d.option)
    requires HoldsGiven(entry, given, section, name)
    ensures AllFit(entry, decls, accepts) <==> forall d | d in decls ::
      var occ := Occurrences(given, section, name, d.option);
      && (d.onceOnly ==> |occ| <= 1)
      && forall k: nat | IsLast(occ, k) ::
           && k < |given|
           && (d.argNeeded ==> given[k].arg.Some?)
           && (given[k].arg.Some? ==> d.get.Some? && accepts(d.get.value, given[k].arg.value))
  {
    hide Summary, Fits, IsLast, Occurrences;
    forall d | d in decls
      ensures Fits(entry.usrargs[UsrPos(d.option)], d, accepts) <==>
        var occ := Occurrences(given, section, name, d.option);
        && (d.onceOnly ==> |occ| <= 1)
        && forall k: nat | IsLast(occ, k) ::
             && k < |given|
             && (d.argNeeded ==> given[k].arg.Some?)
             && (given[k].arg.Some? ==> d.get.Some? && accepts(d.get.value, given[k].arg.value))
    {
      assert entry.usrargs[UsrPos(d.option)] == Summary(given, section, name, d.option);
      FitsMeans(given, section, name, d, accepts);
    }
  }

  lemma {:induction false} LastOf(occ: set<nat>) returns (k: nat)
    requires occ != {}
    ensures IsLast(occ, k)
  {
    var i :| i in occ;
    k := i;
    if occ != {i} {
      assert occ - {i} != {};
      var j := LastOf(occ - {i});
      assert forall x | x in occ :: x == i || x in occ - {i};
      if j > i { k := j; }
    }
  }

  /** An entry holds, for every option, what was given for it. */
  ghost predicate HoldsGiven(entry: Entry, given: seq<Insertion>, section: char, name: Option<string>) {
    forall option | IsLower(option) :: entry.usrargs[UsrPos(option)] == Summary(given, section, name, option)
  }

  lemma EntryHoldsGiven(s: Section, section: char, given: seq<Insertion>, name: Option<string>)
    requires Holds(s, section, given) && !s.Lost? && Stored(s, name).Some?
    ensures HoldsGiven(Stored(s, name).value, given, section, name)
  {
    forall option | IsLower(option)
      ensures Stored(s, name).value.usrargs[UsrPos(option)] == Summary(given, section, name, option)
    {
      assert StoredUsr(s, name, option) == Summary(given, section, name, option);
    }
  }

  lemma BoundAsGiven(entry: Entry, given: seq<Insertion>, section: char, name: Option<string>, decls: seq<ArgDecl>)
    requires HoldsGiven(entry, given, section, name) && forall d | d in decls :: IsLower(d.option)
    ensures Reports(entry, decls, |decls|) == Counts(given, section, name, decls)
  {
    hide Summary, Occurrences;
    forall d | d in decls
      ensures Summary(given, section, name, d.option).found == |Occurrences(given, section, name, d.option)|
    {
      SummaryCounts(given, section, name, d.option);
    }
  }

  class Manager {
    const maxSize: nat
    var sections: seq<Section>

    ghost var given: seq<Insertion>  // the options inserted so far
    ghost var attempts: nat          // insertions attempted so far

    constructor (maxSize: nat)
      requires LADDER_TOP <= maxSize < SIZE_MODULUS - 1
      ensures Valid() && NoneLost() && given == [] && attempts == 0
    {
      this.maxSize := maxSize;
      sections := seq(ARGS_SEC_SIZ, _ => Absent);
      given, attempts := [], 0;
    }

    ghost predicate Valid()
      reads this
    {
      && LADDER_TOP <= maxSize < SIZE_MODULUS - 1
      && |sections| == ARGS_SEC_SIZ
      && (forall p: nat | p < ARGS_SEC_SIZ && sections[p].Present? :: WfTable(sections[p].table, attempts))
      && (forall section | ValidSection(section) :: Holds(sections[SectionPos(section).value], section, given))
    }

    ghost predicate NoneLost()
      reads this
    {
      forall p: nat | p < |sections| :: !sections[p].Lost?
    }

    method InsertArgs(section: char, name: Option<string>, option: char, arg: Option<string>, alloc: bool)
      returns (ok: bool)
      requires Valid() && IsLower(option)
      modifies this
      ensures Valid() && attempts == old(attempts) + 1
      ensures given == if ok then old(given) + [Insertion(section, name, option, arg)] else old(given)
      ensures !ValidSection(section) ==> !ok
      ensures ValidSection(section) && old(NoneLost()) && old(attempts) < LADDER_TOP ==>
        NoneLost() && (ok <==> Grants(old(sections)[SectionPos(section).value], name, alloc))
    {
      hide WfTable, Holds, InsertEntry, OptionEntry, Stored;
      ghost var before, x := attempts, Insertion(section, name, option, arg);
      attempts := attempts + 1;
      forall p: nat | p < ARGS_SEC_SIZ { MoreAttempts(sections[p], before); }
      var p := SectionPos(section);
      if p.None? { return false; }
      InsertOption(sections[p.value], section, given, x, maxSize, alloc, before);
      var (done, t) := InsertEntry(sections[p.value], OptionEntry(name, option, arg), maxSize, alloc);
      forall other | ValidSection(other) && other != section
        ensures SectionPos(other) != p
        ensures Holds(sections[SectionPos(other).value], other, if done then given + [x] else given)
      {
        SectionPosInjective(other, section);
        OtherSectionHolds(sections[SectionPos(other).value], other, given, x);
      }
      sections := sections[p.value := t];
      if done { given := given + [x]; }
      ok := done;
    }

    /**
    parse_args: every word is handled as Parse says, and when no insertion fails for
    want of memory the options given are exactly those of the command line, in order.
    */
    method ParseArgs(argv: seq<string>, alloc: nat -> bool) returns (ok: bool)
      requires Valid() && |argv| > 0
      modifies this
      ensures Valid()
      ensures ok == Parse(argv[1..], MAIN_SECTION, None).ok
      ensures var p := Parse(argv[1..], MAIN_SECTION, None);
        && attempts == old(attempts) + |p.inserted|
        && ((forall i :: alloc(i)) && old(NoneLost()) && old(attempts) + |p.inserted| <= LADDER_TOP ==>
              NoneLost() && given == old(given) + p.inserted)
    {
      hide Holds, WfTable, Summary, Valid, NoneLost, Stored, SectionPos, Parse;
      ghost var all := Parse(argv[1..], MAIN_SECTION, None);
      ghost var done: seq<Insertion> := [];
      ghost var granted := (forall i :: alloc(i)) && NoneLost() && attempts + |all.inserted| <= LADDER_TOP;
      var section, name := MAIN_SECTION, None;
      var i := 1;
      while i < |argv|
        invariant Valid() && 1 <= i <= |argv| && ValidSection(section)
        invariant all == Parsed(Parse(argv[i..], section, name).ok, done + Parse(argv[i..], section, name).inserted)
        invariant attempts == old(attempts) + |done|
        invariant granted ==> NoneLost() && given == old(given) + done
        decreases |argv| - i
      {
        var arg := argv[i];
        ParseAt(argv, i, section, name);
        if |arg| == 2 && arg[0] == '-' {
          if IsUpper(arg[1]) {
            section := arg[1];
            if i + 1 < |argv| {
              var next := argv[i + 1];
              if IsAlnum(At0(next)) {
                name := Some(next);
                i := i + 1;
              } else {
                name := None;
              }
            }
          } else if IsAlpha(arg[1]) {
            if i + 1 < |argv| {
              var next := argv[i + 1];
              if At0(next) != '-' {
                ghost var x := Insertion(section, name, arg[1], Some(next));
                assert all.inserted == done + [x] + Parse(argv[i + 2..], section, name).inserted;
                var _ := InsertArgs(section, name, arg[1], Some(next), alloc(i));
                done := done + [x];
                i := i + 2;
                continue;
              }
            }
            ghost var x := Insertion(section, name, arg[1], None);
            assert all.inserted == done + [x] + Parse(argv[i + 1..], section, name).inserted;
            var _ := InsertArgs(section, name, arg[1], None, alloc(i));
            done := done + [x];
          } else if arg[1] == '-' {
            assert all == Parsed(true, done);
            break;
          } else {
            return false;
          }
        } else {
          return false;
        }
        i := i + 1;
      }
      ParseNothing(section, name);
      assert i == |argv| ==> argv[i..] == [];
      return true;
    }

    /**
    args_register succeeds exactly when it gets the memory it asks for and everything given
    on the command line for this section and name fits the declarations; it then reports
    how often each declared option occurred.
    */
    method ArgsRegister(section: char, name: Option<string>, sysargs: Option<seq<ArgDecl>>,
                        accepts: (nat, string) -> bool, alloc: bool)
      returns (ok: bool, found: map<nat, nat>)
      requires Valid()
      modifies this
      ensures Valid() && given == old(given) && attempts == old(attempts) + 1
      ensures !ValidSection(section) ==> !ok
      ensures ValidSection(section) && old(NoneLost()) && old(attempts) < LADDER_TOP ==>
        var decls := Declared(if sysargs.Some? then sysargs.value else []);
        && NoneLost()
        && (ok <==> Grants(old(sections)[SectionPos(section).value], name, alloc)
                    && forall d | d in decls ::
                         var occ := Occurrences(given, section, name, d.option);
                         && (d.onceOnly ==> |occ| <= 1)
                         && forall k: nat | IsLast(occ, k) ::
                              && k < |given|
                              && (d.argNeeded ==> given[k].arg.Some?)
                              && (given[k].arg.Some? ==> d.get.Some? && accepts(d.get.value, given[k].arg.value)))
        && (ok ==> found == Counts(given, section, name, decls))
      ensures ValidSection(section) && old(NoneLost()) && old(attempts) < LADDER_TOP ==>
        var p := SectionPos(section).value;
        && KeepsDeclarations(old(sections)[p], sections[p], Entry(name, sysargs, NoUsrs(ARGS_USR_SIZ)),
                             Grants(old(sections)[p], name, alloc))
        && sections == old(sections)[p := sections[p]]
    {
      hide Summary, Reports, Counts, Fits, Grants, KeepsDeclarations, Occurrences, IsLast, AllFit, Valid, NoneLost;
      var entry := StoreDeclarations(section, name, sysargs, alloc);
      if entry.None? { return false, map[]; }
      var decls := if sysargs.Some? then sysargs.value else [];
      ok, found := BindArgs(entry.value, decls, accepts);
      BoundAsGiven(entry.value, given, section, name, Declared(decls));
      AllFitMeans(entry.value, given, section, name, Declared(decls), accepts);
    }

    /** The first half of args_register: the entry of that name, with the declarations in it. */
    method StoreDeclarations(section: char, name: Option<string>, sysargs: Option<seq<ArgDecl>>, alloc: bool)
      returns (entry: Option<Entry>)
      requires Valid()
      modifies this
      ensures Valid() && given == old(given) && attempts == old(attempts) + 1
      ensures entry.Some? ==> ValidSection(section) && HoldsGiven(entry.value, given, section, name)
      ensures ValidSection(section) && old(NoneLost()) && old(attempts) < LADDER_TOP ==>
        var p := SectionPos(section).value;
        && NoneLost()
        && (entry.Some? <==> Grants(old(sections)[p], name, alloc))
        && KeepsDeclarations(old(sections)[p], sections[p], Entry(name, sysargs, NoUsrs(ARGS_USR_SIZ)), entry.Some?)
        && sections == old(sections)[p := sections[p]]
    {
      hide WfTable, Holds, InsertEntry, Summary, Stored, Grants, KeepsDeclarations, HoldsGiven;
      ghost var before := attempts;
      attempts := attempts + 1;
      forall p: nat | p < ARGS_SEC_SIZ { MoreAttempts(sections[p], before); }
      var p := SectionPos(section);
      if p.None? { return None; }
      var e := Entry(name, sysargs, NoUsrs(ARGS_USR_SIZ));
      InsertDeclarations(sections[p.value], section, given, e, maxSize, alloc, before);
      var (done, t) := InsertEntry(sections[p.value], e, maxSize, alloc);
      forall other | ValidSection(other) && other != section
        ensures SectionPos(other) != p
      {
        SectionPosInjective(other, section);
      }
      sections := sections[p.value := t];
      if !done || !t.Present? { return None; }
      EntryHoldsGiven(t, section, given, name);
      entry := t.table.cells[t.table.pos];
    }
  }
}
