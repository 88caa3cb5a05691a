/**
 Installation of the two GOT hooks as one transaction. Foreign memory is two slots and the
 protections of their pages, which may be one page. Every mprotect, compare-exchange, protection
 read and thread start may fail, and another writer may overwrite either slot around each
 compare-exchange.
 */
module GotInstall {
  import opened Common

  datatype Prot = Prot(read: bool, write: bool, exec: bool)

  datatype Ptr = Null | UnsolHook | CompleteHook | Function(address: nat)

  datatype Which = Unsol | Complete

  datatype Mem = Mem(unsol: Ptr, complete: Ptr, unsolProt: Prot, completeProt: Prot, samePage: bool)

  predicate WellFormed(m: Mem) { m.samePage ==> m.unsolProt == m.completeProt }

  function Load(m: Mem, w: Which): Ptr { if w.Unsol? then m.unsol else m.complete }

  function ProtOf(m: Mem, w: Which): Prot { if w.Unsol? then m.unsolProt else m.completeProt }

  /** mprotect changes the whole page, hence the other slot too when it shares the page. */
  function Protect(m: Mem, w: Which, p: Prot): Mem
  {
    if m.samePage then m.(unsolProt := p, completeProt := p)
    else if w.Unsol? then m.(unsolProt := p) else m.(completeProt := p)
  }

  /** The store of a compare-exchange; it would fault on a page that is not writable. */
  function CompareExchange(m: Mem, w: Which, expected: Ptr, desired: Ptr): Mem
    requires ProtOf(m, w).write
  {
    if Load(m, w) != expected then m
    else if w.Unsol? then m.(unsol := desired) else m.(complete := desired)
  }

  /** Another writer replacing either slot. */
  datatype Interference = Interference(unsol: Option<Ptr>, complete: Option<Ptr>)

  function Disturb(m: Mem, i: Interference): Mem
  {
    m.(unsol := if i.unsol.Some? then i.unsol.value else m.unsol,
       complete := if i.complete.Some? then i.complete.value else m.complete)
  }

  const QUIET := Interference(None, None)

  datatype Entry = Entry(slot: Which, original: Ptr, replacement: Ptr, protection: Prot)

  datatype WriteFaults = WriteFaults(cannotUnprotect: bool, before: Interference, after: Interference,
                                     cannotRestore: bool, cannotReadProt: bool)

  function Verify(m: Mem, e: Entry, expected: Ptr, cannotReadProt: bool): bool
  {
    Load(m, e.slot) == expected && !cannotReadProt && ProtOf(m, e.slot) == e.protection
  }

  /** The entry's page carries the captured protection, possibly still with write access. */
  predicate Tracks(m: Mem, e: Entry)
  {
    WellFormed(m) && (ProtOf(m, e.slot) == e.protection || ProtOf(m, e.slot) == e.protection.(write := true))
  }

  /** `seen` lists every memory another thread can observe during the call. */
  datatype Written = Written(mem: Mem, ok: bool, seen: seq<Mem>)

  /** writeGotValue. */
  function WriteGot(m: Mem, e: Entry, expected: Ptr, desired: Ptr, f: WriteFaults): (r: Written)
    requires Tracks(m, e)
    ensures Tracks(r.mem, e) && r.mem.samePage == m.samePage
    ensures r.ok ==> Load(r.mem, e.slot) == desired && ProtOf(r.mem, e.slot) == e.protection
    ensures m.samePage || forall w :: w != e.slot ==> ProtOf(r.mem, w) == ProtOf(m, w)
    ensures r.seen == [] ==> r.mem == m
    ensures r.seen != [] ==> r.mem == r.seen[|r.seen| - 1]
  {
    var writable := e.protection.write;
    if !writable && f.cannotUnprotect then Written(m, false, [])
    else
      var m1 := if writable then m else Protect(m, e.slot, e.protection.(write := true));
      var m2 := Disturb(m1, f.before);
      var m3 := CompareExchange(m2, e.slot, expected, desired);
      var m4 := Disturb(m3, f.after);
      var kept := Load(m2, e.slot) == expected && Load(m4, e.slot) == desired;
      var m5 := if writable || f.cannotRestore then m4 else Protect(m4, e.slot, e.protection);
      Written(m5, kept && (writable || !f.cannotRestore) && Verify(m5, e, desired, f.cannotReadProt),
              [m1, m2, m3, m4, m5])
  }

  datatype RollbackFaults = RollbackFaults(complete: WriteFaults, unsol: WriteFaults,
                                           completeUnreadable: bool, unsolUnreadable: bool)

  /** rollbackGotHooks: reverse order, then an independent verification of both slots. */
  function Rollback(m: Mem, unsol: Entry, complete: Entry, f: RollbackFaults): (r: Written)
    requires unsol.slot.Unsol? && complete.slot.Complete? && Tracks(m, unsol) && Tracks(m, complete)
    requires m.samePage ==> unsol.protection == complete.protection
    ensures Tracks(r.mem, unsol) && Tracks(r.mem, complete) && r.mem.samePage == m.samePage
    ensures r.ok ==> r.mem == Mem(unsol.original, complete.original, unsol.protection, complete.protection, m.samePage)
    ensures r.seen == [] ==> r.mem == m
    ensures r.seen != [] ==> r.mem == r.seen[|r.seen| - 1]
  {
    var c := if m.complete == complete.replacement
             then WriteGot(m, complete, complete.replacement, complete.original, f.complete) else Written(m, true, []);
    var u := if c.mem.unsol == unsol.replacement
             then WriteGot(c.mem, unsol, unsol.replacement, unsol.original, f.unsol) else Written(c.mem, true, []);
    Written(u.mem,
            Verify(u.mem, complete, complete.original, f.completeUnreadable)
            && Verify(u.mem, unsol, unsol.original, f.unsolUnreadable),
            c.seen + u.seen)
  }

  // ---------------------------------------------------------------- the transaction

  datatype HookState = Disabled | Installing | Active | Failed

  datatype Shim = Shim(mem: Mem, state: HookState, realUnsol: Ptr, realComplete: Ptr, workers: nat)

  datatype InstallFaults = InstallFaults(
    unresolved: bool, unsol: WriteFaults, complete: WriteFaults,
    unsolUnreadable: bool, completeUnreadable: bool,
    workerFails: bool, rollback: RollbackFaults)

  function EntryFor(m: Mem, w: Which): Entry
  {
    Entry(w, Load(m, w), if w.Unsol? then UnsolHook else CompleteHook, ProtOf(m, w))
  }

  /** findGotEntry refuses a NULL original and a slot that already holds the hook. */
  predicate Resolvable(m: Mem)
  {
    m.unsol != Null && m.unsol != UnsolHook && m.complete != Null && m.complete != CompleteHook
  }

  /** The two stores, or as many of them as succeed. */
  function Publish(m: Mem, f: InstallFaults): (r: Written)
    requires WellFormed(m)
    ensures Tracks(r.mem, EntryFor(m, Unsol)) && Tracks(r.mem, EntryFor(m, Complete)) && r.mem.samePage == m.samePage
    ensures r.ok ==> r.mem == m.(unsol := UnsolHook, complete := CompleteHook)
    ensures r.seen == [] ==> r.mem == m
    ensures r.seen != [] ==> r.mem == r.seen[|r.seen| - 1]
  {
    var unsol, complete := EntryFor(m, Unsol), EntryFor(m, Complete);
    var u := WriteGot(m, unsol, unsol.original, unsol.replacement, f.unsol);
    if !u.ok then u
    else
      var c := WriteGot(u.mem, complete, complete.original, complete.replacement, f.complete);
      Written(c.mem,
              c.ok && Verify(c.mem, unsol, unsol.replacement, f.unsolUnreadable)
              && Verify(c.mem, complete, complete.replacement, f.completeUnreadable),
              u.seen + c.seen)
  }

  datatype Installed = Installed(shim: Shim, rc: int, seen: seq<Mem>)

  /** installAttachApnHooks. */
  function Install(s: Shim, f: InstallFaults): Installed
    requires WellFormed(s.mem)
  {
    if !s.state.Disabled? then Installed(s, if s.state.Active? then 0 else -1, [])
    else if f.unresolved || !Resolvable(s.mem) then Installed(s, -1, [])
    else
      var p := Publish(s.mem, f);
      var published := s.(realUnsol := s.mem.unsol, realComplete := s.mem.complete);
      if p.ok && !f.workerFails then
        Installed(published.(mem := p.mem, state := Active, workers := s.workers + 1), 0, p.seen)
      else
        var r := Rollback(p.mem, EntryFor(s.mem, Unsol), EntryFor(s.mem, Complete), f.rollback);
        Installed(published.(mem := r.mem, state := if r.ok then Disabled else Failed), -1, p.seen + r.seen)
  }

  /** Whatever fails: success means both hooks, the original protections and one more worker; a clean
      failure means memory exactly as found; every other ending is Failed, and no state in between remains. */
  lemma InstallIsAtomic(s: Shim, f: InstallFaults)
    requires WellFormed(s.mem) && s.state.Disabled?
    ensures var r := Install(s, f);
            && WellFormed(r.shim.mem) && (r.rc == 0 <==> r.shim.state.Active?)
            && (r.shim.state.Active? ==>
                  && r.shim.mem == s.mem.(unsol := UnsolHook, complete := CompleteHook)
                  && r.shim.realUnsol == s.mem.unsol && r.shim.realComplete == s.mem.complete
                  && r.shim.workers == s.workers + 1)
            && (r.shim.state.Disabled? ==> r.shim.mem == s.mem && r.shim.workers == s.workers)
            && (!r.shim.state.Active? && !r.shim.state.Disabled? ==>
                  r.shim.state.Failed? && r.shim.workers == s.workers)
            && (r.shim.state.Failed? ==>
                  r.shim.mem != s.mem || f.rollback.completeUnreadable || f.rollback.unsolUnreadable)
  {
  }

  const NO_FAULT := WriteFaults(false, QUIET, QUIET, false, false)

  /** Without a fault a write replaces the expected pointer and leaves everything else as it was. */
  lemma QuietWrite(m: Mem, w: Which, expected: Ptr, desired: Ptr)
    requires WellFormed(m) && Load(m, w) == expected
    ensures var e := Entry(w, expected, desired, ProtOf(m, w));
            var r := WriteGot(m, e, expected, desired, NO_FAULT);
            r.ok && r.mem == if w.Unsol? then m.(unsol := desired) else m.(complete := desired)
  {
  }

  lemma QuietPublish(m: Mem, f: InstallFaults)
    requires WellFormed(m) && f.unsol == f.complete == NO_FAULT && !f.unsolUnreadable && !f.completeUnreadable
    ensures Publish(m, f).ok
  {
    QuietWrite(m, Unsol, m.unsol, UnsolHook);
    QuietWrite(m.(unsol := UnsolHook), Complete, m.complete, CompleteHook);
  }

  /** With no fault the transaction commits, so the theorem above is not vacuous. */
  lemma InstallSucceedsWithoutFaults(s: Shim, f: InstallFaults)
    requires WellFormed(s.mem) && s.state.Disabled? && Resolvable(s.mem) && !f.unresolved && !f.workerFails
    requires f.unsol == f.complete == NO_FAULT && !f.unsolUnreadable && !f.completeUnreadable
    ensures Install(s, f).shim.state.Active?
  {
    QuietPublish(s.mem, f);
  }

  // ---------------------------------------------------------------- when a failed installation can be undone

  predicate Alone(f: WriteFaults) { f.before == QUIET && f.after == QUIET }

  /** Nobody else writes the slots during the installation; everything else may still fail. */
  predicate NoOtherWriter(f: InstallFaults)
  {
    Alone(f.unsol) && Alone(f.complete) && Alone(f.rollback.unsol) && Alone(f.rollback.complete)
  }

  /** The restoring store can be made: the page is writable anyway, or can be made so. */
  predicate CanStore(e: Entry, f: WriteFaults) { e.protection.write || !f.cannotUnprotect }

  /** Whether the page of a slot has its captured protection after a possible restoring store. */
  predicate Sealed(sealed: bool, stores: bool, e: Entry, f: WriteFaults)
  {
    if stores && CanStore(e, f) then e.protection.write || !f.cannotRestore else sealed
  }

  /** A rollback without another writer succeeds: each slot that holds its hook can be stored to, both pages end with
      their protections, and both can be read back. */
  predicate Recovers(m: Mem, unsol: Entry, complete: Entry, f: RollbackFaults)
  {
    var (u, c) := (m.unsol == unsol.replacement, m.complete == complete.replacement);
    var completePage := Sealed(m.completeProt == complete.protection, c, complete, f.complete);
    var unsolPage := Sealed(if m.samePage then completePage else m.unsolProt == unsol.protection, u, unsol, f.unsol);
    && (u ==> CanStore(unsol, f.unsol)) && (c ==> CanStore(complete, f.complete))
    && unsolPage && (if m.samePage then true else completePage)
    && !f.completeUnreadable && !f.unsolUnreadable
  }

  /** One restoring store without another writer. */
  lemma StoreBack(m: Mem, e: Entry, f: WriteFaults)
    requires Tracks(m, e) && Alone(f) && Load(m, e.slot) == e.replacement
    ensures var r := WriteGot(m, e, e.replacement, e.original, f).mem;
            && (CanStore(e, f) ==>
                  && Load(r, e.slot) == e.original
                  && (ProtOf(r, e.slot) == e.protection <==> e.protection.write || !f.cannotRestore))
            && (!CanStore(e, f) ==> r == m)
            && (e.slot.Unsol? ==> r.complete == m.complete) && (e.slot.Complete? ==> r.unsol == m.unsol)
  {
  }

  /** Both slots hold their originals or their hooks, and nobody else writes them during the rollback. */
  predicate Ours(m: Mem, unsol: Entry, complete: Entry, f: RollbackFaults)
  {
    && unsol.slot.Unsol? && complete.slot.Complete? && Tracks(m, unsol) && Tracks(m, complete)
    && (m.samePage ==> unsol.protection == complete.protection) && Alone(f.unsol) && Alone(f.complete)
    && unsol.original != unsol.replacement && complete.original != complete.replacement
    && m.unsol in {unsol.original, unsol.replacement} && m.complete in {complete.original, complete.replacement}
  }

  /** Without another writer a rollback puts back each original it can store, whatever becomes of the other, and reports
      success exactly when it recovers. */
  lemma RollbackRestores(m: Mem, unsol: Entry, complete: Entry, f: RollbackFaults)
    requires Ours(m, unsol, complete, f)
    ensures Rollback(m, unsol, complete, f).ok <==> Recovers(m, unsol, complete, f)
    ensures var r := Rollback(m, unsol, complete, f).mem;
            && r.unsol == (if CanStore(unsol, f.unsol) then unsol.original else m.unsol)
            && r.complete == (if CanStore(complete, f.complete) then complete.original else m.complete)
  {
    RollbackReports(m, unsol, complete, f);
    RollbackStores(m, unsol, complete, f);
  }

  lemma RollbackReports(m: Mem, unsol: Entry, complete: Entry, f: RollbackFaults)
    requires Ours(m, unsol, complete, f)
    ensures Rollback(m, unsol, complete, f).ok <==> Recovers(m, unsol, complete, f)
  {
    if m.complete == complete.replacement { StoreBack(m, complete, f.complete); }
    var c := if m.complete == complete.replacement
             then WriteGot(m, complete, complete.replacement, complete.original, f.complete) else Written(m, true, []);
    if c.mem.unsol == unsol.replacement { StoreBack(c.mem, unsol, f.unsol); }
  }

  lemma RollbackStores(m: Mem, unsol: Entry, complete: Entry, f: RollbackFaults)
    requires Ours(m, unsol, complete, f)
    ensures var r := Rollback(m, unsol, complete, f).mem;
            && r.unsol == (if CanStore(unsol, f.unsol) then unsol.original else m.unsol)
            && r.complete == (if CanStore(complete, f.complete) then complete.original else m.complete)
  {
    if m.complete == complete.replacement { StoreBack(m, complete, f.complete); }
    var c := if m.complete == complete.replacement
             then WriteGot(m, complete, complete.replacement, complete.original, f.complete) else Written(m, true, []);
    if c.mem.unsol == unsol.replacement { StoreBack(c.mem, unsol, f.unsol); }
  }

  /** An installation is tried and does not commit. */
  predicate Aborts(s: Shim, f: InstallFaults)
    requires WellFormed(s.mem)
  {
    s.state.Disabled? && !f.unresolved && Resolvable(s.mem) && (!Publish(s.mem, f).ok || f.workerFails)
  }

  lemma PublishStaysOurs(m: Mem, f: InstallFaults)
    requires WellFormed(m) && Alone(f.unsol) && Alone(f.complete)
    ensures Publish(m, f).mem.unsol in {m.unsol, UnsolHook} && Publish(m, f).mem.complete in {m.complete, CompleteHook}
  {
  }

  /** FAILED is the end exactly of an aborted installation whose rollback does not recover; with both stores undone it
      is DISABLED again, and can be retried. */
  lemma FailedExactly(s: Shim, f: InstallFaults)
    requires WellFormed(s.mem) && s.state.Disabled? && NoOtherWriter(f)
    ensures Install(s, f).shim.state.Failed? <==>
            && Aborts(s, f)
            && !Recovers(Publish(s.mem, f).mem, EntryFor(s.mem, Unsol), EntryFor(s.mem, Complete), f.rollback)
    ensures Aborts(s, f) && !Install(s, f).shim.state.Failed? ==> Install(s, f).shim.state.Disabled?
  {
    if Aborts(s, f) {
      PublishStaysOurs(s.mem, f);
      RollbackRestores(Publish(s.mem, f).mem, EntryFor(s.mem, Unsol), EntryFor(s.mem, Complete), f.rollback);
    }
  }

  /** A store commits: it can be made, the protection goes back, and it can be read. */
  predicate StoreCommits(p: Prot, f: WriteFaults)
  {
    (p.write || (!f.cannotUnprotect && !f.cannotRestore)) && !f.cannotReadProt
  }

  lemma StoreExactly(m: Mem, w: Which, desired: Ptr, f: WriteFaults)
    requires WellFormed(m) && Alone(f)
    ensures var e := Entry(w, Load(m, w), desired, ProtOf(m, w));
            var r := WriteGot(m, e, Load(m, w), desired, f);
            && (r.ok <==> StoreCommits(ProtOf(m, w), f))
            && (r.ok ==> r.mem == if w.Unsol? then m.(unsol := desired) else m.(complete := desired))
  {
  }

  /** Without another writer an installation commits exactly when both entries resolve, both stores commit, both slots
      verify and the worker starts. */
  lemma CommitsExactly(s: Shim, f: InstallFaults)
    requires WellFormed(s.mem) && s.state.Disabled? && NoOtherWriter(f)
    ensures Install(s, f).shim.state.Active? <==>
            && !f.unresolved && s.mem.unsol != Null && s.mem.unsol != UnsolHook
            && s.mem.complete != Null && s.mem.complete != CompleteHook
            && StoreCommits(s.mem.unsolProt, f.unsol) && StoreCommits(s.mem.completeProt, f.complete)
            && !f.unsolUnreadable && !f.completeUnreadable && !f.workerFails
  {
    StoreExactly(s.mem, Unsol, UnsolHook, f.unsol);
    StoreExactly(s.mem.(unsol := UnsolHook), Complete, CompleteHook, f.complete);
  }

  predicate Faultless(f: WriteFaults) { Alone(f) && !f.cannotUnprotect && !f.cannotRestore }

  /** A rollback in which nothing fails always leaves the installation retryable, however it was aborted. */
  lemma FaultlessRollbackNeverFails(s: Shim, f: InstallFaults)
    requires WellFormed(s.mem) && s.state.Disabled? && NoOtherWriter(f)
    requires Faultless(f.rollback.unsol) && Faultless(f.rollback.complete)
    requires !f.rollback.unsolUnreadable && !f.rollback.completeUnreadable
    ensures !Install(s, f).shim.state.Failed?
  {
    if Aborts(s, f) { PublishSeals(s.mem, f); }
    FailedExactly(s, f);
  }

  /** A slot that does not hold its hook after the stores has a page in its captured protection, unless its page is
      that of a slot which does. */
  lemma PublishSeals(m: Mem, f: InstallFaults)
    requires WellFormed(m) && Resolvable(m) && Alone(f.unsol) && Alone(f.complete)
    ensures var r := Publish(m, f).mem;
            && (r.unsol != UnsolHook && (r.samePage ==> r.complete != CompleteHook) ==> r.unsolProt == m.unsolProt)
            && (r.complete != CompleteHook && (r.samePage ==> r.unsol != UnsolHook) ==>
                  r.completeProt == m.completeProt)
  {
  }

  /** Repeated calls. */
  function Attempts(s: Shim, fs: seq<InstallFaults>): (r: Shim)
    requires WellFormed(s.mem)
    ensures WellFormed(r.mem)
    decreases |fs|
  {
    if fs == [] then s
    else
      assert WellFormed(Install(s, fs[0]).shim.mem) by { if s.state.Disabled? { InstallIsAtomic(s, fs[0]); } }
      Attempts(Install(s, fs[0]).shim, fs[1..])
  }

  /** However often installation is retried, it either still sits on the original memory, or has committed
      once with the original pointers and exactly one worker, or has failed for good without a worker. */
  lemma {:induction false} RetriesCaptureTheSameOriginals(s: Shim, fs: seq<InstallFaults>)
    requires WellFormed(s.mem) && s.state.Disabled? && s.workers == 0
    ensures var r := Attempts(s, fs);
            && !r.state.Installing?
            && (r.state.Disabled? ==> r.mem == s.mem && r.workers == 0)
            && (r.state.Active? ==>
                  && r.mem == s.mem.(unsol := UnsolHook, complete := CompleteHook)
                  && r.realUnsol == s.mem.unsol && r.realComplete == s.mem.complete && r.workers == 1)
            && (r.state.Failed? ==> r.workers == 0)
    decreases |fs|
  {
    if fs != [] {
      InstallIsAtomic(s, fs[0]);
      var next := Install(s, fs[0]).shim;
      if next.state.Disabled? {
        RetriesCaptureTheSameOriginals(next, fs[1..]);
      } else {
        SettledStaysSettled(next, fs[1..]);
      }
    }
  }

  lemma {:induction false} SettledStaysSettled(s: Shim, fs: seq<InstallFaults>)
    requires WellFormed(s.mem) && !s.state.Disabled?
    ensures Attempts(s, fs) == s
    decreases |fs|
  {
    if fs != [] { SettledStaysSettled(s, fs[1..]); }
  }

  // ---------------------------------------------------------------- what other threads observe meanwhile

  /** Pointers that may legitimately appear in each slot. */
  datatype Allowed = Allowed(unsol: set<Ptr>, complete: set<Ptr>)

  ghost predicate Within(m: Mem, a: Allowed) { m.unsol in a.unsol && m.complete in a.complete }

  ghost predicate Permits(a: Allowed, i: Interference)
  {
    (i.unsol.Some? ==> i.unsol.value in a.unsol) && (i.complete.Some? ==> i.complete.value in a.complete)
  }

  ghost predicate PermitsWrite(a: Allowed, f: WriteFaults) { Permits(a, f.before) && Permits(a, f.after) }

  ghost predicate AllWithin(seen: seq<Mem>, a: Allowed) { forall i :: 0 <= i < |seen| ==> Within(seen[i], a) }

  lemma WriteGotStaysWithin(m: Mem, e: Entry, expected: Ptr, desired: Ptr, f: WriteFaults, a: Allowed)
    requires Tracks(m, e) && Within(m, a) && PermitsWrite(a, f)
    requires desired in if e.slot.Unsol? then a.unsol else a.complete
    ensures var r := WriteGot(m, e, expected, desired, f); Within(r.mem, a) && AllWithin(r.seen, a)
  {
    var r := WriteGot(m, e, expected, desired, f);
    if r.seen != [] {
      assert Within(r.seen[0], a);
      assert Within(r.seen[1], a);
      assert Within(r.seen[2], a);
      assert Within(r.seen[3], a);
    }
  }

  /** Every memory observable during an installation holds only originals, hooks and values other writers stored;
      with no other writer, only originals and hooks. */
  lemma InstallShowsOnlyOriginalsAndHooks(s: Shim, f: InstallFaults, a: Allowed)
    requires WellFormed(s.mem) && s.state.Disabled?
    requires {s.mem.unsol, UnsolHook} <= a.unsol && {s.mem.complete, CompleteHook} <= a.complete
    requires PermitsWrite(a, f.unsol) && PermitsWrite(a, f.complete)
    requires PermitsWrite(a, f.rollback.unsol) && PermitsWrite(a, f.rollback.complete)
    ensures AllWithin(Install(s, f).seen, a) && Within(Install(s, f).shim.mem, a)
  {
    if !f.unresolved && Resolvable(s.mem) {
      var unsol, complete := EntryFor(s.mem, Unsol), EntryFor(s.mem, Complete);
      WriteGotStaysWithin(s.mem, unsol, unsol.original, UnsolHook, f.unsol, a);
      var u := WriteGot(s.mem, unsol, unsol.original, UnsolHook, f.unsol);
      if u.ok { WriteGotStaysWithin(u.mem, complete, complete.original, CompleteHook, f.complete, a); }
      RollbackStaysWithin(Publish(s.mem, f).mem, unsol, complete, f.rollback, a);
    }
  }

  lemma RollbackStaysWithin(m: Mem, unsol: Entry, complete: Entry, f: RollbackFaults, a: Allowed)
    requires unsol.slot.Unsol? && complete.slot.Complete? && Tracks(m, unsol) && Tracks(m, complete)
    requires m.samePage ==> unsol.protection == complete.protection
    requires Within(m, a) && unsol.original in a.unsol && complete.original in a.complete
    requires PermitsWrite(a, f.unsol) && PermitsWrite(a, f.complete)
    ensures var r := Rollback(m, unsol, complete, f); Within(r.mem, a) && AllWithin(r.seen, a)
  {
    if m.complete == complete.replacement {
      WriteGotStaysWithin(m, complete, complete.replacement, complete.original, f.complete, a);
    }
    var c := if m.complete == complete.replacement
             then WriteGot(m, complete, complete.replacement, complete.original, f.complete) else Written(m, true, []);
    if c.mem.unsol == unsol.replacement {
      WriteGotStaysWithin(c.mem, unsol, unsol.replacement, unsol.original, f.unsol, a);
    }
  }

  // ---------------------------------------------------------------- the code, in place

  /** The process state the installer mutates: the loader's memory, the published originals and the state word. */
  class Installer {
    var mem: Mem
    var state: HookState
    var realUnsol: Ptr
    var realComplete: Ptr
    var workers: nat

    ghost function View(): Shim
      reads this
    {
      Shim(mem, state, realUnsol, realComplete, workers)
    }

    constructor (m: Mem)
      ensures View() == Shim(m, Disabled, Null, Null, 0)
    {
      mem, state, realUnsol, realComplete, workers := m, Disabled, Null, Null, 0;
    }

    method WriteGotValue(e: Entry, expected: Ptr, desired: Ptr, f: WriteFaults) returns (ok: bool)
      requires Tracks(mem, e)
      modifies this`mem
      ensures var r := WriteGot(old(mem), e, expected, desired, f); mem == r.mem && ok == r.ok
    {
      var writable := e.protection.write;
      if !writable {
        if f.cannotUnprotect { return false; }
        mem := Protect(mem, e.slot, e.protection.(write := true));
      }
      mem := Disturb(mem, f.before);
      ok := Load(mem, e.slot) == expected;
      mem := CompareExchange(mem, e.slot, expected, desired);
      mem := Disturb(mem, f.after);
      if ok && Load(mem, e.slot) != desired { ok := false; }
      if !writable {
        if f.cannotRestore { ok := false; } else { mem := Protect(mem, e.slot, e.protection); }
      }
      ok := ok && Verify(mem, e, desired, f.cannotReadProt);
    }

    method RollbackGotHooks(unsol: Entry, complete: Entry, f: RollbackFaults) returns (ok: bool)
      requires unsol.slot.Unsol? && complete.slot.Complete? && Tracks(mem, unsol) && Tracks(mem, complete)
      requires mem.samePage ==> unsol.protection == complete.protection
      modifies this`mem
      ensures var r := Rollback(old(mem), unsol, complete, f); mem == r.mem && ok == r.ok
    {
      if Load(mem, Complete) == complete.replacement {
        var _ := WriteGotValue(complete, complete.replacement, complete.original, f.complete);
      }
      if Load(mem, Unsol) == unsol.replacement {
        var _ := WriteGotValue(unsol, unsol.replacement, unsol.original, f.unsol);
      }
      var completeRestored := Verify(mem, complete, complete.original, f.completeUnreadable);
      var unsolRestored := Verify(mem, unsol, unsol.original, f.unsolUnreadable);
      ok := completeRestored && unsolRestored;
    }

    method InstallAttachApnHooks(f: InstallFaults) returns (rc: int)
      requires WellFormed(mem)
      modifies this
      ensures var r := Install(old(View()), f); View() == r.shim && rc == r.rc
    {
      if !state.Disabled? { return if state.Active? then 0 else -1; }
      state := Installing;
      if f.unresolved || !Resolvable(mem) {
        state := Disabled;
        return -1;
      }
      var unsol, complete := EntryFor(mem, Unsol), EntryFor(mem, Complete);
      realUnsol, realComplete := unsol.original, complete.original;
      var ok := WriteGotValue(unsol, unsol.original, unsol.replacement, f.unsol);
      if ok {
        ok := WriteGotValue(complete, complete.original, complete.replacement, f.complete);
        ok := ok && Verify(mem, unsol, unsol.replacement, f.unsolUnreadable)
              && Verify(mem, complete, complete.replacement, f.completeUnreadable);
      }
      if !ok || f.workerFails {
        var rolledBack := RollbackGotHooks(unsol, complete, f.rollback);
        state := if rolledBack then Disabled else Failed;
        return -1;
      }
      workers := workers + 1;
      state := Active;
      return 0;
    }
  }
}
