/**
 The shim's file-static replay state and the code that mutates it under sIaLock, in place.
 Every method is proved against the specification function of the same step in AttachApnReplay.
 */
module AttachApnShim {
  import opened Common
  import opened Sockets
  import R = AttachApnReplay

  class Shim {
    const cache: array<Option<R.Payload>>
    const pending: array<bool>
    const outstanding: array<bool>
    var inFlight: bool
    var deadline: int
    var current: nat
    var lastIssueValid: bool
    var lastIssue: int
    var nextSocket: nat

    ghost predicate Valid()
      reads this
    {
      && cache.Length == pending.Length == SIM_COUNT
      && outstanding.Length == R.TOKEN_SLOTS
      && pending != outstanding
      && current < R.TOKEN_SLOTS && nextSocket < SIM_COUNT
    }

    ghost function View(): (s: R.Ia)
      requires Valid()
      reads this, cache, pending, outstanding
      ensures R.Shape(s)
    {
      R.Ia(cache[..], pending[..], inFlight, deadline, current, outstanding[..],
           if lastIssueValid then Some(lastIssue) else None, nextSocket)
    }

    constructor ()
      ensures Valid() && fresh(cache) && fresh(pending) && fresh(outstanding)
      ensures View() == R.Init().ia
    {
      cache := new Option<R.Payload>[SIM_COUNT](_ => None);
      pending := new bool[SIM_COUNT](_ => false);
      outstanding := new bool[R.TOKEN_SLOTS](_ => false);
      inFlight, deadline, current := false, 0, 0;
      lastIssueValid, lastIssue, nextSocket := false, 0, 0;
    }

    method CacheInitialAttachApn(socket: int, data: Option<R.Payload>, datalen: nat, a: R.Alloc)
      requires Valid()
      modifies cache
      ensures Valid() && View() == R.CacheApn(old(View()), socket, data, datalen, a)
    {
      if socket < 0 || socket >= SIM_COUNT { return; }
      if data.None? || datalen != R.PAYLOAD_BYTES { return; }
      var copy := R.CopyIa(data.value, a);
      if copy.None? { return; }
      cache[socket] := copy;
    }

    method NoteReset(code: int, socket: int)
      requires Valid()
      modifies pending
      ensures Valid() && View() == R.NoteReset(old(View()), code, socket)
    {
      if code == R.UNSOL_RESET_ATTACH_APN && 0 <= socket < SIM_COUNT {
        if cache[socket].Some? {
          pending[socket] := true;
        }
      }
    }

    method NoteCompletion(index: nat)
      requires Valid() && index < R.TOKEN_SLOTS
      modifies this, outstanding
      ensures Valid() && View() == R.NoteCompletion(old(View()), index)
    {
      var current' := outstanding[index] && inFlight && index == current;
      outstanding[index] := false;
      if current' {
        inFlight := false;
        deadline := 0;
      }
    }

    /** The round-robin scan at the top of the worker loop; -1 when nothing is ready. */
    method ScanSockets() returns (socket: int)
      requires Valid()
      ensures socket == -1 <==> R.PickSocket(View()).None?
      ensures socket != -1 ==> R.PickSocket(View()) == Some(socket)
    {
      var offset := 0;
      while offset < SIM_COUNT
        invariant 0 <= offset <= SIM_COUNT
        invariant CyclicFirst(R.Ready(View()), nextSocket, 0) == CyclicFirst(R.Ready(View()), nextSocket, offset)
      {
        var i := (nextSocket + offset) % SIM_COUNT;
        if pending[i] && cache[i].Some? { return i; }
        offset := offset + 1;
      }
      return -1;
    }

    /** The search for a token the vendor does not hold, starting after the newest one. */
    method ScanTokens() returns (token: int)
      requires Valid()
      ensures token == -1 <==> R.PickToken(View()).None?
      ensures token != -1 ==> R.PickToken(View()) == Some(token)
    {
      var offset := 1;
      ghost var start := (current + 1) % R.TOKEN_SLOTS;
      while offset <= R.TOKEN_SLOTS
        invariant 1 <= offset <= R.TOKEN_SLOTS + 1
        invariant CyclicFirst(R.Free(View()), start, 0) == CyclicFirst(R.Free(View()), start, offset - 1)
      {
        var index := (current + offset) % R.TOKEN_SLOTS;
        assert index == RingIndex(start, offset - 1, R.TOKEN_SLOTS);
        if !outstanding[index] { return index; }
        offset := offset + 1;
      }
      return -1;
    }

    method StampAttempt(now: Option<int>)
      modifies this`lastIssueValid, this`lastIssue
      ensures lastIssueValid == now.Some?
      ensures now.Some? ==> lastIssue == now.value
    {
      if now.Some? { lastIssueValid, lastIssue := true, now.value; } else { lastIssueValid := false; }
    }

    /** The worker's inner loop, up to the point where it blocks or has found a socket. */
    method AwaitSocket(waited: bool, c: R.Clock) returns (socket: int)
      requires Valid()
      modifies this`inFlight, this`deadline
      ensures Valid() && View() == R.Settle(old(View()), waited, c)
      ensures inFlight ==> socket == -1
      ensures !inFlight ==> (socket == -1 <==> R.PickSocket(View()).None?)
      ensures socket != -1 ==> R.PickSocket(View()) == Some(socket)
    {
      if waited && inFlight {
        if c.afterWait.None? || c.afterWait.value >= deadline {
          inFlight := false;
          deadline := 0;
        }
      }
      socket := -1;
      while true
        invariant Valid() && socket == -1
        invariant R.Settle(View(), false, c) == R.Settle(old(View()), waited, c)
        decreases inFlight
      {
        if !inFlight { socket := ScanSockets(); }
        if socket >= 0 { break; }
        if inFlight && deadline == 0 { inFlight := false; continue; }
        break;
      }
    }

    /** iaWorker from taking the lock, or from waking in the timed wait, to giving the lock up. */
    method WorkerRegion(waited: bool, c: R.Clock, a: R.Alloc) returns (o: R.Outcome)
      requires Valid()
      modifies this, pending, outstanding
      ensures Valid() && (View(), o) == R.WorkerRegion(old(View()), waited, c, a)
    {
      var socket := AwaitSocket(waited, c);
      if inFlight { return R.TimedWait; }
      if socket < 0 { return R.Idle; }
      var sleep := RateLimit(c.now);
      if sleep.Some? { return sleep.value; }
      o := Attempt(socket, c, a);
    }

    method RateLimit(now: Option<int>) returns (sleep: Option<R.Outcome>)
      requires Valid()
      ensures sleep == R.MustSleep(View(), now)
    {
      if now.None? { return Some(R.Sleep(None)); }
      if lastIssueValid {
        var earliest := lastIssue + R.MIN_INTERVAL_NS;
        if earliest > now.value && earliest != 0 { return Some(R.Sleep(Some(earliest))); }
      }
      return None;
    }

    method Attempt(socket: nat, c: R.Clock, a: R.Alloc) returns (o: R.Outcome)
      requires Valid() && socket < SIM_COUNT && cache[socket].Some?
      modifies this, pending, outstanding
      ensures Valid() && (View(), o) == R.TryIssue(old(View()), socket, c, a)
    {
      var token := ScanTokens();
      if token < 0 {
        pending[socket] := false;
        StampAttempt(c.recorded);
        return R.Rejected(socket);
      }
      var outgoing := R.CopyIa(cache[socket].value, a);
      if outgoing.None? {
        StampAttempt(c.recorded);
        return R.OutOfMemory(socket);
      }
      Reserve(socket, token, c);
      return R.Issued(socket, token, outgoing.value);
    }

    /** Publish a request: everything the lock protects changes here, before the vendor sees it. */
    method Reserve(socket: nat, token: nat, c: R.Clock)
      requires Valid() && socket < SIM_COUNT && token < R.TOKEN_SLOTS
      modifies this, pending, outstanding
      ensures Valid()
      ensures pending[..] == old(pending[..])[socket := false]
      ensures outstanding[..] == old(outstanding[..])[token := true]
      ensures inFlight && current == token && deadline == R.DeadlineFrom(c.issuedAt)
      ensures nextSocket == (socket + 1) % SIM_COUNT
      ensures lastIssueValid == c.recorded.Some? && (c.recorded.Some? ==> lastIssue == c.recorded.value)
    {
      pending[socket] := false;
      inFlight := true;
      current := token;
      outstanding[token] := true;
      deadline := if c.issuedAt.Some? then c.issuedAt.value + R.INFLIGHT_TIMEOUT_NS else 0;
      nextSocket := (socket + 1) % SIM_COUNT;
      StampAttempt(c.recorded);
    }
  }
}
