/** The shared SSH connection behind every file operation, and the global
    SFTP session that its event handlers open and clear. */
module SftpSupervisor {
  import opened Wrappers

  /** The reconnect delay after the shared connection closes, in ms. */
  const ReconnectDelay: nat := 5000

  /** The events the shared client and its SFTP session deliver, in the
      order they arrive. `SftpCallback` is the answer to the `sftp()`
      request that `ready` issues: a session id, or `None` on error. */
  datatype Event =
    | Ready
    | SftpCallback(session: Option<nat>)
    | SftpEnd(ended: nat)
    | ConnError
    | ConnClose
    | TimerFired

  /** The events after which the global session is null. */
  predicate Clears(e: Event) {
    e.SftpEnd? || e.ConnError? || e == ConnClose
  }

  /** The global `sftp` after a sequence of events, starting from null: the
      last successful callback sets it, and every `end`, `error` or `close`
      nulls it, whichever session the `end` belongs to. */
  function SftpAfter(t: seq<Event>): Option<nat>
    decreases |t|
  {
    if |t| == 0 then None
    else
      var e := t[|t| - 1];
      if e.SftpCallback? && e.session.Some? then e.session
      else if Clears(e) then None
      else SftpAfter(t[..|t| - 1])
  }

  /** The number of `ready` events, hence of `sftp()` requests. */
  function Requests(t: seq<Event>): nat
    decreases |t|
  {
    if |t| == 0 then 0 else Requests(t[..|t| - 1]) + (if t[|t| - 1] == Ready then 1 else 0)
  }

  /** The number of `sftp()` callbacks. */
  function Answers(t: seq<Event>): nat
    decreases |t|
  {
    if |t| == 0 then 0 else Answers(t[..|t| - 1]) + (if t[|t| - 1].SftpCallback? then 1 else 0)
  }

  /** The number of `close` events, hence of reconnects scheduled. */
  function Closes(t: seq<Event>): nat
    decreases |t|
  {
    if |t| == 0 then 0 else Closes(t[..|t| - 1]) + (if t[|t| - 1] == ConnClose then 1 else 0)
  }

  /** The number of reconnect timers that fired. */
  function Fired(t: seq<Event>): nat
    decreases |t|
  {
    if |t| == 0 then 0 else Fired(t[..|t| - 1]) + (if t[|t| - 1] == TimerFired then 1 else 0)
  }

  /** A sequence of events that can occur: each callback answers an
      outstanding `sftp()` request, each timer was scheduled by a `close`. */
  predicate Possible(t: seq<Event>)
    decreases |t|
  {
    |t| == 0 ||
    (var p := t[..|t| - 1];
     && Possible(p)
     && (t[|t| - 1].SftpCallback? ==> Answers(p) < Requests(p))
     && (t[|t| - 1] == TimerFired ==> Fired(p) < Closes(p)))
  }

  lemma {:induction false} AnswersBounded(t: seq<Event>)
    requires Possible(t)
    ensures Answers(t) <= Requests(t) && Fired(t) <= Closes(t)
    decreases |t|
  {
    if |t| > 0 {
      AnswersBounded(t[..|t| - 1]);
    }
  }

  /** The session is non-null only after a `ready` followed by a successful
      callback carrying that session, with no `end`, `error` or `close` since. */
  lemma {:induction false} SessionNeedsReadyAndCallback(t: seq<Event>)
    requires Possible(t) && SftpAfter(t).Some?
    ensures exists i, j :: (0 <= i < j < |t| && t[i] == Ready && t[j] == SftpCallback(SftpAfter(t)) &&
                            forall k :: j < k < |t| ==> !Clears(t[k]))
    decreases |t|
  {
    var p := t[..|t| - 1];
    var e := t[|t| - 1];
    if e.SftpCallback? && e.session.Some? {
      var i := ReadyBefore(p);
      assert t[i] == p[i];
    } else {
      SessionNeedsReadyAndCallback(p);
      var i, j :| 0 <= i < j < |p| && p[i] == Ready && p[j] == SftpCallback(SftpAfter(p)) &&
        forall k :: j < k < |p| ==> !Clears(p[k]);
      assert t[i] == p[i] && t[j] == p[j];
      assert forall k :: j < k < |t| ==> !Clears(t[k]) by {
        forall k | j < k < |t| ensures !Clears(t[k]) {
          if k < |p| {
            assert t[k] == p[k];
          }
        }
      }
    }
  }

  /** An outstanding request means a `ready` occurred. */
  lemma {:induction false} ReadyBefore(t: seq<Event>) returns (i: nat)
    requires Requests(t) > 0
    ensures i < |t| && t[i] == Ready
    decreases |t|
  {
    var p := t[..|t| - 1];
    if t[|t| - 1] == Ready {
      i := |t| - 1;
    } else {
      i := ReadyBefore(p);
      assert t[i] == p[i];
    }
  }

  /** An `end` from a session that is no longer current still clears the
      current one: after a reconnect, the old session ending leaves the
      server without SFTP. */
  lemma StaleEndClearsNewSession()
    ensures var t := [Ready, SftpCallback(Some(1)), ConnClose, TimerFired, Ready, SftpCallback(Some(2)), SftpEnd(1)];
      Possible(t) && SftpAfter(t[..6]) == Some(2) && SftpAfter(t) == None
  {
    var t4 := FirstConnection();
    var t5 := t4 + [Ready];
    Append(t4, Ready);
    var t6 := t5 + [SftpCallback(Some(2))];
    Append(t5, SftpCallback(Some(2)));
    var t7 := t6 + [SftpEnd(1)];
    Append(t6, SftpEnd(1));
    var t := [Ready, SftpCallback(Some(1)), ConnClose, TimerFired, Ready, SftpCallback(Some(2)), SftpEnd(1)];
    assert t7 == t && t[..6] == t6;
  }

  /** The first connection: a session opened, the connection closed and the
      reconnect fired. */
  lemma FirstConnection() returns (t4: seq<Event>)
    ensures t4 == [Ready, SftpCallback(Some(1)), ConnClose, TimerFired]
    ensures Possible(t4) && SftpAfter(t4) == None
    ensures Requests(t4) == 1 && Answers(t4) == 1 && Closes(t4) == 1 && Fired(t4) == 1
  {
    var t0: seq<Event> := [];
    var t1 := t0 + [Ready];
    Append(t0, Ready);
    var t2 := t1 + [SftpCallback(Some(1))];
    Append(t1, SftpCallback(Some(1)));
    var t3 := t2 + [ConnClose];
    Append(t2, ConnClose);
    t4 := t3 + [TimerFired];
    Append(t3, TimerFired);
  }

  /** One more event: how each count and the session change. */
  lemma Append(t: seq<Event>, e: Event)
    ensures (t + [e])[..|t|] == t
    ensures Requests(t + [e]) == Requests(t) + (if e == Ready then 1 else 0)
    ensures Answers(t + [e]) == Answers(t) + (if e.SftpCallback? then 1 else 0)
    ensures Closes(t + [e]) == Closes(t) + (if e == ConnClose then 1 else 0)
    ensures Fired(t + [e]) == Fired(t) + (if e == TimerFired then 1 else 0)
    ensures Possible(t + [e]) <==>
      Possible(t) && (e.SftpCallback? ==> Answers(t) < Requests(t)) && (e == TimerFired ==> Fired(t) < Closes(t))
    ensures SftpAfter(t + [e]) ==
      if e.SftpCallback? && e.session.Some? then e.session else if Clears(e) then None else SftpAfter(t)
  {
    assert (t + [e])[..|t|] == t;
  }

  /** A failed `sftp()` callback, a second `ready` or a fired timer leave the
      session as it was. */
  lemma NeutralEvents(t: seq<Event>, e: Event)
    requires e == SftpCallback(None) || e == Ready || e == TimerFired
    ensures SftpAfter(t + [e]) == SftpAfter(t)
  {
    assert (t + [e])[..|t + [e]| - 1] == t;
  }

  /** The shared client's handlers: `sftp` here is the global the file
      handlers test, `timers` the reconnects scheduled and not yet fired. */
  class Supervisor {
    var sftp: Option<nat>
    var pendingRequests: nat
    var timers: seq<nat>
    /** How often `connect(sshConfig)` has been called. */
    var connects: nat
    ghost var trace: seq<Event>

    /** The state is the one the events so far produce: the session is
        `SftpAfter(trace)`, one timer of 5000 ms waits per unanswered
        `close`, and each fired timer has connected once more. */
    ghost predicate Valid()
      reads this
    {
      && Possible(trace)
      && sftp == SftpAfter(trace)
      && pendingRequests + Answers(trace) == Requests(trace)
      && |timers| + Fired(trace) == Closes(trace)
      && (forall i :: 0 <= i < |timers| ==> timers[i] == ReconnectDelay)
      && connects == 1 + Fired(trace)
    }

    /** Start-up: one `connect`, no session. */
    constructor()
      ensures Valid() && trace == [] && sftp.None? && connects == 1 && timers == []
    {
      sftp := None;
      pendingRequests := 0;
      timers := [];
      connects := 1;
      trace := [];
    }

    /** `ready`: request an SFTP session. */
    method OnReady()
      requires Valid()
      modifies this
      ensures Valid() && trace == old(trace) + [Ready]
      ensures sftp == old(sftp) && pendingRequests == old(pendingRequests) + 1
      ensures timers == old(timers) && connects == old(connects)
    {
      assert (trace + [Ready])[..|trace|] == trace;
      trace := trace + [Ready];
      pendingRequests := pendingRequests + 1;
    }

    /** The `sftp()` callback: a session becomes the global one; an error
        only logs. */
    method OnSftpCallback(session: Option<nat>)
      requires Valid() && pendingRequests > 0
      modifies this
      ensures Valid() && trace == old(trace) + [SftpCallback(session)]
      ensures sftp == (if session.Some? then session else old(sftp))
      ensures pendingRequests == old(pendingRequests) - 1
      ensures timers == old(timers) && connects == old(connects)
    {
      assert (trace + [SftpCallback(session)])[..|trace|] == trace;
      trace := trace + [SftpCallback(session)];
      pendingRequests := pendingRequests - 1;
      if session.Some? {
        sftp := session;
      }
    }

    /** A session's `end`: the global is nulled, whichever session ended. */
    method OnSftpEnd(session: nat)
      requires Valid()
      modifies this
      ensures Valid() && trace == old(trace) + [SftpEnd(session)]
      ensures sftp.None? && pendingRequests == old(pendingRequests)
      ensures timers == old(timers) && connects == old(connects)
    {
      assert (trace + [SftpEnd(session)])[..|trace|] == trace;
      trace := trace + [SftpEnd(session)];
      sftp := None;
    }

    /** The connection's `error`. */
    method OnError()
      requires Valid()
      modifies this
      ensures Valid() && trace == old(trace) + [ConnError]
      ensures sftp.None? && pendingRequests == old(pendingRequests)
      ensures timers == old(timers) && connects == old(connects)
    {
      assert (trace + [ConnError])[..|trace|] == trace;
      trace := trace + [ConnError];
      sftp := None;
    }

    /** The connection's `close`: null the session and schedule exactly one
        reconnect after 5000 ms. */
    method OnClose()
      requires Valid()
      modifies this
      ensures Valid() && trace == old(trace) + [ConnClose]
      ensures sftp.None? && pendingRequests == old(pendingRequests)
      ensures timers == old(timers) + [ReconnectDelay] && connects == old(connects)
    {
      assert (trace + [ConnClose])[..|trace|] == trace;
      trace := trace + [ConnClose];
      sftp := None;
      timers := timers + [ReconnectDelay];
    }

    /** The oldest scheduled reconnect fires and connects again. */
    method OnTimer()
      requires Valid() && |timers| > 0
      modifies this
      ensures Valid() && trace == old(trace) + [TimerFired]
      ensures sftp == old(sftp) && pendingRequests == old(pendingRequests)
      ensures timers == old(timers)[1..] && connects == old(connects) + 1
    {
      assert (trace + [TimerFired])[..|trace|] == trace;
      trace := trace + [TimerFired];
      timers := timers[1..];
      connects := connects + 1;
    }
  }
}
