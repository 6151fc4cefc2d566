/** One terminal session: the WebSocket frames routed to the shell, and the
    telemetry tick that samples the host every two seconds. */
module ShellBridge {
  import opened Wrappers
  import opened Strings
  import opened RemoteExec
  import opened Telemetry

  /** A parsed JSON value. `JSON.parse` itself is not modelled: each frame
      comes with the value it parses to, or `None` when parsing throws. */
  datatype Json =
    | JNull
    | JBool(b: bool)
    | JNum(n: real)
    | JStr(s: string)
    | JArr(items: seq<Json>)
    | JObj(fields: seq<(string, Json)>)

  /** `obj[key]`: a key given twice keeps its last value, as `JSON.parse` does. */
  function Property(fields: seq<(string, Json)>, key: string): (r: Option<Json>)
    ensures r.Some? ==> exists i :: 0 <= i < |fields| && fields[i] == (key, r.value)
    ensures r.None? <==> forall i :: 0 <= i < |fields| ==> fields[i].0 != key
    decreases |fields|
  {
    if |fields| == 0 then None
    else if fields[|fields| - 1].0 == key then Some(fields[|fields| - 1].1)
    else Property(fields[..|fields| - 1], key)
  }

  /** `parsedMsg.type === 'resize'`. Only an object has a `type` property;
      `null.type` throws and is caught like a parse error. */
  predicate IsResize(parsed: Option<Json>) {
    parsed.Some? && parsed.value.JObj? && Property(parsed.value.fields, "type") == Some(JStr("resize"))
  }

  /** What one inbound frame does to the shell. */
  datatype Action = SetWindow(rows: Option<Json>, cols: Option<Json>) | Write(data: string)

  /** The message handler: a resize request changes the window size and
      nothing reaches the shell; every other frame is written to it as is. */
  function Demux(data: string, parsed: Option<Json>): Action {
    if IsResize(parsed) then
      var fields := parsed.value.fields;
      SetWindow(Property(fields, "rows"), Property(fields, "cols"))
    else Write(data)
  }

  /** Exactly one of the two actions happens: the window changes exactly for
      a resize object, and otherwise the very bytes received are written. */
  lemma DemuxExactlyOne(data: string, parsed: Option<Json>)
    ensures Demux(data, parsed).SetWindow? <==> IsResize(parsed)
    ensures Demux(data, parsed).Write? <==> !IsResize(parsed)
    ensures Demux(data, parsed).Write? ==> Demux(data, parsed).data == data
    ensures IsResize(parsed) ==>
      Demux(data, parsed).rows == Property(parsed.value.fields, "rows")
      && Demux(data, parsed).cols == Property(parsed.value.fields, "cols")
  {
  }

  /** Text that is not JSON, and JSON that is not an object, always reaches
      the shell unchanged. */
  lemma KeystrokesPassThrough(data: string, parsed: Option<Json>)
    requires parsed.None? || !parsed.value.JObj?
    ensures Demux(data, parsed) == Write(data)
  {
  }

  /** An object whose `type` is anything but `"resize"` is typed into the
      shell like any other text. */
  lemma OtherTypesAreTyped(data: string, fields: seq<(string, Json)>, t: Json)
    requires Property(fields, "type") == Some(t) && t != JStr("resize")
    ensures Demux(data, Some(JObj(fields))) == Write(data)
  {
  }

  /** Pasting the text of a resize object into the terminal does not type it:
      the frame is taken as a resize and swallowed. */
  lemma PastedResizeIsSwallowed(data: string)
    ensures Demux(data, Some(JObj([("type", JStr("resize"))]))).SetWindow?
  {
    var fields := [("type", JStr("resize"))];
    assert fields[|fields| - 1].0 == "type";
  }

  /** The eight command results in the order `getRemoteStats` lists its
      commands, each failure turned into the empty string. */
  function Gather(runs: seq<Run>): (o: Outputs)
    requires |runs| == 8
    ensures o.ip == OutputOrEmpty(runs[0]) && o.cpuModel == OutputOrEmpty(runs[1])
    ensures o.cpuCores == OutputOrEmpty(runs[2]) && o.uptime == OutputOrEmpty(runs[3])
    ensures o.memInfo == OutputOrEmpty(runs[4]) && o.osInfo == OutputOrEmpty(runs[5])
    ensures o.netInterface == OutputOrEmpty(runs[6]) && o.netDev == OutputOrEmpty(runs[7])
  {
    Outputs(OutputOrEmpty(runs[0]), OutputOrEmpty(runs[1]), OutputOrEmpty(runs[2]),
            OutputOrEmpty(runs[3]), OutputOrEmpty(runs[4]), OutputOrEmpty(runs[5]),
            OutputOrEmpty(runs[6]), OutputOrEmpty(runs[7]))
  }

  /** A failed `cat /proc/meminfo` does not give zero memory: the empty text
      has no `MemTotal:` line, so the whole sample fails. */
  lemma FailedMemInfoFailsSample(runs: seq<Run>, uptimeSeconds: Option<real>, now: int)
    requires |runs| == 8 && CommandResult(runs[4]).Failure?
    ensures RemoteStats(Gather(runs), uptimeSeconds, now).Failure?
  {
    var o := Gather(runs);
    assert o.memInfo == "";
    assert Split(o.memInfo, '\n') == [""] by {
      assert Split("", '\n') == SplitNoSep("", '\n');
    }
    MissingMemoryLineFails(o, uptimeSeconds, now);
  }

  /** A failed network command leaves both counters at 0 rather than `NaN`. */
  lemma FailedNetCommandGivesZero(runs: seq<Run>, uptimeSeconds: Option<real>, now: int)
    requires |runs| == 8 && (CommandResult(runs[6]).Failure? || CommandResult(runs[7]).Failure?)
    requires RemoteStats(Gather(runs), uptimeSeconds, now).Success?
    ensures RemoteStats(Gather(runs), uptimeSeconds, now).value.rxBytes == Some(0)
    ensures RemoteStats(Gather(runs), uptimeSeconds, now).value.txBytes == Some(0)
  {
    var o := Gather(runs);
    NetCountersRule(o.netInterface, o.netDev);
  }

  /** What the server sends down the socket. */
  datatype Frame = ShellOutput(data: string) | StatsFrame(stats: Stats, rates: Rates) | ErrorText(message: string)

  /** The state of one WebSocket connection and its interactive SSH client. */
  class TerminalSession {
    /** The shell is open and the message handler is installed. */
    var shellReady: bool
    /** The two-second telemetry interval is running. */
    var ticking: bool
    var wsOpen: bool
    var sshDisconnected: bool
    var lastStats: Option<Stats>
    /** Everything written to the shell, and every window change, in order. */
    var written: seq<string>
    var windows: seq<(Option<Json>, Option<Json>)>
    /** Every frame sent to the browser, in order. */
    var sent: seq<Frame>

    /** The interval is only ever started by the shell handler. */
    ghost predicate Valid()
      reads this
    {
      ticking ==> shellReady
    }

    /** A new connection: nothing sent, no sample yet. */
    constructor()
      ensures Valid()
      ensures wsOpen && !shellReady && !ticking && !sshDisconnected
      ensures lastStats.None? && written == [] && windows == [] && sent == []
    {
      shellReady := false;
      ticking := false;
      wsOpen := true;
      sshDisconnected := false;
      lastStats := None;
      written := [];
      windows := [];
      sent := [];
    }

    /** The `shell` event: frames are now routed and the interval starts,
        whatever has happened to the socket meanwhile. */
    method OnShell()
      requires Valid() && !shellReady
      modifies this
      ensures Valid()
      ensures shellReady && ticking
      ensures wsOpen == old(wsOpen) && sshDisconnected == old(sshDisconnected)
      ensures lastStats == old(lastStats) && written == old(written)
      ensures windows == old(windows) && sent == old(sent)
    {
      shellReady := true;
      ticking := true;
    }

    /** Shell output is forwarded to the browser while the socket is open. */
    method OnShellData(data: string)
      requires Valid()
      modifies this
      ensures Valid()
      ensures sent == old(sent) + (if shellReady && wsOpen then [ShellOutput(data)] else [])
      ensures shellReady == old(shellReady) && ticking == old(ticking) && wsOpen == old(wsOpen)
      ensures sshDisconnected == old(sshDisconnected) && lastStats == old(lastStats)
      ensures written == old(written) && windows == old(windows)
    {
      if shellReady && wsOpen {
        sent := sent + [ShellOutput(data)];
      }
    }

    /** An inbound frame with what it parses to. Before the shell is up
        there is no handler and the frame is dropped. */
    method OnMessage(data: string, parsed: Option<Json>)
      requires Valid()
      modifies this
      ensures Valid()
      ensures var routed := shellReady && wsOpen;
        && written == old(written) + (if routed && Demux(data, parsed).Write? then [data] else [])
        && windows == old(windows) + (if routed && Demux(data, parsed).SetWindow?
                                      then [(Demux(data, parsed).rows, Demux(data, parsed).cols)] else [])
      ensures shellReady == old(shellReady) && ticking == old(ticking) && wsOpen == old(wsOpen)
      ensures sshDisconnected == old(sshDisconnected) && lastStats == old(lastStats) && sent == old(sent)
    {
      if shellReady && wsOpen {
        var action := Demux(data, parsed);
        match action
        case SetWindow(rows, cols) =>
          windows := windows + [(rows, cols)];
        case Write(d) =>
          written := written + [d];
      }
    }

    /** One tick of the interval with the sample it obtained: a failure
        forgets the previous sample; a success becomes the previous sample
        and, while the socket is open, is sent with the rates against the
        previous sample. */
    method Tick(sample: Result<Stats, string>)
      requires Valid()
      modifies this
      ensures Valid()
      ensures !old(ticking) ==> lastStats == old(lastStats) && sent == old(sent)
      ensures old(ticking) && sample.Failure? ==> lastStats.None? && sent == old(sent)
      ensures old(ticking) && sample.Success? ==>
        lastStats == Some(sample.value)
        && sent == old(sent) + (if wsOpen then [StatsFrame(sample.value, TickRates(old(lastStats), sample.value))] else [])
      ensures shellReady == old(shellReady) && ticking == old(ticking) && wsOpen == old(wsOpen)
      ensures sshDisconnected == old(sshDisconnected)
      ensures written == old(written) && windows == old(windows)
    {
      if ticking {
        match sample
        case Failure(_) =>
          lastStats := None;
        case Success(cur) =>
          var rates := TickRates(lastStats, cur);
          lastStats := Some(cur);
          if wsOpen {
            sent := sent + [StatsFrame(cur, rates)];
          }
      }
    }

    /** The socket's `close` event: the interval stops, if it was started,
        and SSH disconnects. */
    method OnWsClose()
      requires Valid()
      modifies this
      ensures Valid()
      ensures !wsOpen && !ticking && sshDisconnected
      ensures shellReady == old(shellReady) && lastStats == old(lastStats)
      ensures written == old(written) && windows == old(windows) && sent == old(sent)
    {
      wsOpen := false;
      ticking := false;
      sshDisconnected := true;
    }

    /** The shell closed: the server closes the socket, whose `close` event
        then runs. */
    method OnShellClose()
      requires Valid()
      modifies this
      ensures Valid()
      ensures !wsOpen && !ticking && sshDisconnected
      ensures shellReady == old(shellReady) && lastStats == old(lastStats)
      ensures written == old(written) && windows == old(windows) && sent == old(sent)
    {
      OnWsClose();
    }

    /** The SSH client's `error` event: the message goes to the browser if
        the socket is still open, then the socket is closed. */
    method OnSshError(message: string)
      requires Valid()
      modifies this
      ensures Valid()
      ensures !wsOpen && !ticking && sshDisconnected
      ensures sent == old(sent) + (if old(wsOpen) then [ErrorText(message)] else [])
      ensures shellReady == old(shellReady) && lastStats == old(lastStats)
      ensures written == old(written) && windows == old(windows)
    {
      if wsOpen {
        sent := sent + [ErrorText(message)];
      }
      OnWsClose();
    }
  }

  /** After a failed tick the next successful one reports zero rates, as if
      it were the first. */
  method FailureResetsRates(s: TerminalSession, failed: string, next: Stats)
    requires s.Valid() && s.ticking && s.wsOpen
    modifies s
    ensures s.sent == old(s.sent) + [StatsFrame(next, Rates(Some(0.0), Some(0.0)))]
  {
    s.Tick(Failure(failed));
    s.Tick(Success(next));
  }

  /** Two successful ticks in a row: the second reports the counter
      difference over the seconds between the two samples. */
  method ConsecutiveTicks(s: TerminalSession, first: Stats, second: Stats)
    requires s.Valid() && s.ticking && s.wsOpen
    requires second.timestamp > first.timestamp
    requires first.rxBytes.Some? && second.rxBytes.Some?
    modifies s
    ensures |s.sent| == |old(s.sent)| + 2 && s.sent[|s.sent| - 1].StatsFrame?
    ensures var r := s.sent[|s.sent| - 1].rates.rx;
      r.Some? && r.value * Elapsed(first, second) == (second.rxBytes.value - first.rxBytes.value) as real
  {
    s.Tick(Success(first));
    s.Tick(Success(second));
    TickRatesRule(Some(first), second);
  }

  /** A socket closed before the shell is ready finds no interval to stop;
      if the shell still opens, the interval it starts is never cleared. */
  method EarlyCloseLeavesInterval() returns (s: TerminalSession)
    ensures s.Valid() && !s.wsOpen && s.ticking
  {
    s := new TerminalSession();
    s.OnWsClose();
    s.OnShell();
  }
}
