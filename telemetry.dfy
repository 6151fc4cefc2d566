/** The host figures sent to the browser every two seconds: the parsers over
    the remote commands' output, the uptime decomposition and the
    throughput rule. */
module Telemetry {
  import opened Wrappers
  import opened Strings

  /** JavaScript's `Math.trunc`. */
  function Trunc(x: real): int {
    if x >= 0.0 then x.Floor else -((-x).Floor)
  }

  /** JavaScript's `%` on numbers: the remainder takes the sign of `x`. */
  function JsMod(x: real, y: real): real
    requires y != 0.0
  {
    x - y * Trunc(x / y) as real
  }

  datatype Uptime = Uptime(days: int, hours: int, minutes: int, seconds: int)

  /** `formatUptime(seconds)` before formatting; `None` stands for `NaN`
      (the uptime command failed or printed no number). */
  function FormatUptime(seconds: Option<real>): Option<Uptime> {
    match seconds
    case None => None
    case Some(s) =>
      Some(Uptime((s / 86400.0).Floor,
                  (JsMod(s, 86400.0) / 3600.0).Floor,
                  (JsMod(s, 3600.0) / 60.0).Floor,
                  JsMod(s, 60.0).Floor))
  }

  /** Dividing a non-negative real and taking the floor is dividing its floor. */
  lemma FloorDiv(s: real, k: int)
    requires s >= 0.0 && k > 0
    ensures (s / k as real).Floor == s.Floor / k
    ensures JsMod(s, k as real).Floor == s.Floor % k
    ensures JsMod(s, k as real) >= 0.0
  {
    var n := s.Floor;
    var q := n / k;
    var kr := k as real;
    IntDivision(n, k);
    CastProduct(q, k);
    CastProduct(q + 1, k);
    DivBounds(s, kr, q as real, (q + 1) as real);
    assert (s / kr).Floor == q;
    assert Trunc(s / kr) == q;
    var m := JsMod(s, kr);
    assert m == s - kr * q as real;
    assert (n % k) as real <= m < (n % k) as real + 1.0;
  }

  lemma IntDivision(n: int, k: int)
    requires n >= 0 && k > 0
    ensures n == (n / k) * k + n % k && 0 <= n % k < k
    ensures (n / k) * k <= n < (n / k + 1) * k
  {
  }

  lemma CastProduct(a: int, b: int)
    ensures (a * b) as real == a as real * b as real
  {
  }

  /** `a * k <= s < b * k` places `s / k` between `a` and `b`. */
  lemma DivBounds(s: real, kr: real, a: real, b: real)
    requires kr > 0.0 && a * kr <= s < b * kr
    ensures a <= s / kr < b
  {
    var d := s / kr;
    assert d * kr == s;
    ScaleOrder(d, a, kr);
    ScaleOrder(d, b, kr);
  }

  lemma ScaleOrder(x: real, y: real, k: real)
    requires k > 0.0
    ensures x < y <==> x * k < y * k
  {
  }

  /** For a non-negative uptime the parts add back up to the whole seconds,
      with hours below 24 and minutes and seconds below 60. */
  lemma UptimeDecomposition(s: real)
    requires s >= 0.0
    ensures var u := FormatUptime(Some(s)).value;
      && u.days * 86400 + u.hours * 3600 + u.minutes * 60 + u.seconds == s.Floor
      && 0 <= u.days && 0 <= u.hours < 24 && 0 <= u.minutes < 60 && 0 <= u.seconds < 60
  {
    var n := s.Floor;
    var u := FormatUptime(Some(s)).value;
    FloorDiv(s, 86400);
    FloorDiv(s, 3600);
    FloorDiv(s, 60);
    FloorDiv(JsMod(s, 86400.0), 3600);
    FloorDiv(JsMod(s, 3600.0), 60);
    assert u.days == n / 86400;
    assert u.hours == (n % 86400) / 3600;
    assert u.minutes == (n % 3600) / 60;
    assert u.seconds == n % 60;
    ModDecomposition(n);
  }

  lemma ModDecomposition(n: int)
    requires n >= 0
    ensures (n / 86400) * 86400 + ((n % 86400) / 3600) * 3600 + ((n % 3600) / 60) * 60 + n % 60 == n
    ensures (n % 86400) / 3600 < 24 && (n % 3600) / 60 < 60
  {
    var d := n / 86400;
    var r := n % 86400;
    var h := r / 3600;
    var t := r % 3600;
    Remainder(n, 86400, d, r);
    Remainder(r, 3600, h, t);
    Remainder(n, 3600, d * 24 + h, t);
    var m := t / 60;
    Remainder(t, 60, m, t % 60);
    Remainder(n, 60, (n / 3600) * 60 + m, t % 60);
  }

  /** `q` and `m` are the quotient and remainder of `n` by the constant `k`. */
  lemma Remainder(n: int, k: int, q: int, m: int)
    requires k == 86400 || k == 3600 || k == 60
    requires n == q * k + m && 0 <= m < k
    ensures n / k == q && n % k == m
  {
    if k == 86400 {
      assert n / 86400 == q && n % 86400 == m;
    } else if k == 3600 {
      assert n / 3600 == q && n % 3600 == m;
    } else {
      assert n / 60 == q && n % 60 == m;
    }
  }

  /** The first line that starts with `prefix`, after trimming when `trimmed`
      (`lines.find(line => line.startsWith(prefix))`). */
  function FindLine(lines: seq<string>, prefix: string, trimmed: bool): (r: Option<string>)
    ensures r.Some? ==> r.value in lines && StartsWith(if trimmed then Trim(r.value) else r.value, prefix)
    decreases |lines|
  {
    if |lines| == 0 then None
    else if StartsWith(if trimmed then Trim(lines[0]) else lines[0], prefix) then Some(lines[0])
    else FindLine(lines[1..], prefix, trimmed)
  }

  predicate LineMatches(line: string, prefix: string, trimmed: bool) {
    StartsWith(if trimmed then Trim(line) else line, prefix)
  }

  /** `find` returns nothing exactly when no line matches. */
  lemma {:induction false} FindLineFirst(lines: seq<string>, prefix: string, trimmed: bool)
    ensures FindLine(lines, prefix, trimmed).None? <==>
      forall i :: 0 <= i < |lines| ==> !LineMatches(lines[i], prefix, trimmed)
    decreases |lines|
  {
    if |lines| > 0 {
      FindLineFirst(lines[1..], prefix, trimmed);
      assert forall i :: 1 <= i < |lines| ==> lines[i] == lines[1..][i - 1];
    }
  }

  /** What `find` returns is the first matching line: the lemma returns its
      index. */
  lemma {:induction false} FindLineIndex(lines: seq<string>, prefix: string, trimmed: bool) returns (i: nat)
    requires FindLine(lines, prefix, trimmed).Some?
    ensures i < |lines| && lines[i] == FindLine(lines, prefix, trimmed).value
    ensures LineMatches(lines[i], prefix, trimmed)
    ensures forall j :: 0 <= j < i ==> !LineMatches(lines[j], prefix, trimmed)
    decreases |lines|
  {
    if LineMatches(lines[0], prefix, trimmed) {
      i := 0;
    } else {
      var k := FindLineIndex(lines[1..], prefix, trimmed);
      i := k + 1;
      assert lines[i] == lines[1..][k];
      forall j | 1 <= j < i ensures !LineMatches(lines[j], prefix, trimmed) {
        assert lines[j] == lines[1..][j - 1];
      }
    }
  }

  /** What each remote command printed, already trimmed, or `""` when it failed. */
  datatype Outputs = Outputs(ip: string, cpuModel: string, cpuCores: string, uptime: string,
                             memInfo: string, osInfo: string, netInterface: string, netDev: string)

  /** The figures of one sample. `None` stands for `NaN` and, for the
      processor count, for `'N/A'`; the memory figures are in bytes. */
  datatype Stats = Stats(ip: string, osName: string, cpuModel: string, cpuCores: Option<int>,
                         uptime: Option<Uptime>, totalMem: Option<int>, freeMem: Option<int>,
                         rxBytes: Option<int>, txBytes: Option<int>, timestamp: int)

  /** `parseInt(line.split(/\s+/)[1], 10) * 1024`: the second field in kB. */
  function MemBytes(line: string): Option<int> {
    match Field(SplitSpaces(line), 1)
    case None => None
    case Some(kb) => Some(kb * 1024)
  }

  /** `parseInt(fields[i], 10)`, `NaN` when the field is missing. */
  function Field(fields: seq<string>, i: nat): Option<int> {
    if i < |fields| then ParseInt(fields[i]) else None
  }

  function RemoveQuotes(s: string): (r: string)
    ensures '"' !in r
    decreases |s|
  {
    if |s| == 0 then "" else (if s[0] == '"' then "" else [s[0]]) + RemoveQuotes(s[1..])
  }

  /** `line.split('=')[1].replace(/"/g, '')`: the text between the first and
      the second `=`, without double quotes. */
  function PrettyName(line: string): (r: string)
    requires StartsWith(line, "PRETTY_NAME=")
    ensures '"' !in r
  {
    assert line[11] == '=';
    RemoveQuotes(Split(line, '=')[1])
  }

  /** The `PRETTY_NAME=` value of `/etc/os-release`, or `N/A`. */
  function OsName(osInfo: string): string {
    var osLine := FindLine(Split(osInfo, '\n'), "PRETTY_NAME=", false);
    if osLine.Some? then PrettyName(osLine.value) else "N/A"
  }

  /** `netInterface + ':'` counters: received and sent bytes are fields 1 and
      9 of the trimmed line; both 0 unless the interface and the table are
      known and a line names the interface. */
  function NetCounters(netInterface: string, netDev: string): (Option<int>, Option<int>) {
    if netInterface != "" && netDev != "" then
      match FindLine(Split(netDev, '\n'), netInterface + ":", true)
      case None => (Some(0), Some(0))
      case Some(line) =>
        var fields := SplitSpaces(Trim(line));
        (Field(fields, 1), Field(fields, 9))
    else (Some(0), Some(0))
  }

  /** `getRemoteStats`: a missing memory line is a failure (the call throws);
      `uptimeSeconds` is `parseFloat` of the uptime output and `now` the clock. */
  function RemoteStats(o: Outputs, uptimeSeconds: Option<real>, now: int): Result<Stats, string> {
    var memLines := Split(o.memInfo, '\n');
    var totalLine := FindLine(memLines, "MemTotal:", false);
    var availLine := FindLine(memLines, "MemAvailable:", false);
    if totalLine.None? || availLine.None? then Failure("TypeError")
    else
      var (rx, tx) := NetCounters(o.netInterface, o.netDev);
      var cores := ParseInt(o.cpuCores);
      Success(Stats(
        if o.ip == "" then "N/A" else o.ip,
        OsName(o.osInfo),
        if o.cpuModel == "" then "N/A" else o.cpuModel,
        if cores.None? || cores == Some(0) then None else cores,
        FormatUptime(uptimeSeconds),
        MemBytes(totalLine.value),
        MemBytes(availLine.value),
        rx, tx, now))
  }

  /** The sample fails exactly when `/proc/meminfo` lacks a `MemTotal:` or a
      `MemAvailable:` line; a present line whose number does not parse gives
      `NaN`, not a failure. */
  lemma MissingMemoryLineFails(o: Outputs, uptimeSeconds: Option<real>, now: int)
    ensures var lines := Split(o.memInfo, '\n');
      RemoteStats(o, uptimeSeconds, now).Failure? <==>
        (forall i :: 0 <= i < |lines| ==> !StartsWith(lines[i], "MemTotal:"))
        || (forall i :: 0 <= i < |lines| ==> !StartsWith(lines[i], "MemAvailable:"))
  {
    var lines := Split(o.memInfo, '\n');
    StatsFailure(o, uptimeSeconds, now);
    FindLineFirst(lines, "MemTotal:", false);
    FindLineFirst(lines, "MemAvailable:", false);
  }

  lemma StatsFailure(o: Outputs, uptimeSeconds: Option<real>, now: int)
    ensures var lines := Split(o.memInfo, '\n');
      RemoteStats(o, uptimeSeconds, now).Failure? <==>
        FindLine(lines, "MemTotal:", false).None? || FindLine(lines, "MemAvailable:", false).None?
  {
  }

  /** The system name is `N/A` when no line starts with `PRETTY_NAME=`;
      otherwise it is the first such line's text between its first and
      second `=`, unquoted. */
  lemma OsNameRule(osInfo: string)
    ensures var lines := Split(osInfo, '\n');
      && ((forall i :: 0 <= i < |lines| ==> !StartsWith(lines[i], "PRETTY_NAME=")) ==> OsName(osInfo) == "N/A")
      && (FindLine(lines, "PRETTY_NAME=", false).Some? ==>
            OsName(osInfo) == PrettyName(FindLine(lines, "PRETTY_NAME=", false).value))
      && '"' !in OsName(osInfo)
  {
    FindLineFirst(Split(osInfo, '\n'), "PRETTY_NAME=", false);
  }

  /** The value kept is the part of `v` before its first `=`, with the
      double quotes dropped: a value that itself holds `=` is cut there. */
  lemma PrettyNameValue(v: string)
    ensures StartsWith("PRETTY_NAME=" + v, "PRETTY_NAME=")
    ensures PrettyName("PRETTY_NAME=" + v) == RemoveQuotes(Split(v, '=')[0])
  {
    var line := "PRETTY_NAME=" + v;
    assert line[..12] == "PRETTY_NAME=";
    assert line == "PRETTY_NAME" + ['='] + v;
    SplitAfterPiece("PRETTY_NAME", '=', v);
  }

  /** The counters are 0 unless the interface name and the table are
      non-empty and some trimmed line starts with `interface:`; then they
      are fields 1 and 9 of the first such line. */
  lemma NetCountersRule(netInterface: string, netDev: string)
    ensures var lines := Split(netDev, '\n');
      var prefix := netInterface + ":";
      (netInterface == "" || netDev == ""
       || forall i :: 0 <= i < |lines| ==> !StartsWith(Trim(lines[i]), prefix))
      ==> NetCounters(netInterface, netDev) == (Some(0), Some(0))
    ensures var lines := Split(netDev, '\n');
      var prefix := netInterface + ":";
      netInterface != "" && netDev != "" && FindLine(lines, prefix, true).Some? ==>
        var fields := SplitSpaces(Trim(FindLine(lines, prefix, true).value));
        NetCounters(netInterface, netDev) == (Field(fields, 1), Field(fields, 9))
  {
    FindLineFirst(Split(netDev, '\n'), netInterface + ":", true);
  }

  /** One counter's throughput `(cur - prev) / seconds`; `NaN` in gives `NaN` out. */
  function CounterRate(prev: Option<int>, cur: Option<int>, seconds: real): Option<real>
    requires seconds > 0.0
  {
    if prev.Some? && cur.Some? then Some((cur.value - prev.value) as real / seconds) else None
  }

  datatype Rates = Rates(rx: Option<real>, tx: Option<real>)

  /** The elapsed seconds between two samples. */
  function Elapsed(last: Stats, cur: Stats): real {
    (cur.timestamp - last.timestamp) as real / 1000.0
  }

  /** The rule of the telemetry tick: 0 without a previous sample or when no
      time has passed, the counter difference over the elapsed seconds otherwise. */
  function TickRates(last: Option<Stats>, cur: Stats): Rates {
    if last.None? then Rates(Some(0.0), Some(0.0))
    else
      var timeDiff := Elapsed(last.value, cur);
      if timeDiff > 0.0 then
        Rates(CounterRate(last.value.rxBytes, cur.rxBytes, timeDiff),
              CounterRate(last.value.txBytes, cur.txBytes, timeDiff))
      else Rates(Some(0.0), Some(0.0))
  }

  /** Rates are 0 exactly in the first tick and when the clock did not
      advance; otherwise rate times elapsed seconds gives back the counter
      difference. */
  lemma TickRatesRule(last: Option<Stats>, cur: Stats)
    ensures last.None? || cur.timestamp <= last.value.timestamp ==>
      TickRates(last, cur) == Rates(Some(0.0), Some(0.0))
    ensures last.Some? && cur.timestamp > last.value.timestamp ==>
      var dt := Elapsed(last.value, cur);
      var r := TickRates(last, cur);
      && dt > 0.0
      && (r.rx.Some? <==> last.value.rxBytes.Some? && cur.rxBytes.Some?)
      && (r.tx.Some? <==> last.value.txBytes.Some? && cur.txBytes.Some?)
      && (r.rx.Some? ==> r.rx.value * dt == (cur.rxBytes.value - last.value.rxBytes.value) as real)
      && (r.tx.Some? ==> r.tx.value * dt == (cur.txBytes.value - last.value.txBytes.value) as real)
  {
    if last.Some? {
      var dt := Elapsed(last.value, cur);
      assert cur.timestamp <= last.value.timestamp ==> dt <= 0.0;
      assert cur.timestamp > last.value.timestamp ==> dt > 0.0;
    }
  }

  /** Nothing keeps a rate non-negative: a counter that went down between
      two samples (a reset or a different interface) gives a negative rate. */
  lemma NegativeRate(last: Stats, cur: Stats)
    requires cur.timestamp > last.timestamp
    requires last.rxBytes.Some? && cur.rxBytes.Some? && cur.rxBytes.value < last.rxBytes.value
    ensures TickRates(Some(last), cur).rx.Some? && TickRates(Some(last), cur).rx.value < 0.0
  {
    var dt := Elapsed(last, cur);
    assert dt > 0.0;
    var d := (cur.rxBytes.value - last.rxBytes.value) as real;
    assert d < 0.0;
    assert d / dt < 0.0;
  }
}
