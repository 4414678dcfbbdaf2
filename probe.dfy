/**
 * The probes of the latency monitor and the connection they share: the
 * package-level `conn` (nil, an open connection, or one `makeConnection` has
 * already closed) and the `errorLogged` flag that keeps a run of consecutive
 * failures from flooding the error log.  Every network call is replaced by its
 * outcome, given as an input.
 */
module Probe {

  datatype Conn = Nil | Open | Closed

  datatype DialResult = Dialled | DialFailed
  datatype WriteResult = Written | WriteFailed
  /** `buf.ReadString('\n')`: a line, end of stream (`io.EOF`, not an error here) or another error. */
  datatype ReadResult = LineRead | EndOfStream | ReadFailed

  /** The outcomes of the network calls one probe may make. */
  datatype Network = Network(dial: DialResult, auth: WriteResult, write: WriteResult, read: ReadResult)

  datatype ConnectError = DialError | AuthError
  /** `connectToRedis`: success, an error returned to the caller (reconnect), or process exit (first connect). */
  datatype ConnectResult = Connected | Returned(error: ConnectError) | Exit(error: ConnectError)

  /** What `log.Error` records. */
  datatype LogEntry = WriteErrorLogged | ReadErrorLogged | DialErrorLogged

  /** The options the probes consult: whether an error log is configured, and the AUTH password ("" for none). */
  datatype Settings = Settings(errorLog: bool, password: string)

  /** The probe state: `conn`, `errorLogged` and the entries written to the error log so far. */
  datatype ProbeState = ProbeState(conn: Conn, errorLogged: bool, log: seq<LogEntry>)

  /** A failed probe: log it once if configured and not yet logged, and drop the connection. */
  function Failure(settings: Settings, s: ProbeState, entry: LogEntry): (t: ProbeState)
    ensures t.conn == Nil
    ensures t.errorLogged == (s.errorLogged || settings.errorLog)
    ensures t.log == if settings.errorLog && !s.errorLogged then s.log + [entry] else s.log
  {
    if settings.errorLog && !s.errorLogged then ProbeState(Nil, true, s.log + [entry])
    else ProbeState(Nil, s.errorLogged, s.log)
  }

  /** `connectToRedis(reconnect)` as a transition on the probe state. */
  function ConnectStep(settings: Settings, s: ProbeState, reconnect: bool, net: Network): (r: (ProbeState, ConnectResult))
    ensures r.1 == Connected <==> net.dial.Dialled? && (settings.password == "" || net.auth.Written?)
    ensures r.1.Returned? ==> reconnect
    ensures r.1.Exit? ==> !reconnect
    ensures r.0.conn == (if net.dial.Dialled? then Open else Nil)
    ensures r.0.errorLogged == s.errorLogged && r.0.log == s.log
  {
    var s' := s.(conn := if net.dial.Dialled? then Open else Nil);
    if net.dial.DialFailed? then
      (s', if reconnect then Returned(DialError) else Exit(DialError))
    else if settings.password != "" && net.auth.WriteFailed? then
      (s', if reconnect then Returned(AuthError) else Exit(AuthError))
    else
      (s', Connected)
  }

  /** `execCommand`: reconnect when `conn` is nil, write PING, read one line; 0 on success, 1 on failure. */
  function ExecStep(settings: Settings, s: ProbeState, net: Network): (r: (ProbeState, nat))
    ensures r.1 == 0 || r.1 == 1
    ensures r.1 == 0 <==>
      (s.conn != Nil || ConnectStep(settings, s, true, net).1 == Connected) &&
      net.write.Written? && !net.read.ReadFailed?
    ensures s.conn == Nil && ConnectStep(settings, s, true, net).1 != Connected ==>
      r.1 == 1 && r.0 == ConnectStep(settings, s, true, net).0
    ensures s.conn != Nil || ConnectStep(settings, s, true, net).1 == Connected ==>
      (net.write.WriteFailed? || net.read.ReadFailed? ==> r.0.conn == Nil)
    ensures s.conn != Nil || ConnectStep(settings, s, true, net).1 == Connected ==>
      var s1 := if s.conn == Nil then ConnectStep(settings, s, true, net).0 else s;
      (net.write.WriteFailed? ==> r.0 == Failure(settings, s1, WriteErrorLogged)) &&
      (net.write.Written? && net.read.ReadFailed? ==> r.0 == Failure(settings, s1, ReadErrorLogged)) &&
      (r.1 == 0 ==> r.0 == s1.(errorLogged := false))
    ensures r.1 == 0 ==> !r.0.errorLogged && r.0.log == s.log && r.0.conn != Nil
    ensures r.1 == 1 ==> r.0.errorLogged == (s.errorLogged || (settings.errorLog && |r.0.log| > |s.log|))
    ensures r.0.log == s.log || (settings.errorLog && !s.errorLogged && r.1 == 1 && |r.0.log| == |s.log| + 1 && r.0.log[..|s.log|] == s.log)
  {
    var (s1, res) := if s.conn == Nil then ConnectStep(settings, s, true, net) else (s, Connected);
    if res != Connected then (s1, 1)
    else if net.write.WriteFailed? then (Failure(settings, s1, WriteErrorLogged), 1)
    else if net.read.ReadFailed? then (Failure(settings, s1, ReadErrorLogged), 1)
    else (s1.(errorLogged := false), 0)
  }

  /** `makeConnection`: dial and close at once; 0 on success, 1 on a dial error. */
  function MakeConnectionStep(settings: Settings, s: ProbeState, net: Network): (r: (ProbeState, nat))
    ensures r.1 == 0 || r.1 == 1
    ensures r.1 == 0 <==> net.dial.Dialled?
    ensures r.1 == 0 ==> r.0 == ProbeState(Closed, false, s.log)
    ensures r.1 == 1 ==> r.0 == Failure(settings, s, DialErrorLogged)
    ensures r.0.log == s.log || (settings.errorLog && !s.errorLogged && r.1 == 1 && r.0.log == s.log + [DialErrorLogged])
  {
    if net.dial.DialFailed? then (Failure(settings, s, DialErrorLogged), 1)
    else (ProbeState(Closed, false, s.log), 0)
  }

  /** One probe in the mode chosen by the `-c` option. */
  function ProbeStep(settings: Settings, connectMode: bool, s: ProbeState, net: Network): (r: (ProbeState, nat))
    ensures r.1 == 0 || r.1 == 1
    ensures r.1 == 0 ==> !r.0.errorLogged && r.0.log == s.log
    ensures r.1 == 1 ==> r.0.conn == Nil || (!connectMode && s.conn == Nil)
  {
    if connectMode then MakeConnectionStep(settings, s, net) else ExecStep(settings, s, net)
  }

  /** A run of probes: the final state and the 0/1 result of each probe. */
  function ProbeRun(settings: Settings, connectMode: bool, s: ProbeState, nets: seq<Network>): (r: (ProbeState, seq<nat>))
    ensures |r.1| == |nets|
    ensures forall i :: 0 <= i < |r.1| ==> r.1[i] == 0 || r.1[i] == 1
    decreases |nets|
  {
    if nets == [] then (s, [])
    else
      var (s1, x) := ProbeStep(settings, connectMode, s, nets[0]);
      var (s2, xs) := ProbeRun(settings, connectMode, s1, nets[1..]);
      (s2, [x] + xs)
  }

  /** Every probe of a run failed. */
  predicate AllFailed(results: seq<nat>) {
    forall i :: 0 <= i < |results| ==> results[i] == 1
  }

  /** Extending a run by one probe: the new probe starts from the state the run left. */
  lemma {:induction false} ProbeRunSnoc(settings: Settings, connectMode: bool, s: ProbeState, nets: seq<Network>, net: Network)
    ensures var r := ProbeRun(settings, connectMode, s, nets);
      var (t, x) := ProbeStep(settings, connectMode, r.0, net);
      ProbeRun(settings, connectMode, s, nets + [net]) == (t, r.1 + [x])
    decreases |nets|
  {
    if nets == [] {
      var (t, x) := ProbeStep(settings, connectMode, s, net);
      assert nets + [net] == [net] && [net][1..] == [];
      assert ProbeRun(settings, connectMode, s, [net]) == (t, [x] + []);
      assert [x] + [] == [] + [x];
    } else {
      assert (nets + [net])[0] == nets[0];
      assert (nets + [net])[1..] == nets[1..] + [net];
      var (s1, x) := ProbeStep(settings, connectMode, s, nets[0]);
      ProbeRunSnoc(settings, connectMode, s1, nets[1..], net);
      var r1 := ProbeRun(settings, connectMode, s1, nets[1..]);
      var r2 := ProbeRun(settings, connectMode, s1, nets[1..] + [net]);
      assert ProbeRun(settings, connectMode, s, nets) == (r1.0, [x] + r1.1);
      assert ProbeRun(settings, connectMode, s, nets + [net]) == (r2.0, [x] + r2.1);
      assert [x] + (r1.1 + [r2.1[|r2.1| - 1]]) == ([x] + r1.1) + [r2.1[|r2.1| - 1]];
    }
  }

  /** The `i`-th result of a run is that of probe `i`, made from the state the earlier probes left. */
  lemma {:induction false} ProbeRunEntry(settings: Settings, connectMode: bool, s: ProbeState, nets: seq<Network>, i: nat)
    requires i < |nets|
    ensures ProbeRun(settings, connectMode, s, nets).1[i] ==
      ProbeStep(settings, connectMode, ProbeRun(settings, connectMode, s, nets[..i]).0, nets[i]).1
    decreases i
  {
    var (s1, x) := ProbeStep(settings, connectMode, s, nets[0]);
    if i == 0 {
      assert nets[..0] == [];
    } else {
      ProbeRunEntry(settings, connectMode, s1, nets[1..], i - 1);
      assert nets[1..][..i - 1] == nets[..i][1..];
      assert nets[..i][0] == nets[0];
      assert nets[1..][i - 1] == nets[i];
    }
  }

  /** One probe never shrinks the log and adds at most one entry, only when an error log is configured and the flag is clear. */
  lemma ProbeStepLog(settings: Settings, connectMode: bool, s: ProbeState, net: Network)
    ensures var (t, x) := ProbeStep(settings, connectMode, s, net);
      (t.log == s.log || (settings.errorLog && !s.errorLogged && x == 1 && |t.log| == |s.log| + 1 && t.log[..|s.log|] == s.log)) &&
      (x == 0 ==> !t.errorLogged) &&
      (x == 1 && s.errorLogged ==> t.errorLogged) &&
      (x == 1 && |t.log| > |s.log| ==> t.errorLogged)
  {
  }

  /**
   * Log suppression: during a run of consecutive failures at most one entry is
   * written, none if the flag was already set when the run began, and the log
   * only ever grows.
   */
  lemma {:induction false} FailureRunLogsAtMostOnce(settings: Settings, connectMode: bool, s: ProbeState, nets: seq<Network>)
    requires AllFailed(ProbeRun(settings, connectMode, s, nets).1)
    ensures var t := ProbeRun(settings, connectMode, s, nets).0;
      |s.log| <= |t.log| <= |s.log| + 1 && t.log[..|s.log|] == s.log &&
      (s.errorLogged ==> t.log == s.log && t.errorLogged) &&
      (|t.log| > |s.log| ==> t.errorLogged)
    decreases |nets|
  {
    if nets != [] {
      var (s1, x) := ProbeStep(settings, connectMode, s, nets[0]);
      var r := ProbeRun(settings, connectMode, s1, nets[1..]);
      assert ProbeRun(settings, connectMode, s, nets) == (r.0, [x] + r.1);
      assert x == ([x] + r.1)[0] == 1;
      assert forall i :: 0 <= i < |r.1| ==> r.1[i] == ([x] + r.1)[i + 1];
      ProbeStepLog(settings, connectMode, s, nets[0]);
      FailureRunLogsAtMostOnce(settings, connectMode, s1, nets[1..]);
    }
  }

  /** A failed probe made on an open connection, or in connect mode, logs when the log is on and the flag is clear. */
  lemma FailureStepLogs(settings: Settings, connectMode: bool, s: ProbeState, net: Network)
    requires settings.errorLog && !s.errorLogged && (connectMode || s.conn != Nil)
    requires ProbeStep(settings, connectMode, s, net).1 == 1
    ensures var t := ProbeStep(settings, connectMode, s, net).0;
      t.errorLogged && |t.log| == |s.log| + 1 && t.log[..|s.log|] == s.log
  {
  }

  /**
   * The other half of log suppression: a run of consecutive failures that
   * starts with the flag clear, an error log configured and a probe that
   * reaches the server logs exactly once.
   */
  lemma FailureRunLogsOnce(settings: Settings, connectMode: bool, s: ProbeState, nets: seq<Network>)
    requires settings.errorLog && !s.errorLogged && (connectMode || s.conn != Nil)
    requires nets != [] && AllFailed(ProbeRun(settings, connectMode, s, nets).1)
    ensures var t := ProbeRun(settings, connectMode, s, nets).0;
      t.errorLogged && |t.log| == |s.log| + 1 && t.log[..|s.log|] == s.log
  {
    var (s1, x) := ProbeStep(settings, connectMode, s, nets[0]);
    var r := ProbeRun(settings, connectMode, s1, nets[1..]);
    assert ProbeRun(settings, connectMode, s, nets) == (r.0, [x] + r.1);
    assert x == ([x] + r.1)[0] == 1;
    assert forall i :: 0 <= i < |r.1| ==> r.1[i] == ([x] + r.1)[i + 1];
    FailureStepLogs(settings, connectMode, s, nets[0]);
    FailureRunLogsAtMostOnce(settings, connectMode, s1, nets[1..]);
    assert r.0.log[..|s.log|] == r.0.log[..|s1.log|][..|s.log|];
  }

  /** Without an error log nothing is ever logged, whatever the probes do. */
  lemma {:induction false} NoErrorLogNoEntries(settings: Settings, connectMode: bool, s: ProbeState, nets: seq<Network>)
    requires !settings.errorLog
    ensures ProbeRun(settings, connectMode, s, nets).0.log == s.log
    decreases |nets|
  {
    if nets != [] {
      var (s1, x) := ProbeStep(settings, connectMode, s, nets[0]);
      ProbeStepLog(settings, connectMode, s, nets[0]);
      NoErrorLogNoEntries(settings, connectMode, s1, nets[1..]);
    }
  }

  /**
   * The holder of the package-level `conn` and `errorLogged` variables and of
   * the error log.  Its methods are the source's functions; their contracts tie
   * each to the transition function above.
   */
  class Prober {
    const settings: Settings
    var conn: Conn
    var errorLogged: bool
    var log: seq<LogEntry>

    function State(): ProbeState
      reads this
    {
      ProbeState(conn, errorLogged, log)
    }

    constructor (settings: Settings)
      ensures this.settings == settings && State() == ProbeState(Nil, false, [])
    {
      this.settings := settings;
      conn, errorLogged, log := Nil, false, [];
    }

    /** `connectToRedis(reconnect)`: dial, then send AUTH when a password is set. */
    method ConnectToRedis(reconnect: bool, net: Network) returns (result: ConnectResult)
      modifies this
      ensures (State(), result) == ConnectStep(settings, old(State()), reconnect, net)
    {
      conn := if net.dial.Dialled? then Open else Nil;
      if net.dial.DialFailed? {
        return if reconnect then Returned(DialError) else Exit(DialError);
      }
      if settings.password != "" && net.auth.WriteFailed? {
        return if reconnect then Returned(AuthError) else Exit(AuthError);
      }
      return Connected;
    }

    /** A failed probe: logs `entry` unless logging is off or this failure run is already logged, then drops `conn`. */
    method Fail(entry: LogEntry)
      modifies this
      ensures State() == Failure(settings, old(State()), entry)
    {
      if settings.errorLog && !errorLogged {
        log := log + [entry];
        errorLogged := true;
      }
      conn := Nil;
    }

    /** `execCommand`. */
    method ExecCommand(net: Network) returns (failed: nat)
      modifies this
      ensures (State(), failed) == ExecStep(settings, old(State()), net)
    {
      if conn == Nil {
        var result := ConnectToRedis(true, net);
        if result != Connected {
          return 1;
        }
      }
      if net.write.WriteFailed? {
        Fail(WriteErrorLogged);
        return 1;
      }
      if net.read.ReadFailed? {
        Fail(ReadErrorLogged);
        return 1;
      }
      errorLogged := false;
      return 0;
    }

    /** `makeConnection`. */
    method MakeConnection(net: Network) returns (failed: nat)
      modifies this
      ensures (State(), failed) == MakeConnectionStep(settings, old(State()), net)
    {
      conn := if net.dial.Dialled? then Open else Nil;
      if net.dial.DialFailed? {
        Fail(DialErrorLogged);
        return 1;
      }
      conn := Closed;
      errorLogged := false;
      return 0;
    }
  }
}
