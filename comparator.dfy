/** The class `NetworkPingComparator`: its fields, the methods that update them,
    and the dict that `not_pingable` writes each network's failures into. Probing
    is an exit-code oracle (`Probe`) and the platform name a parameter; `run`'s two
    processes are modelled as two sequential calls, each on its own copy of the
    object. */
module Comparator {
  import opened PyStr
  import opened IPv4
  import opened Sweep

  /** The dict passed to `not_pingable` (a `Manager().dict()` when `run` creates it),
      keyed by network text. */
  class FailureTable {
    var entries: map<string, seq<Addr>>

    constructor ()
      ensures entries == map[]
    {
      entries := map[];
    }
  }

  class NetworkPingComparator {
    const networks: seq<Cidr>
    var excludedHost: Option<seq<string>>
    var hosts: Option<seq<Addr>>
    var pingFailures: FailureTable?

    constructor (network1: Cidr, network2: Cidr)
      ensures networks == [network1, network2]
      ensures excludedHost == None && hosts == None && pingFailures == null
    {
      networks := [network1, network2];
      excludedHost := None;
      hosts := None;
      pingFailures := null;
    }

    /** The copy of the object that a process started by `run` works on. */
    constructor Copy(other: NetworkPingComparator)
      ensures networks == other.networks && excludedHost == other.excludedHost
      ensures hosts == other.hosts && pingFailures == other.pingFailures
    {
      networks := other.networks;
      excludedHost := other.excludedHost;
      hosts := other.hosts;
      pingFailures := other.pingFailures;
    }

    /** `exclude_host`: replaces the exclusion list. */
    method ExcludeHost(excluded: seq<string>)
      modifies this`excludedHost
      ensures excludedHost == Some(excluded)
    {
      excludedHost := Some(excluded);
    }

    /** `__spawn_ping_procs`: the `procs` dict, as its keys in insertion order and
        the command line each key's process was started with. */
    method SpawnPingProcs(platform: string) returns (procs: seq<Addr>, argv: map<Addr, seq<string>>)
      requires hosts.Some?
      ensures procs == ProbeKeys(hosts.value, excludedHost)
      ensures forall h :: h in argv <==> h in procs
      ensures forall h :: h in argv ==> argv[h] == PingArgv(platform, Dotted(h))
    {
      procs, argv := [], map[];
      var hs := hosts.value;
      for i := 0 to |hs|
        invariant procs == ProbeKeys(hs[..i], excludedHost)
        invariant forall h :: h in argv <==> h in procs
        invariant forall h :: h in argv ==> argv[h] == PingArgv(platform, Dotted(h))
      {
        assert hs[..i + 1][..i] == hs[..i];
        var host := hs[i];
        if excludedHost.Some? && excludedHost.value != [] {
          if HostId(host) in excludedHost.value {
            continue;
          }
        }
        if host !in argv {
          procs := procs + [host];
        }
        argv := argv[host := PingArgv(platform, Dotted(host))];
      }
      assert hs[..|hs|] == hs;
    }

    /** `__ping_network`: probes the current host list and returns the hosts whose
        ping exited non-zero; `round` selects the oracle's answers. */
    method PingNetwork(platform: string, probe: Probe, round: nat) returns (failures: seq<Addr>)
      requires hosts.Some?
      ensures failures == Round(hosts.value, excludedHost, probe, round)
    {
      var procs, _ := SpawnPingProcs(platform);
      failures := Unresponsive(procs, probe, round);
      RoundIsPingNetwork(hosts.value, excludedHost, probe, round);
    }

    /** `not_pingable`: round 1 over the network's hosts, then up to
        `NUM_ATTEMPTS - 1` retries over the previous failures, stopping once none
        remain; the last failure list goes into `pingFailures[Key(network)]`.
        `ok` is false when `ip_network` would raise `ValueError`, and then nothing
        changes. */
    method NotPingable(network: Cidr, pingFailures: FailureTable, platform: string, probe: Probe) returns (ok: bool)
      modifies this`hosts, pingFailures
      ensures ok == ValidCidr(network)
      ensures ok ==> pingFailures.entries == old(pingFailures.entries)[Key(network) := SweepResult(network, excludedHost, probe, NUM_ATTEMPTS)]
      ensures ok ==> hosts == Some(LastProbed(network, excludedHost, probe, NUM_ATTEMPTS))
      ensures !ok ==> pingFailures.entries == old(pingFailures.entries) && hosts == old(hosts)
    {
      if !ValidCidr(network) {
        return false;
      }
      hosts := Some(Hosts(network));
      var failures := PingNetwork(platform, probe, 0);
      ghost var excl, spec := excludedHost, SweepTrace(network, excludedHost, probe, NUM_ATTEMPTS);
      ghost var trace, probed := [failures], Hosts(network);
      for attempt := 0 to NUM_ATTEMPTS - 1
        invariant excludedHost == excl && pingFailures.entries == old(pingFailures.entries)
        invariant trace != [] && failures == Last(trace)
        invariant trace + RetryRounds(failures, excl, probe, attempt + 1, Retries(NUM_ATTEMPTS) - attempt) == spec
        invariant hosts == Some(probed)
        invariant |trace| == 1 ==> probed == Hosts(network)
        invariant |trace| > 1 ==> probed == trace[|trace| - 2]
      {
        if failures == [] {
          break;
        }
        RetryStep(trace, failures, excl, probe, attempt + 1, Retries(NUM_ATTEMPTS) - attempt, spec);
        hosts := Some(failures);
        probed := failures;
        failures := PingNetwork(platform, probe, attempt + 1);
        trace := trace + [failures];
      }
      RetryDone(trace, failures, excl, probe, NUM_ATTEMPTS, Retries(NUM_ATTEMPTS) - (NUM_ATTEMPTS - 1), spec);
      pingFailures.entries := pingFailures.entries[Key(network) := failures];
      ok := true;
    }

    /** `run`: a fresh failure dict, then one sweep per network, each in a process
        that works on its own copy of this object. */
    method Run(platform: string, probe: Probe)
      modifies this`pingFailures
      ensures pingFailures != null && fresh(pingFailures)
      ensures pingFailures.entries == Swept(networks, excludedHost, probe)
    {
      var table := new FailureTable();
      pingFailures := table;
      for i := 0 to |networks|
        invariant pingFailures == table
        invariant table.entries == Swept(networks[..i], excludedHost, probe)
      {
        var child := new NetworkPingComparator.Copy(this);
        var _ := child.NotPingable(networks[i], table, platform, probe);
        assert networks[..i + 1][..i] == networks[..i];
      }
      assert networks[..|networks|] == networks;
    }

    /** `output` as written: with stored failures it returns the mismatch report
        (or the `KeyError` it raises); without, it runs the sweep and calls itself.
        The inner call's report is discarded, so the result is `None`; a `KeyError`
        the inner call raises propagates. */
    method Output(platform: string, probe: Probe) returns (r: Option<Outcome>)
      requires |networks| == 2
      modifies this`pingFailures
      ensures old(pingFailures) != null ==>
        pingFailures == old(pingFailures) && r == Some(Mismatch(networks[0], networks[1], pingFailures.entries))
      ensures old(pingFailures) == null ==>
        pingFailures != null && fresh(pingFailures) &&
        pingFailures.entries == Swept(networks, excludedHost, probe) &&
        r == (if Mismatch(networks[0], networks[1], pingFailures.entries).KeyError?
              then Some(Mismatch(networks[0], networks[1], pingFailures.entries)) else None)
      decreases if pingFailures == null then 1 else 0
    {
      if pingFailures != null {
        r := Some(Mismatch(networks[0], networks[1], pingFailures.entries));
      } else {
        Run(platform, probe);
        var inner := Output(platform, probe);
        r := if inner.Some? && inner.value.KeyError? then inner else None;
      }
    }

    /** `output` as its docstring and return type intend: without stored failures it runs the
        sweep first and then returns the report. */
    method OutputAfterRun(platform: string, probe: Probe) returns (r: Option<Outcome>)
      requires |networks| == 2
      modifies this`pingFailures
      ensures pingFailures != null
      ensures old(pingFailures) != null ==> pingFailures == old(pingFailures)
      ensures old(pingFailures) == null ==>
        fresh(pingFailures) && pingFailures.entries == Swept(networks, excludedHost, probe)
      ensures r == Some(Mismatch(networks[0], networks[1], pingFailures.entries))
      decreases if pingFailures == null then 1 else 0
    {
      if pingFailures != null {
        r := Some(Mismatch(networks[0], networks[1], pingFailures.entries));
      } else {
        Run(platform, probe);
        r := OutputAfterRun(platform, probe);
      }
    }
  }

  /** A comparator whose `output` is called before `run` returns `None`, not the
      report, once both networks have a stored result; when the first network's
      text is rejected, the `KeyError` for it propagates instead. */
  method OutputBeforeRun(n1: Cidr, n2: Cidr, platform: string, probe: Probe) returns (r: Option<Outcome>)
    ensures var o := Mismatch(n1, n2, Swept([n1, n2], None, probe)); r == (if o.KeyError? then Some(o) else None)
    ensures ValidCidr(n1) && ValidCidr(n2) ==> r == None
    ensures !ValidCidr(n1) && Key(n1) != Key(n2) ==> r == Some(KeyError(Key(n1)))
  {
    var c := new NetworkPingComparator(n1, n2);
    r := c.Output(platform, probe);
    SweptTwo(n1, n2, None, probe);
    if !ValidCidr(n1) && Key(n1) != Key(n2) {
      InvalidNetworkKeyError(n1, n2, None, probe);
    }
  }

  /** With the intended `output`, the same call returns the report over both
      networks' sweeps. */
  method OutputBeforeRunIntended(n1: Cidr, n2: Cidr, platform: string, probe: Probe) returns (r: Option<Outcome>)
    ensures r == Some(Mismatch(n1, n2, Swept([n1, n2], None, probe)))
  {
    var c := new NetworkPingComparator(n1, n2);
    r := c.OutputAfterRun(platform, probe);
  }
}
