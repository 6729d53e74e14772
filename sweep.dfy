/** The sequential logic of `NetworkPingComparator` as functions: which hosts a
    round probes, which of them count as failures, how the retry rounds narrow the
    failure list, how the two networks' failures become the mismatch report, and
    the `ping` command line. The class in module Comparator is built on these. */
module Sweep {
  import opened PyStr
  import opened IPv4

  datatype Option<T> = None | Some(value: T)

  /** Class constants of `NetworkPingComparator`. */
  const NUM_PACKETS: nat := 1
  const NUM_ATTEMPTS: nat := 2
  const TIMEOUT: nat := 2

  /** Exit status of the ping process for a host in a given round (round 0 is the
      first); 0 means the host replied. */
  type Probe = (nat, Addr) -> int

  predicate Distinct<T(==)>(s: seq<T>) {
    forall i, j :: 0 <= i < j < |s| ==> s[i] != s[j]
  }

  function Last<T>(s: seq<T>): T
    requires s != []
  {
    s[|s| - 1]
  }

  // ---------------------------------------------------------------------------
  // Exclusion filter (`__spawn_ping_procs`)
  // ---------------------------------------------------------------------------

  /** A host is skipped when the exclusion list is set and non-empty (truthy) and
      holds the host's last dotted component. */
  predicate Skipped(h: Addr, excluded: Option<seq<string>>) {
    excluded.Some? && excluded.value != [] && HostId(h) in excluded.value
  }

  /** The keys of the `procs` dict after the loop of `__spawn_ping_procs`, in
      insertion order: each host that is not skipped, at its first occurrence. */
  function ProbeKeys(hosts: seq<Addr>, excluded: Option<seq<string>>): seq<Addr>
    decreases |hosts|
  {
    if hosts == [] then []
    else
      var procs := ProbeKeys(hosts[..|hosts| - 1], excluded);
      var h := hosts[|hosts| - 1];
      if Skipped(h, excluded) || h in procs then procs else procs + [h]
  }

  /** Reference filter: the hosts that are not skipped, in order, duplicates kept. */
  function Kept(hosts: seq<Addr>, excluded: Option<seq<string>>): seq<Addr>
    decreases |hosts|
  {
    if hosts == [] then []
    else
      var h := hosts[|hosts| - 1];
      Kept(hosts[..|hosts| - 1], excluded) + (if Skipped(h, excluded) then [] else [h])
  }

  /** The probed hosts are exactly the hosts that are not skipped, each once, and
      they keep the order of an ascending host list. */
  lemma {:induction false} ProbeKeysSpec(hosts: seq<Addr>, excluded: Option<seq<string>>)
    ensures forall h :: h in ProbeKeys(hosts, excluded) <==> h in hosts && !Skipped(h, excluded)
    ensures Distinct(ProbeKeys(hosts, excluded))
    ensures Ascending(hosts) ==> Ascending(ProbeKeys(hosts, excluded))
    decreases |hosts|
  {
    if hosts != [] {
      var init, h := hosts[..|hosts| - 1], hosts[|hosts| - 1];
      assert hosts == init + [h];
      ProbeKeysSpec(init, excluded);
      var procs := ProbeKeys(init, excluded);
      if !(Skipped(h, excluded) || h in procs) {
        AppendFresh(procs, h);
      }
      if Ascending(hosts) {
        ProbeKeysAscending(hosts, excluded);
      }
    }
  }

  /** Appending an element not yet present keeps a sequence duplicate-free. */
  lemma AppendFresh(s: seq<Addr>, h: Addr)
    requires Distinct(s) && h !in s
    ensures Distinct(s + [h])
  {
    var q := s + [h];
    forall i, j | 0 <= i < j < |q| ensures q[i] != q[j] {
      if j < |s| {
        assert q[i] == s[i] && q[j] == s[j];
      } else {
        assert q[i] == s[i];
      }
    }
  }

  /** An ascending host list gives ascending dict keys. */
  lemma {:induction false} ProbeKeysAscending(hosts: seq<Addr>, excluded: Option<seq<string>>)
    requires Ascending(hosts)
    ensures Ascending(ProbeKeys(hosts, excluded))
    ensures forall x :: x in ProbeKeys(hosts, excluded) ==> x in hosts
    decreases |hosts|
  {
    if hosts != [] {
      var init, h := hosts[..|hosts| - 1], hosts[|hosts| - 1];
      assert hosts == init + [h];
      assert Ascending(init) by {
        forall i, j | 0 <= i < j < |init| ensures init[i] < init[j] {
          assert init[i] == hosts[i] && init[j] == hosts[j];
        }
      }
      ProbeKeysAscending(init, excluded);
      var procs := ProbeKeys(init, excluded);
      if !(Skipped(h, excluded) || h in procs) {
        forall x | x in procs ensures x < h {
          var i :| 0 <= i < |init| && init[i] == x;
          assert hosts[i] == x;
        }
        var q := procs + [h];
        forall i, j | 0 <= i < j < |q| ensures q[i] < q[j] {
          if j == |q| - 1 {
            assert q[i] == procs[i] && q[i] in procs && q[j] == h;
          } else {
            assert q[i] == procs[i] && q[j] == procs[j];
          }
        }
      }
    }
  }

  /** On a list without duplicates (such as a network's hosts) the dict keys are
      the plain filter, and with an empty or unset exclusion list every host is
      probed. */
  lemma {:induction false} ProbeKeysIsFilter(hosts: seq<Addr>, excluded: Option<seq<string>>)
    requires Distinct(hosts)
    ensures ProbeKeys(hosts, excluded) == Kept(hosts, excluded)
    ensures (excluded == None || excluded == Some([])) ==> ProbeKeys(hosts, excluded) == hosts
    decreases |hosts|
  {
    if hosts != [] {
      var init, h := hosts[..|hosts| - 1], hosts[|hosts| - 1];
      assert hosts == init + [h];
      assert Distinct(init) by {
        forall i, j | 0 <= i < j < |init| ensures init[i] != init[j] {
          assert init[i] == hosts[i] && init[j] == hosts[j];
        }
      }
      assert h !in init by {
        forall i | 0 <= i < |init| ensures init[i] != h {
          assert init[i] == hosts[i];
        }
      }
      ProbeKeysIsFilter(init, excluded);
      ProbeKeysSpec(init, excluded);
    }
    if excluded == None || excluded == Some([]) {
      KeptAllKept(hosts, excluded);
    }
  }

  // ---------------------------------------------------------------------------
  // Failure collection (`__ping_network`)
  // ---------------------------------------------------------------------------

  /** The probed hosts whose exit code in round `r` is non-zero, in probe order. */
  function Unresponsive(procs: seq<Addr>, probe: Probe, r: nat): seq<Addr>
    decreases |procs|
  {
    if procs == [] then []
    else
      var h := procs[|procs| - 1];
      Unresponsive(procs[..|procs| - 1], probe, r) + (if probe(r, h) != 0 then [h] else [])
  }

  /** The failures are exactly the probed hosts with a non-zero exit code; all
      replying gives `[]`, none replying gives every probed host. */
  lemma {:induction false} UnresponsiveSpec(procs: seq<Addr>, probe: Probe, r: nat)
    ensures forall h :: h in Unresponsive(procs, probe, r) <==> h in procs && probe(r, h) != 0
    ensures (forall h :: h in procs ==> probe(r, h) == 0) ==> Unresponsive(procs, probe, r) == []
    ensures (forall h :: h in procs ==> probe(r, h) != 0) ==> Unresponsive(procs, probe, r) == procs
    decreases |procs|
  {
    if procs != [] {
      var init := procs[..|procs| - 1];
      assert procs == init + [procs[|procs| - 1]];
      UnresponsiveSpec(init, probe, r);
    }
  }

  /** The failures keep the probe order: ascending and duplicate-free probe lists
      give ascending and duplicate-free failure lists. */
  lemma UnresponsiveOrder(procs: seq<Addr>, probe: Probe, r: nat)
    ensures Ascending(procs) ==> Ascending(Unresponsive(procs, probe, r))
    ensures Distinct(procs) ==> Distinct(Unresponsive(procs, probe, r))
  {
    if Ascending(procs) {
      UnresponsiveAscending(procs, probe, r);
    }
    if Distinct(procs) {
      UnresponsiveDistinct(procs, probe, r);
    }
  }

  lemma {:induction false} UnresponsiveAscending(procs: seq<Addr>, probe: Probe, r: nat)
    requires Ascending(procs)
    ensures Ascending(Unresponsive(procs, probe, r))
    decreases |procs|
  {
    if procs != [] {
      var init, h := procs[..|procs| - 1], procs[|procs| - 1];
      AscendingInit(procs, init);
      UnresponsiveAscending(init, probe, r);
      UnresponsiveSpec(init, probe, r);
      AscendingSnoc(Unresponsive(init, probe, r), h, probe(r, h) != 0);
    }
  }

  /** Dropping the last element keeps a sequence ascending, and every earlier
      element is below the last. */
  lemma AscendingInit(s: seq<Addr>, init: seq<Addr>)
    requires Ascending(s) && s != [] && init == s[..|s| - 1]
    ensures Ascending(init)
    ensures forall x :: x in init ==> x < s[|s| - 1]
  {
    forall i, j | 0 <= i < j < |init| ensures init[i] < init[j] {
      assert init[i] == s[i] && init[j] == s[j];
    }
    forall x | x in init ensures x < s[|s| - 1] {
      var i :| 0 <= i < |init| && init[i] == x;
      assert s[i] == x;
    }
  }

  /** Appending (or not) an element above all others keeps a sequence ascending. */
  lemma AscendingSnoc(u: seq<Addr>, h: Addr, b: bool)
    requires Ascending(u) && forall x :: x in u ==> x < h
    ensures Ascending(u + (if b then [h] else []))
  {
    if b {
      var q := u + [h];
      forall i, j | 0 <= i < j < |q| ensures q[i] < q[j] {
        if j < |u| {
          assert q[i] == u[i] && q[j] == u[j];
        } else {
          assert q[i] == u[i] && u[i] in u && q[j] == h;
        }
      }
    } else {
      assert u + [] == u;
    }
  }

  lemma {:induction false} UnresponsiveDistinct(procs: seq<Addr>, probe: Probe, r: nat)
    requires Distinct(procs)
    ensures Distinct(Unresponsive(procs, probe, r))
    decreases |procs|
  {
    if procs != [] {
      var init, h := procs[..|procs| - 1], procs[|procs| - 1];
      assert procs == init + [h];
      assert h !in init by {
        forall i | 0 <= i < |init| ensures init[i] != h {
          assert init[i] == procs[i];
        }
      }
      assert Distinct(init) by {
        forall i, j | 0 <= i < j < |init| ensures init[i] != init[j] {
          assert init[i] == procs[i] && init[j] == procs[j];
        }
      }
      UnresponsiveDistinct(init, probe, r);
      UnresponsiveSpec(init, probe, r);
      var u := Unresponsive(init, probe, r);
      var tail: seq<Addr> := if probe(r, h) != 0 then [h] else [];
      assert Unresponsive(procs, probe, r) == u + tail;
      UnionDistinct(u, tail);
    }
  }

  lemma UnionDistinct<T>(a: seq<T>, b: seq<T>)
    requires Distinct(a) && Distinct(b)
    requires forall x :: x in a ==> x !in b
    ensures Distinct(a + b)
  {
    var q := a + b;
    forall i, j | 0 <= i < j < |q| ensures q[i] != q[j] {
      if j < |a| {
        assert q[i] == a[i] && q[j] == a[j];
      } else if i >= |a| {
        assert q[i] == b[i - |a|] && q[j] == b[j - |a|];
      } else {
        assert q[i] in a && q[j] in b;
      }
    }
  }

  /** One call of `__ping_network` on the current host list, in a single pass: a
      host is kept when it is not skipped, not met before and fails round `r`. */
  function Round(hosts: seq<Addr>, excluded: Option<seq<string>>, probe: Probe, r: nat): seq<Addr>
    decreases |hosts|
  {
    if hosts == [] then []
    else
      var init, h := hosts[..|hosts| - 1], hosts[|hosts| - 1];
      var f := Round(init, excluded, probe, r);
      if Skipped(h, excluded) || h in init || probe(r, h) == 0 then f else f + [h]
  }

  /** The single pass is what `__ping_network` computes: the failing hosts among
      the keys `__spawn_ping_procs` started processes for. */
  lemma {:induction false} RoundIsPingNetwork(hosts: seq<Addr>, excluded: Option<seq<string>>, probe: Probe, r: nat)
    ensures Round(hosts, excluded, probe, r) == Unresponsive(ProbeKeys(hosts, excluded), probe, r)
    decreases |hosts|
  {
    if hosts != [] {
      var init, h := hosts[..|hosts| - 1], hosts[|hosts| - 1];
      RoundIsPingNetwork(init, excluded, probe, r);
      ProbeKeysSpec(init, excluded);
      var p := ProbeKeys(init, excluded);
      if !(Skipped(h, excluded) || h in p) {
        assert (p + [h])[..|p|] == p;
        assert h !in init;
      }
    }
  }

  /** A round keeps only hosts it was given and did not skip, without duplicates,
      and in ascending order when its input was ascending. */
  lemma RoundNarrows(hosts: seq<Addr>, excluded: Option<seq<string>>, probe: Probe, r: nat)
    ensures forall h :: h in Round(hosts, excluded, probe, r) ==> h in hosts && !Skipped(h, excluded) && probe(r, h) != 0
    ensures Distinct(Round(hosts, excluded, probe, r))
    ensures Ascending(hosts) ==> Ascending(Round(hosts, excluded, probe, r))
  {
    RoundIsPingNetwork(hosts, excluded, probe, r);
    ProbeKeysSpec(hosts, excluded);
    UnresponsiveSpec(ProbeKeys(hosts, excluded), probe, r);
    UnresponsiveOrder(ProbeKeys(hosts, excluded), probe, r);
  }

  // ---------------------------------------------------------------------------
  // Narrowing retry loop (`not_pingable`)
  // ---------------------------------------------------------------------------

  /** The iterations of `for _ in range(attempts - 1)`. */
  function Retries(attempts: nat): nat {
    if attempts == 0 then 0 else attempts - 1
  }

  /** The failure lists of the retry rounds the loop still runs, starting from round
      `r` with `remaining` iterations left and `failures` from the round before. */
  function RetryRounds(failures: seq<Addr>, excluded: Option<seq<string>>, probe: Probe, r: nat, remaining: nat): seq<seq<Addr>>
    decreases remaining
  {
    if remaining == 0 || failures == [] then []
    else
      var next := Round(failures, excluded, probe, r);
      [next] + RetryRounds(next, excluded, probe, r + 1, remaining - 1)
  }

  /** One more iteration of the retry loop: when the rounds run so far followed by
      the rounds still to come make up `spec`, re-probing a non-empty failure list
      in round `r` keeps that so. */
  lemma RetryStep(trace: seq<seq<Addr>>, failures: seq<Addr>, excluded: Option<seq<string>>, probe: Probe, r: nat, remaining: nat, spec: seq<seq<Addr>>)
    requires remaining > 0 && failures != []
    requires trace + RetryRounds(failures, excluded, probe, r, remaining) == spec
    ensures var next := Round(failures, excluded, probe, r);
      (trace + [next]) + RetryRounds(next, excluded, probe, r + 1, remaining - 1) == spec
  {
    var next := Round(failures, excluded, probe, r);
    assert RetryRounds(failures, excluded, probe, r, remaining) == [next] + RetryRounds(next, excluded, probe, r + 1, remaining - 1);
  }

  /** The retry loop has run every round once no iteration is left or the last
      round had no failures. */
  lemma RetryDone(trace: seq<seq<Addr>>, failures: seq<Addr>, excluded: Option<seq<string>>, probe: Probe, r: nat, remaining: nat, spec: seq<seq<Addr>>)
    requires remaining == 0 || failures == []
    requires trace + RetryRounds(failures, excluded, probe, r, remaining) == spec
    ensures trace == spec
  {
    assert RetryRounds(failures, excluded, probe, r, remaining) == [];
  }

  /** The failure list of every round `not_pingable` runs on `net`, first round first. */
  function SweepTrace(net: Cidr, excluded: Option<seq<string>>, probe: Probe, attempts: nat): (t: seq<seq<Addr>>)
    requires ValidCidr(net)
    ensures t != []
  {
    var first := Round(Hosts(net), excluded, probe, 0);
    [first] + RetryRounds(first, excluded, probe, 1, Retries(attempts))
  }

  /** What `not_pingable` stores for `net`: the last round's failures. */
  function SweepResult(net: Cidr, excluded: Option<seq<string>>, probe: Probe, attempts: nat): seq<Addr>
    requires ValidCidr(net)
  {
    Last(SweepTrace(net, excluded, probe, attempts))
  }

  /** The retry loop runs at most `remaining` more rounds, and it stops early only
      after a round without failures. */
  lemma {:induction false} RetryRoundsLength(failures: seq<Addr>, excluded: Option<seq<string>>, probe: Probe, r: nat, remaining: nat)
    ensures |RetryRounds(failures, excluded, probe, r, remaining)| <= remaining
    ensures |RetryRounds(failures, excluded, probe, r, remaining)| < remaining ==>
      ([failures] + RetryRounds(failures, excluded, probe, r, remaining))[|RetryRounds(failures, excluded, probe, r, remaining)|] == []
    decreases remaining
  {
    if remaining > 0 && failures != [] {
      var next := Round(failures, excluded, probe, r);
      RetryRoundsLength(next, excluded, probe, r + 1, remaining - 1);
      var rest := RetryRounds(next, excluded, probe, r + 1, remaining - 1);
      var t := [next] + rest;
      assert RetryRounds(failures, excluded, probe, r, remaining) == t;
      assert ([failures] + t)[|t|] == ([next] + rest)[|rest|];
    }
  }

  /** Each retry round re-probes the non-empty failures of the round before it. */
  lemma {:induction false} RetryRoundsLinks(failures: seq<Addr>, excluded: Option<seq<string>>, probe: Probe, r: nat, remaining: nat)
    ensures RetryRounds(failures, excluded, probe, r, remaining) != [] ==>
      failures != [] && RetryRounds(failures, excluded, probe, r, remaining)[0] == Round(failures, excluded, probe, r)
    ensures forall i :: 0 <= i < |RetryRounds(failures, excluded, probe, r, remaining)| - 1 ==>
      RetryRounds(failures, excluded, probe, r, remaining)[i] != [] &&
      RetryRounds(failures, excluded, probe, r, remaining)[i + 1] == Round(RetryRounds(failures, excluded, probe, r, remaining)[i], excluded, probe, r + i + 1)
    decreases remaining
  {
    if remaining > 0 && failures != [] {
      var next := Round(failures, excluded, probe, r);
      RetryRoundsLinks(next, excluded, probe, r + 1, remaining - 1);
      var rest := RetryRounds(next, excluded, probe, r + 1, remaining - 1);
      var t := [next] + rest;
      assert RetryRounds(failures, excluded, probe, r, remaining) == t;
      forall i | 0 <= i < |t| - 1 ensures t[i] != [] && t[i + 1] == Round(t[i], excluded, probe, r + i + 1) {
        if i > 0 {
          assert t[i] == rest[i - 1] && t[i + 1] == rest[i];
        }
      }
    }
  }

  /** The round structure of `not_pingable`: at least one and at most `attempts`
      rounds run (one when `attempts` is 0); the first round probes every host of
      the network; each later round re-probes exactly the previous round's non-empty
      failure list; and fewer rounds than allowed run only when the last round had
      no failures. */
  lemma SweepTraceShape(net: Cidr, excluded: Option<seq<string>>, probe: Probe, attempts: nat)
    requires ValidCidr(net)
    ensures var t := SweepTrace(net, excluded, probe, attempts);
      1 <= |t| <= Retries(attempts) + 1
    ensures SweepTrace(net, excluded, probe, attempts)[0] == Round(Hosts(net), excluded, probe, 0)
    ensures var t := SweepTrace(net, excluded, probe, attempts);
      forall i :: 0 <= i < |t| - 1 ==> t[i] != [] && t[i + 1] == Round(t[i], excluded, probe, i + 1)
    ensures var t := SweepTrace(net, excluded, probe, attempts);
      |t| < Retries(attempts) + 1 ==> Last(t) == []
  {
    RoundsAfter(Round(Hosts(net), excluded, probe, 0), excluded, probe, Retries(attempts));
  }

  /** A first round's failures followed by the retry rounds: at most `remaining`
      more rounds, each re-probing the previous non-empty failures, and an early
      stop only after an empty round. */
  lemma RoundsAfter(first: seq<Addr>, excluded: Option<seq<string>>, probe: Probe, remaining: nat)
    ensures var t := [first] + RetryRounds(first, excluded, probe, 1, remaining);
      |t| <= remaining + 1 &&
      (forall i :: 0 <= i < |t| - 1 ==> t[i] != [] && t[i + 1] == Round(t[i], excluded, probe, i + 1)) &&
      (|t| < remaining + 1 ==> Last(t) == [])
  {
    var rest := RetryRounds(first, excluded, probe, 1, remaining);
    RetryRoundsLength(first, excluded, probe, 1, remaining);
    RetryRoundsLinks(first, excluded, probe, 1, remaining);
    var t := [first] + rest;
    forall i | 0 <= i < |t| - 1 ensures t[i] != [] && t[i + 1] == Round(t[i], excluded, probe, i + 1) {
      if i > 0 {
        assert t[i] == rest[i - 1] && t[i + 1] == rest[i];
      }
    }
  }

  /** The host list of the last round that ran, which `not_pingable` leaves in
      `self.hosts`: the network's hosts after one round, else the failures of the
      round before the last. */
  function LastProbed(net: Cidr, excluded: Option<seq<string>>, probe: Probe, attempts: nat): seq<Addr>
    requires ValidCidr(net)
  {
    var t := SweepTrace(net, excluded, probe, attempts);
    if |t| == 1 then Hosts(net) else t[|t| - 2]
  }

  /** The stored result is the last round run on the last probed host list. */
  lemma LastRoundOfLastProbed(net: Cidr, excluded: Option<seq<string>>, probe: Probe, attempts: nat)
    requires ValidCidr(net)
    ensures var t := SweepTrace(net, excluded, probe, attempts);
      SweepResult(net, excluded, probe, attempts) == Round(LastProbed(net, excluded, probe, attempts), excluded, probe, |t| - 1)
  {
    SweepTraceShape(net, excluded, probe, attempts);
  }

  /** Later rounds narrow: each round's failures are contained in every earlier
      round's and in the network's hosts, are never skipped hosts, hold no
      duplicates and stay in ascending order; so the stored result is contained in
      every round's failure list. */
  lemma SweepNarrows(net: Cidr, excluded: Option<seq<string>>, probe: Probe, attempts: nat)
    requires ValidCidr(net)
    ensures var t := SweepTrace(net, excluded, probe, attempts);
      forall i :: 0 <= i < |t| ==>
        Ascending(t[i]) && Distinct(t[i]) &&
        forall h :: h in t[i] ==> h in Hosts(net) && !Skipped(h, excluded)
    ensures var t := SweepTrace(net, excluded, probe, attempts);
      forall i, j :: 0 <= i <= j < |t| ==> forall h :: h in t[j] ==> h in t[i]
    ensures var t := SweepTrace(net, excluded, probe, attempts);
      forall i :: 0 <= i < |t| ==> forall h :: h in SweepResult(net, excluded, probe, attempts) ==> h in t[i]
  {
    var t := SweepTrace(net, excluded, probe, attempts);
    SweepTraceShape(net, excluded, probe, attempts);
    HostsInNetwork(net);
    forall i | 0 <= i < |t| ensures Ascending(t[i]) && Distinct(t[i]) && forall h :: h in t[i] ==> h in Hosts(net) && !Skipped(h, excluded) {
      RoundInvariant(net, excluded, probe, attempts, t, i);
    }
    forall i, j | 0 <= i <= j < |t| ensures forall h :: h in t[j] ==> h in t[i] {
      RoundContained(excluded, probe, t, i, j);
    }
  }

  lemma {:induction false} RoundInvariant(net: Cidr, excluded: Option<seq<string>>, probe: Probe, attempts: nat, t: seq<seq<Addr>>, i: nat)
    requires ValidCidr(net) && t == SweepTrace(net, excluded, probe, attempts) && i < |t|
    ensures Ascending(t[i]) && Distinct(t[i]) && forall h :: h in t[i] ==> h in Hosts(net) && !Skipped(h, excluded)
    decreases i
  {
    SweepTraceShape(net, excluded, probe, attempts);
    if i == 0 {
      HostsInNetwork(net);
      RoundNarrows(Hosts(net), excluded, probe, 0);
    } else {
      RoundInvariant(net, excluded, probe, attempts, t, i - 1);
      RoundNarrows(t[i - 1], excluded, probe, i);
    }
  }

  lemma {:induction false} RoundContained(excluded: Option<seq<string>>, probe: Probe, t: seq<seq<Addr>>, i: nat, j: nat)
    requires i <= j < |t|
    requires forall k :: 0 <= k < |t| - 1 ==> t[k + 1] == Round(t[k], excluded, probe, k + 1)
    ensures forall h :: h in t[j] ==> h in t[i]
    decreases j
  {
    if i < j {
      RoundContained(excluded, probe, t, i, j - 1);
      RoundNarrows(t[j - 1], excluded, probe, j);
    }
  }

  /** When every probe of the first round replies, no retry runs and nothing is
      stored as failing. */
  lemma SweepAllReply(net: Cidr, excluded: Option<seq<string>>, probe: Probe, attempts: nat)
    requires ValidCidr(net)
    requires forall h :: h in Hosts(net) ==> probe(0, h) == 0
    ensures SweepTrace(net, excluded, probe, attempts) == [[]]
    ensures SweepResult(net, excluded, probe, attempts) == []
  {
    RoundIsPingNetwork(Hosts(net), excluded, probe, 0);
    ProbeKeysSpec(Hosts(net), excluded);
    UnresponsiveSpec(ProbeKeys(Hosts(net), excluded), probe, 0);
  }

  /** When no probe ever replies, every round fails every probed host, so the
      stored result is every host that is not skipped, and every host of the
      network when nothing is excluded. */
  lemma SweepNoneReply(net: Cidr, excluded: Option<seq<string>>, probe: Probe, attempts: nat)
    requires ValidCidr(net)
    requires forall r, h :: probe(r, h) != 0
    ensures var t := SweepTrace(net, excluded, probe, attempts);
      forall i :: 0 <= i < |t| ==> t[i] == ProbeKeys(Hosts(net), excluded)
    ensures SweepResult(net, excluded, probe, attempts) == ProbeKeys(Hosts(net), excluded)
    ensures (excluded == None || excluded == Some([])) ==> SweepResult(net, excluded, probe, attempts) == Hosts(net)
  {
    var t := SweepTrace(net, excluded, probe, attempts);
    var keys := ProbeKeys(Hosts(net), excluded);
    SweepTraceShape(net, excluded, probe, attempts);
    assert t[0] == keys by {
      RoundIsPingNetwork(Hosts(net), excluded, probe, 0);
      UnresponsiveSpec(keys, probe, 0);
    }
    assert ProbeKeys(keys, excluded) == keys by {
      ProbeKeysSpec(Hosts(net), excluded);
      ProbeKeysIsFilter(keys, excluded);
      KeptAllKept(keys, excluded);
    }
    forall i | 0 <= i < |t| ensures t[i] == keys {
      SweepConstant(excluded, probe, t, keys, i);
    }
    if excluded == None || excluded == Some([]) {
      HostsInNetwork(net);
      AscendingDistinct(Hosts(net));
      ProbeKeysIsFilter(Hosts(net), excluded);
    }
  }

  lemma {:induction false} KeptAllKept(hosts: seq<Addr>, excluded: Option<seq<string>>)
    requires forall h :: h in hosts ==> !Skipped(h, excluded)
    ensures Kept(hosts, excluded) == hosts
    decreases |hosts|
  {
    if hosts != [] {
      var init := hosts[..|hosts| - 1];
      assert hosts == init + [hosts[|hosts| - 1]];
      KeptAllKept(init, excluded);
    }
  }

  lemma AscendingDistinct(s: seq<Addr>)
    requires Ascending(s)
    ensures Distinct(s)
  {
  }

  lemma {:induction false} SweepConstant(excluded: Option<seq<string>>, probe: Probe, t: seq<seq<Addr>>, keys: seq<Addr>, i: nat)
    requires i < |t| && t[0] == keys
    requires forall k :: 0 <= k < |t| - 1 ==> t[k + 1] == Round(t[k], excluded, probe, k + 1)
    requires ProbeKeys(keys, excluded) == keys
    requires forall r, h :: probe(r, h) != 0
    ensures t[i] == keys
    decreases i
  {
    if i > 0 {
      SweepConstant(excluded, probe, t, keys, i - 1);
      RoundIsPingNetwork(keys, excluded, probe, i);
      UnresponsiveSpec(keys, probe, i);
    }
  }

  /** The failure dict after `run` has swept each of `networks` in turn: a network
      whose text `ip_network` rejects writes nothing, a later network overwrites an
      earlier one with the same key. */
  function Swept(networks: seq<Cidr>, excluded: Option<seq<string>>, probe: Probe): map<string, seq<Addr>>
    decreases |networks|
  {
    if networks == [] then map[]
    else
      var m := Swept(networks[..|networks| - 1], excluded, probe);
      var n := Last(networks);
      if ValidCidr(n) then m[Key(n) := SweepResult(n, excluded, probe, NUM_ATTEMPTS)] else m
  }

  /** After sweeping two networks, the dict holds exactly the keys of the valid
      ones, each with its own network's result, the second network's winning
      when the two keys coincide. */
  lemma SweptTwo(n1: Cidr, n2: Cidr, excluded: Option<seq<string>>, probe: Probe)
    ensures var m := Swept([n1, n2], excluded, probe);
      forall k :: k in m <==> (ValidCidr(n1) && k == Key(n1)) || (ValidCidr(n2) && k == Key(n2))
    ensures var m := Swept([n1, n2], excluded, probe);
      ValidCidr(n2) ==> m[Key(n2)] == SweepResult(n2, excluded, probe, NUM_ATTEMPTS)
    ensures var m := Swept([n1, n2], excluded, probe);
      ValidCidr(n1) && Key(n1) != Key(n2) ==> m[Key(n1)] == SweepResult(n1, excluded, probe, NUM_ATTEMPTS)
  {
    assert [n1, n2][..1] == [n1];
    assert [n1][..0] == [];
    var m1 := Swept([n1], excluded, probe);
    assert Last([n1]) == n1 && Swept([], excluded, probe) == map[];
    assert m1 == if ValidCidr(n1) then map[Key(n1) := SweepResult(n1, excluded, probe, NUM_ATTEMPTS)] else map[];
    assert Swept([n1, n2], excluded, probe) == if ValidCidr(n2) then m1[Key(n2) := SweepResult(n2, excluded, probe, NUM_ATTEMPTS)] else m1;
  }

  // ---------------------------------------------------------------------------
  // Mismatch report (`output`)
  // ---------------------------------------------------------------------------

  /** What `output` yields when `ping_failures` is set: the mismatched addresses, or
      the `KeyError` raised when a network has no stored result. */
  datatype Outcome = Mismatches(addresses: seq<string>) | KeyError(key: string)

  /** `[str(ip).split('.')[3] for ip in failures]`. */
  function Ids(failures: seq<Addr>): (ids: seq<string>)
    ensures |ids| == |failures|
  {
    seq(|failures|, i requires 0 <= i < |failures| => HostId(failures[i]))
  }

  /** The identifiers are exactly the host identifiers of the failures. */
  lemma IdsMembers(failures: seq<Addr>)
    ensures forall h :: h in failures ==> HostId(h) in Ids(failures)
    ensures forall x :: x in Ids(failures) ==> exists h :: h in failures && HostId(h) == x
  {
    forall h | h in failures ensures HostId(h) in Ids(failures) {
      var i :| 0 <= i < |failures| && failures[i] == h;
      assert Ids(failures)[i] == HostId(h);
    }
    forall x | x in Ids(failures) ensures exists h :: h in failures && HostId(h) == x {
      var i :| 0 <= i < |failures| && Ids(failures)[i] == x;
      assert failures[i] in failures;
    }
  }

  /** `list(set(a).difference(b))`. Python leaves the order of a set unspecified;
      this model takes the order of first occurrence in `a`. */
  function OnlyIn(a: seq<string>, b: seq<string>): (o: seq<string>)
    ensures forall x :: x in o <==> x in a && x !in b
    ensures Distinct(o)
    decreases |a|
  {
    if a == [] then []
    else
      var o := OnlyIn(a[..|a| - 1], b);
      var x := a[|a| - 1];
      assert forall y :: y in a <==> y in a[..|a| - 1] || y == x by {
        assert a == a[..|a| - 1] + [x];
      }
      if x in b || x in o then o else o + [x]
  }

  /** `[f"{prefix}.{o}" for o in octets]`. */
  function Rendered(prefix: string, octets: seq<string>): (r: seq<string>)
    ensures |r| == |octets|
  {
    seq(|octets|, i requires 0 <= i < |octets| => prefix + "." + octets[i])
  }

  /** The two rendered set differences, network 1's first, for prefixes `p1`,
      `p2` and failing identifiers `ids1`, `ids2`. */
  function Report(p1: string, p2: string, ids1: seq<string>, ids2: seq<string>): seq<string> {
    Rendered(p1, OnlyIn(ids1, ids2)) + Rendered(p2, OnlyIn(ids2, ids1))
  }

  /** The body of `output` for networks `n1`, `n2` and the stored failures. */
  function Mismatch(n1: Cidr, n2: Cidr, failures: map<string, seq<Addr>>): (r: Outcome)
    ensures r.KeyError? <==> Key(n1) !in failures || Key(n2) !in failures
    ensures r.KeyError? ==> r.key == if Key(n1) !in failures then Key(n1) else Key(n2)
  {
    if Key(n1) !in failures then KeyError(Key(n1))
    else if Key(n2) !in failures then KeyError(Key(n2))
    else Mismatches(Report(NetPrefix(n1), NetPrefix(n2), Ids(failures[Key(n1)]), Ids(failures[Key(n2)])))
  }

  /** `s` reads as `prefix.o` with `o` failing in `mine` and not in `other`. */
  predicate EntryOf(s: string, prefix: string, mine: seq<string>, other: seq<string>) {
    var parts := RSplitOnce(s, '.');
    |parts| == 2 && parts[0] == prefix && parts[1] in mine && parts[1] !in other
  }

  predicate NoDots(ids: seq<string>) {
    forall x :: x in ids ==> '.' !in x
  }

  lemma IdsHaveNoDot(failures: seq<Addr>)
    ensures NoDots(Ids(failures))
  {
    forall x | x in Ids(failures) ensures '.' !in x {
      var i :| 0 <= i < |failures| && Ids(failures)[i] == x;
      HostIdDigits(failures[i]);
    }
  }

  lemma OnlyInNoDots(a: seq<string>, b: seq<string>)
    requires NoDots(a)
    ensures NoDots(OnlyIn(a, b))
  {
    forall x | x in OnlyIn(a, b) ensures '.' !in x {
      assert x in a;
    }
  }

  /** Each entry rendered for one side is that side's prefix followed by an
      identifier failing on that side only. */
  lemma SideEntries(p: string, mine: seq<string>, other: seq<string>)
    requires NoDots(mine)
    ensures forall i :: 0 <= i < |OnlyIn(mine, other)| ==> EntryOf(Rendered(p, OnlyIn(mine, other))[i], p, mine, other)
  {
    var o := OnlyIn(mine, other);
    OnlyInNoDots(mine, other);
    RenderedTails(p, o);
    forall i | 0 <= i < |o| ensures EntryOf(Rendered(p, o)[i], p, mine, other) {
      assert o[i] in o;
    }
  }

  /** The report's first `|OnlyIn(ids1, ids2)|` entries are `p1` with an identifier
      failing on network 1 only, the rest `p2` with an identifier failing on
      network 2 only. */
  lemma ReportEntries(p1: string, p2: string, ids1: seq<string>, ids2: seq<string>)
    requires NoDots(ids1) && NoDots(ids2)
    ensures var r := Report(p1, p2, ids1, ids2);
      |r| == |OnlyIn(ids1, ids2)| + |OnlyIn(ids2, ids1)| &&
      (forall i :: 0 <= i < |OnlyIn(ids1, ids2)| ==> EntryOf(r[i], p1, ids1, ids2)) &&
      (forall i :: |OnlyIn(ids1, ids2)| <= i < |r| ==> EntryOf(r[i], p2, ids2, ids1))
  {
    SideEntries(p1, ids1, ids2);
    SideEntries(p2, ids2, ids1);
    EntriesOfConcat(Rendered(p1, OnlyIn(ids1, ids2)), Rendered(p2, OnlyIn(ids2, ids1)), p1, p2, ids1, ids2);
  }

  /** Entries of each of two parts remain entries of their concatenation. */
  lemma EntriesOfConcat(s1: seq<string>, s2: seq<string>, p1: string, p2: string, ids1: seq<string>, ids2: seq<string>)
    requires forall i :: 0 <= i < |s1| ==> EntryOf(s1[i], p1, ids1, ids2)
    requires forall i :: 0 <= i < |s2| ==> EntryOf(s2[i], p2, ids2, ids1)
    ensures forall i :: 0 <= i < |s1| ==> EntryOf((s1 + s2)[i], p1, ids1, ids2)
    ensures forall i :: |s1| <= i < |s1 + s2| ==> EntryOf((s1 + s2)[i], p2, ids2, ids1)
  {
    forall i | |s1| <= i < |s1 + s2| ensures EntryOf((s1 + s2)[i], p2, ids2, ids1) {
      assert (s1 + s2)[i] == s2[i - |s1|];
    }
  }

  /** Every report entry ends, after its last dot, in an identifier that fails on
      exactly one of the two networks; an identifier failing on both appears in no
      entry. */
  lemma ReportOneSided(p1: string, p2: string, ids1: seq<string>, ids2: seq<string>)
    requires NoDots(ids1) && NoDots(ids2)
    ensures forall s :: s in Report(p1, p2, ids1, ids2) ==>
      |RSplitOnce(s, '.')| == 2 && (RSplitOnce(s, '.')[1] in ids1 <==> RSplitOnce(s, '.')[1] !in ids2)
  {
    ReportEntries(p1, p2, ids1, ids2);
    var r := Report(p1, p2, ids1, ids2);
    forall s | s in r ensures |RSplitOnce(s, '.')| == 2 && (RSplitOnce(s, '.')[1] in ids1 <==> RSplitOnce(s, '.')[1] !in ids2) {
      var i :| 0 <= i < |r| && r[i] == s;
      if i < |OnlyIn(ids1, ids2)| {
        assert EntryOf(r[i], p1, ids1, ids2);
      } else {
        assert EntryOf(r[i], p2, ids2, ids1);
      }
    }
  }

  /** Every identifier failing on one network only appears in the report, under
      that network's prefix. */
  lemma ReportComplete(p1: string, p2: string, ids1: seq<string>, ids2: seq<string>)
    ensures forall o :: o in ids1 && o !in ids2 ==> p1 + "." + o in Report(p1, p2, ids1, ids2)
    ensures forall o :: o in ids2 && o !in ids1 ==> p2 + "." + o in Report(p1, p2, ids1, ids2)
  {
    var o1, o2 := OnlyIn(ids1, ids2), OnlyIn(ids2, ids1);
    var r := Report(p1, p2, ids1, ids2);
    forall o | o in ids1 && o !in ids2 ensures p1 + "." + o in r {
      var i :| 0 <= i < |o1| && o1[i] == o;
      assert r[i] == p1 + "." + o;
    }
    forall o | o in ids2 && o !in ids1 ensures p2 + "." + o in r {
      var i :| 0 <= i < |o2| && o2[i] == o;
      assert r[|o1| + i] == p2 + "." + o;
    }
  }

  /** Rendering dot-free identifiers under one prefix keeps each identifier
      recoverable as the text after the last dot, so distinct identifiers give
      distinct addresses. */
  lemma RenderedTails(p: string, octets: seq<string>)
    requires NoDots(octets)
    ensures forall i :: 0 <= i < |octets| ==> RSplitOnce(Rendered(p, octets)[i], '.') == [p, octets[i]]
    ensures forall s :: s in Rendered(p, octets) ==> |RSplitOnce(s, '.')| == 2 && RSplitOnce(s, '.')[1] in octets
    ensures Distinct(octets) ==> Distinct(Rendered(p, octets))
  {
    var r := Rendered(p, octets);
    forall i | 0 <= i < |octets| ensures RSplitOnce(r[i], '.') == [p, octets[i]] {
      RSplitOnceOf(p, '.', octets[i]);
    }
  }

  /** No address appears twice in the report. */
  lemma ReportDistinct(p1: string, p2: string, ids1: seq<string>, ids2: seq<string>)
    requires NoDots(ids1) && NoDots(ids2)
    ensures Distinct(Report(p1, p2, ids1, ids2))
  {
    var o1, o2 := OnlyIn(ids1, ids2), OnlyIn(ids2, ids1);
    RenderedTails(p1, o1);
    RenderedTails(p2, o2);
    var s1, s2 := Rendered(p1, o1), Rendered(p2, o2);
    forall x | x in s1 ensures x !in s2 {
      assert RSplitOnce(x, '.')[1] in o1;
    }
    UnionDistinct(s1, s2);
  }

  lemma OnlyInEmpty(a: seq<string>, b: seq<string>)
    ensures OnlyIn(a, b) == [] <==> forall o :: o in a ==> o in b
  {
    var o := OnlyIn(a, b);
    if o != [] {
      assert o[0] in a && o[0] !in b;
    }
  }

  /** The report is empty exactly when both networks fail the same identifiers, in
      particular when neither fails any host. */
  lemma ReportEmpty(p1: string, p2: string, ids1: seq<string>, ids2: seq<string>)
    ensures Report(p1, p2, ids1, ids2) == [] <==> forall o :: o in ids1 <==> o in ids2
  {
    OnlyInEmpty(ids1, ids2);
    OnlyInEmpty(ids2, ids1);
    assert |Report(p1, p2, ids1, ids2)| == |OnlyIn(ids1, ids2)| + |OnlyIn(ids2, ids1)|;
  }

  /** `output` on stored failures for both networks: every entry is one network's
      prefix with an identifier failing there and not on the other network,
      network 1's entries first; every such identifier is reported once; and the
      report is empty when both networks fail the same identifiers. */
  lemma MismatchSpec(n1: Cidr, n2: Cidr, failures: map<string, seq<Addr>>)
    requires Key(n1) in failures && Key(n2) in failures
    ensures var ids1, ids2 := Ids(failures[Key(n1)]), Ids(failures[Key(n2)]);
      var r := Mismatch(n1, n2, failures).addresses;
      |r| == |OnlyIn(ids1, ids2)| + |OnlyIn(ids2, ids1)| &&
      (forall i :: 0 <= i < |OnlyIn(ids1, ids2)| ==> EntryOf(r[i], NetPrefix(n1), ids1, ids2)) &&
      (forall i :: |OnlyIn(ids1, ids2)| <= i < |r| ==> EntryOf(r[i], NetPrefix(n2), ids2, ids1)) &&
      (forall o :: o in ids1 && o !in ids2 ==> NetPrefix(n1) + "." + o in r) &&
      (forall o :: o in ids2 && o !in ids1 ==> NetPrefix(n2) + "." + o in r) &&
      Distinct(r) &&
      (r == [] <==> forall o :: o in ids1 <==> o in ids2)
  {
    var ids1, ids2 := Ids(failures[Key(n1)]), Ids(failures[Key(n2)]);
    IdsHaveNoDot(failures[Key(n1)]);
    IdsHaveNoDot(failures[Key(n2)]);
    ReportEntries(NetPrefix(n1), NetPrefix(n2), ids1, ids2);
    ReportComplete(NetPrefix(n1), NetPrefix(n2), ids1, ids2);
    ReportDistinct(NetPrefix(n1), NetPrefix(n2), ids1, ids2);
    ReportEmpty(NetPrefix(n1), NetPrefix(n2), ids1, ids2);
  }

  lemma IdsNotExcluded(failures: seq<Addr>, excluded: Option<seq<string>>)
    requires forall h :: h in failures ==> !Skipped(h, excluded)
    ensures excluded.Some? && excluded.value != [] ==> forall x :: x in Ids(failures) ==> x !in excluded.value
  {
    if excluded.Some? && excluded.value != [] {
      forall x | x in Ids(failures) ensures x !in excluded.value {
        var i :| 0 <= i < |failures| && Ids(failures)[i] == x;
        assert failures[i] in failures;
      }
    }
  }

  /** `run` followed by `output` on two valid networks with different keys: the
      report compares the two networks' own sweep results, and no entry ends in an
      excluded host identifier. */
  lemma SweepThenMismatch(n1: Cidr, n2: Cidr, excluded: Option<seq<string>>, probe: Probe)
    requires ValidCidr(n1) && ValidCidr(n2) && Key(n1) != Key(n2)
    ensures Mismatch(n1, n2, Swept([n1, n2], excluded, probe)) ==
      Mismatches(Report(NetPrefix(n1), NetPrefix(n2),
                        Ids(SweepResult(n1, excluded, probe, NUM_ATTEMPTS)),
                        Ids(SweepResult(n2, excluded, probe, NUM_ATTEMPTS))))
    ensures excluded.Some? && excluded.value != [] ==>
      forall s :: s in Mismatch(n1, n2, Swept([n1, n2], excluded, probe)).addresses ==>
        |RSplitOnce(s, '.')| == 2 && RSplitOnce(s, '.')[1] !in excluded.value
  {
    SweptTwo(n1, n2, excluded, probe);
    var f1, f2 := SweepResult(n1, excluded, probe, NUM_ATTEMPTS), SweepResult(n2, excluded, probe, NUM_ATTEMPTS);
    SweepNarrows(n1, excluded, probe, NUM_ATTEMPTS);
    SweepNarrows(n2, excluded, probe, NUM_ATTEMPTS);
    IdsNotExcluded(f1, excluded);
    IdsNotExcluded(f2, excluded);
    IdsHaveNoDot(f1);
    IdsHaveNoDot(f2);
    ReportOneSided(NetPrefix(n1), NetPrefix(n2), Ids(f1), Ids(f2));
  }

  /** A network whose text `ip_network` rejects has no stored result, so `output`
      raises `KeyError` for it. */
  lemma InvalidNetworkKeyError(n1: Cidr, n2: Cidr, excluded: Option<seq<string>>, probe: Probe)
    requires !ValidCidr(n1) && Key(n1) != Key(n2)
    ensures Mismatch(n1, n2, Swept([n1, n2], excluded, probe)) == KeyError(Key(n1))
  {
    SweptTwo(n1, n2, excluded, probe);
  }

  // ---------------------------------------------------------------------------
  // Ping command line (`ping`)
  // ---------------------------------------------------------------------------

  /** The argument list `ping` hands to `Popen` on the given platform
      (`platform.system()`) for the host text `str(host)`. */
  function PingArgv(platform: string, host: string): seq<string> {
    var args := if Lower(platform) == "windows" then ("-n", "-w", TIMEOUT * 1000) else ("-c", "-W", TIMEOUT);
    ["ping", args.0, Dec(NUM_PACKETS), host, args.1, Dec(args.2)]
  }

  /** On Windows (in any letter case) the packet count follows `-n` and the timeout
      in milliseconds follows `-w`; elsewhere `-c` and `-W` with the timeout in
      seconds. */
  lemma PingArgvByPlatform(platform: string, host: string)
    ensures Lower(platform) == "windows" ==> PingArgv(platform, host) == ["ping", "-n", "1", host, "-w", "2000"]
    ensures Lower(platform) != "windows" ==> PingArgv(platform, host) == ["ping", "-c", "1", host, "-W", "2"]
  {
    assert Dec(2000) == "2000" by {
      assert Dec(2) == "2";
      assert Dec(20) == Dec(2) + "0";
      assert Dec(200) == Dec(20) + "0";
    }
  }
}
