# NetworkPingComparator in Dafny

NetworkPingComparator pings every usable host of two IPv4 subnets. It retries
the hosts that did not answer, and reports host identifiers (last octets) that
fail on one subnet but not on the other. Each report entry is rendered with the
failing subnet's own three-octet prefix.

This project models that logic:

- `pystr.dfy` (module `PyStr`): the Python string built-ins the code uses.
  These are `str(n)`, `split`, `rsplit(sep, 1)` and ASCII `lower`.
- `ipv4.dfy` (module `IPv4`): what the code takes from `ipaddress`.
  - A 32-bit address and its dotted text.
  - A strict CIDR network and its text key.
  - The host list `ip_network(net).hosts()`.
- `sweep.dfy` (module `Sweep`): the sequential logic as functions and lemmas.
  - The exclusion filter of `__spawn_ping_procs`.
  - The non-zero exit filter of `__ping_network`.
  - The retry rounds of `not_pingable`.
  - The dict that `run` fills.
  - The set differences and rendering of `output`.
  - The argument list of `ping`.
- `comparator.dfy` (module `Comparator`): the class `NetworkPingComparator`,
  with its updated fields, and `FailureTable`, the shared failure dict.
  Each method is proved against the functions of `Sweep`.
- `scenarios.dfy` (module `Scenarios`): concrete instances of the model.
  - The ping command lines the unit tests expect for Windows and Linux.
  - The unit tests of `output` on 192.168.1.0/24 and 192.168.2.0/24: no
    failures, and host .20 failing on one network only.
  - An illustrative retry on a /30 that narrows the failure list.

The outside world becomes parameters:

- Ping processes are an exit-code oracle `Probe = (round, address) -> int`.
- `platform.system()` is a `platform` string parameter.
- The dict `procs` is its insertion-ordered keys plus a map from each key to
  its command line.

`output` is annotated to return a list, but when no run has happened it returns
`None` once both networks have a stored result (see Findings). The model states
what the code does on that path.

## Model

| member | source | states |
|---|---|---|
| PyStr.Dec | network_ping_comparator.py:160 | `str(n)` of a natural number is a non-empty digit string, and it has two or more digits exactly when n >= 10 |
| PyStr.SplitJoin | network_ping_comparator.py:144 | joining the pieces of `split` gives back the string, and no piece holds the separator |
| PyStr.Split | network_ping_comparator.py:144 | `split(sep)` gives at least one piece; `PyStr.SplitJoin` proves it inverts joining |
| PyStr.RSplitOnce | network_ping_comparator.py:70 | `rsplit(sep, 1)` gives one piece (the whole string) exactly when sep is absent; otherwise it gives the text before and after the last sep, and the tail is free of sep |
| PyStr.RSplitOnceOf | network_ping_comparator.py:70 | `rsplit` takes apart a head, a separator and a separator-free tail again |
| PyStr.Lower | network_ping_comparator.py:156 | `lower()` on ASCII keeps the length, leaves no capital letter, maps each capital to its small letter and keeps every other character |
| IPv4.Dotted | network_ping_comparator.py:144 | `str(host)`: the four octets in decimal joined by dots; `IPv4.DottedSplit` proves the split |
| IPv4.DottedSplit | network_ping_comparator.py:144 | the dotted text of an address splits at '.' into exactly its four decimal octets |
| IPv4.HostId | network_ping_comparator.py:144 | the identifier matched across networks, the decimal text of the last octet; `IPv4.HostIdIsLastField` proves it is field 3 of the dotted text |
| IPv4.HostIdIsLastField | network_ping_comparator.py:144 | `str(host).split('.')` has four fields and field 3 is the decimal text of the address's last octet |
| IPv4.Key | network_ping_comparator.py:116 | the network text `"a.b.c.d/p"` under which `not_pingable` stores the result |
| IPv4.NetPrefix | network_ping_comparator.py:70 | `network.rsplit('.', 1)[0]`; `IPv4.NetPrefixIsThreeOctets` proves it is the first three octets |
| IPv4.NetPrefixIsThreeOctets | network_ping_comparator.py:70 | `network.rsplit('.', 1)[0]` is the first three octets of the network address |
| IPv4.ValidCidr | network_ping_comparator.py:102 | what `ip_network`'s strict default accepts: a prefix of at most 32 bits and no host bits set; any other network raises ValueError, so nothing is stored |
| IPv4.AlignedMultiple | network_ping_comparator.py:102 | a network address with no host bits set is a multiple of the network's size |
| IPv4.BroadcastInRange | network_ping_comparator.py:102 | a strictly valid network ends inside the 32-bit address space |
| IPv4.RangeSpec | network_ping_comparator.py:102 | the address run from lo to hi holds hi - lo addresses, the i-th being lo + i |
| IPv4.Hosts | network_ping_comparator.py:102 | `list(ip_network(net).hosts())` of a strictly valid network; `IPv4.HostsOfNetwork` and `IPv4.HostsOfPointToPoint` prove what it holds |
| IPv4.HostsOfNetwork | network_ping_comparator.py:102 | for prefixes up to /30, `hosts()` is exactly the network's addresses other than the network and broadcast addresses, ascending, 2^(32-p) - 2 of them |
| IPv4.HostsOfPointToPoint | network_ping_comparator.py:102 | a /31 yields both of its addresses and a /32 its one address, ascending |
| Sweep.Skipped | network_ping_comparator.py:143-144 | a host is skipped exactly when the exclusion list is truthy and holds `str(host).split('.')[3]` |
| Sweep.ProbeKeys | network_ping_comparator.py:141-147 | the keys of `procs` in insertion order; `Sweep.ProbeKeysSpec` and `Sweep.ProbeKeysIsFilter` prove which hosts they are |
| Sweep.ProbeKeysSpec | network_ping_comparator.py:141-147 | a host gets a process exactly when it is in the host list and not excluded (the exclusion applies only when the list is truthy); each host once; ascending input stays ascending |
| Sweep.ProbeKeysAscending | network_ping_comparator.py:141-147 | an ascending host list gives ascending dict keys, all drawn from the list |
| Sweep.ProbeKeysIsFilter | network_ping_comparator.py:141-147 | on a duplicate-free host list the probed hosts equal the in-order filter of non-excluded hosts; with no exclusion list, or an empty one, all hosts are probed |
| Sweep.Unresponsive | network_ping_comparator.py:127-133 | `list(failures.keys())` for the started processes; `Sweep.UnresponsiveSpec` proves its contents |
| Sweep.UnresponsiveSpec | network_ping_comparator.py:127-133 | the failures are exactly the probed hosts whose exit code is non-zero: none when all exit 0, all probed hosts when all fail |
| Sweep.UnresponsiveOrder | network_ping_comparator.py:127-133 | the failures keep probe order (ascending and duplicate-free input stays so) |
| Sweep.Round | network_ping_comparator.py:124-133 | one `__ping_network` call in a single pass; `Sweep.RoundIsPingNetwork` proves it equals the two-step definition |
| Sweep.RoundIsPingNetwork | network_ping_comparator.py:124-133 | the one-pass round equals the failure filter applied to the keys `__spawn_ping_procs` started processes for |
| Sweep.RoundNarrows | network_ping_comparator.py:118-133 | one `__ping_network` call returns only given, non-excluded hosts with a non-zero exit code, without duplicates, in ascending order |
| Sweep.Retries | network_ping_comparator.py:108 | the iteration count of `range(self.NUM_ATTEMPTS-1)`: attempts - 1, and 0 for 0 attempts, since a negative range is empty |
| Sweep.RetryRounds | network_ping_comparator.py:108-114 | the failure lists of the retry iterations, stopping at the `break` on an empty list; `Sweep.RetryRoundsLength` and `Sweep.RetryRoundsLinks` prove what it holds |
| Sweep.RetryRoundsLength | network_ping_comparator.py:108-114 | the retry loop runs at most its remaining iterations, and stops early only after a round without failures |
| Sweep.RetryRoundsLinks | network_ping_comparator.py:108-114 | each retry round re-probes exactly the non-empty failures of the round before it |
| Sweep.SweepTrace | network_ping_comparator.py:102-114 | the failure lists of the rounds `not_pingable` runs; its contract says at least one round runs |
| Sweep.SweepResult | network_ping_comparator.py:102-116 | the list `not_pingable` stores, the last round's failures; `Sweep.LastRoundOfLastProbed` and `Sweep.SweepNarrows` prove what it holds |
| Sweep.SweepTraceShape | network_ping_comparator.py:102-114 | `not_pingable` runs at least 1 and at most NUM_ATTEMPTS rounds; the first round probes all hosts; each retry probes exactly the previous round's non-empty failures; stopping early means the last round had no failures |
| Sweep.LastProbed | network_ping_comparator.py:102-113 | the value lines 102 and 113 leave in `self.hosts`: the network's hosts after one round, or else the failures of the round before the last |
| Sweep.LastRoundOfLastProbed | network_ping_comparator.py:102-116 | the stored result is the last round run on the host list left in `self.hosts` |
| Sweep.SweepNarrows | network_ping_comparator.py:102-116 | every round's failures are ascending, duplicate-free, hosts of the network and not excluded; later rounds' failures are contained in earlier ones, so the stored result is contained in every round |
| Sweep.SweepAllReply | network_ping_comparator.py:108-111 | when every host replies in the first round, no retry runs and the stored list is empty |
| Sweep.SweepNoneReply | network_ping_comparator.py:108-116 | when no host ever replies, every round fails every probed host, the stored list is all non-excluded hosts, and with no exclusion all hosts |
| Sweep.Swept | network_ping_comparator.py:47-56 | the dict after `run`'s processes wrote into it one after the other; `Sweep.SweptTwo` proves its keys and values |
| Sweep.SweptTwo | network_ping_comparator.py:47-56 | after `run` the dict holds exactly the keys of the valid networks, each mapped to its own sweep result; a network whose text `ip_network` rejects leaves no entry |
| Sweep.Ids | network_ping_comparator.py:71 | the identifier list has one entry per stored failure |
| Sweep.IdsMembers | network_ping_comparator.py:71 | the identifiers are exactly the host identifiers of the stored failures |
| Sweep.OnlyIn | network_ping_comparator.py:74-75 | `list(set(a).difference(b))` holds exactly the identifiers in a and not in b, each once |
| Sweep.Rendered | network_ping_comparator.py:78-79 | the f-string list has one entry per identifier; `Sweep.RenderedTails` proves each entry splits back into prefix and identifier |
| Sweep.Report | network_ping_comparator.py:74-79 | the returned list, network 1's entries first; `Sweep.ReportEntries` to `Sweep.ReportEmpty` prove its contents |
| Sweep.Mismatch | network_ping_comparator.py:64-79 | `output` on stored failures raises KeyError exactly when a network's key is missing, naming the first missing key |
| Sweep.ReportEntries | network_ping_comparator.py:74-79 | the first part of the report holds network 1's prefix with an identifier failing only on network 1, the rest network 2's prefix with one failing only on network 2 |
| Sweep.ReportOneSided | network_ping_comparator.py:74-79 | every report entry ends, after its last dot, in an identifier failing on exactly one of the two networks; one failing on both appears in no entry |
| Sweep.ReportComplete | network_ping_comparator.py:74-79 | every identifier failing on one network only appears in the report under that network's prefix |
| Sweep.ReportDistinct | network_ping_comparator.py:74-79 | no address appears twice in the report |
| Sweep.ReportEmpty | network_ping_comparator.py:74-79 | the report is empty exactly when both networks fail the same set of identifiers |
| Sweep.MismatchSpec | network_ping_comparator.py:64-79 | with both keys stored, `output` returns the report: side order, soundness, completeness, no duplicates, and empty exactly when the identifier sets agree |
| Sweep.IdsNotExcluded | network_ping_comparator.py:71 | no identifier computed from failures of a sweep with an active exclusion list is excluded |
| Sweep.SweepThenMismatch | network_ping_comparator.py:41-79 | `run` then `output` on two valid networks with different keys reports the mismatch of the two sweep results, and no report entry ends in an excluded identifier |
| Sweep.InvalidNetworkKeyError | network_ping_comparator.py:64-71 | if the first network's text is rejected by `ip_network`, `output` after `run` raises KeyError for that text |
| Sweep.PingArgv | network_ping_comparator.py:156-160 | the argument list handed to `Popen`; `Sweep.PingArgvByPlatform` proves both branches |
| Sweep.PingArgvByPlatform | network_ping_comparator.py:149-161 | on Windows (any letter case) the command is `ping -n 1 <host> -w 2000`, elsewhere `ping -c 1 <host> -W 2` |
| Comparator.FailureTable.constructor | network_ping_comparator.py:47 | the `Manager().dict()` that `run` creates starts empty |
| Comparator.NetworkPingComparator.constructor | network_ping_comparator.py:29-39 | the networks are the two arguments, and the other fields start as None |
| Comparator.NetworkPingComparator.Copy | network_ping_comparator.py:51 | the copy of the object each child `Process` works on: same networks, exclusion list, host list and failure dict |
| Comparator.NetworkPingComparator.ExcludeHost | network_ping_comparator.py:85-92 | the exclusion list is replaced by the argument |
| Comparator.NetworkPingComparator.SpawnPingProcs | network_ping_comparator.py:135-147 | the loop with `continue` starts a process for exactly the hosts `ProbeKeys` selects, in insertion order, each with the platform's ping command line |
| Comparator.NetworkPingComparator.PingNetwork | network_ping_comparator.py:118-133 | the returned failures are one round over the current host list |
| Comparator.NetworkPingComparator.NotPingable | network_ping_comparator.py:94-116 | the retry loop with `break` stores the sweep result under the network's key and leaves the last probed list in `hosts`; on ValueError nothing changes |
| Comparator.NetworkPingComparator.Run | network_ping_comparator.py:41-56 | a fresh dict ends up holding the sweep of each network in turn |
| Comparator.NetworkPingComparator.Output | network_ping_comparator.py:58-83 | as written: with stored failures, the mismatch outcome; without, it runs both sweeps and returns None when both networks were stored, and the propagated KeyError otherwise |
| Comparator.NetworkPingComparator.OutputAfterRun | network_ping_comparator.py:58-83 | as intended: it runs the sweeps if needed and always returns the mismatch outcome of the stored failures |
| Comparator.OutputBeforeRun | network_ping_comparator.py:81-83 | a new comparator whose `output` is called before `run` returns None when both networks are valid, and raises the KeyError for a rejected first network |
| Comparator.OutputBeforeRunIntended | network_ping_comparator.py:81-83 | with the intended `output`, the same call returns the mismatch outcome of both networks' sweeps |
| Scenarios.PingArgvExamples | tests/test_NetworkPingComparator.py:45-58 | `"Windows"` and `"Linux"` give the command lines the tests expect |
| Scenarios.MismatchExample | tests/test_NetworkPingComparator.py:151-166 | on 192.168.1.0/24 and 192.168.2.0/24, no failures give `[]`, and .20 failing on one network only reports exactly that address with its own network's prefix |
| Scenarios.PairRound | network_ping_comparator.py:124-133 | a round on the two hosts of a /30 keeps, in order, each host whose exit code is non-zero |
| Scenarios.RetryExample | network_ping_comparator.py:102-116 | on a /30 where both hosts fail round 1, a host that fails again is alone stored; if both reply on retry, nothing is stored |

## Left out

- Processes: `Popen`, `wait`, `DEVNULL` and `STDOUT` are not modelled. Exit codes come from the `Probe` oracle, indexed by round.
- Concurrency: `multiprocessing.Process`, `Manager().dict()`, `start` and `join` are not modelled. `run`'s two processes are sequential calls, each on its own copy of the object, writing to one shared table. Interleavings are not modelled.
- Printing: the `print` in `run` is left out, because it is output only.
- Platform: `platform.system()` is a parameter, not a call.
- Network parsing: `ip_network` parsing of text is not modelled. A network is a `Cidr` value and its text is the canonical key. Non-canonical texts (leading zeros, a missing prefix) are not covered.
- A rejected network (`ValueError` in the child process) is modelled as storing nothing. The traceback is not modelled.
- Lowering: `lower()` is modelled for ASCII letters only.
- Bare-string exclusions: `exclude_host` given a bare string (as one test does) is not modelled; its `in` would test substrings. The exclusion list is a sequence of strings.
- Set order: Python leaves the iteration order of a `set` unspecified. `Sweep.OnlyIn` fixes first-occurrence order, and the report lemmas state only facts that hold for every order.
- Errors: the `KeyError` of `output` is an `Outcome` value, not an exception.
- Entry point: the `__main__` block and its module constants `NETWORK_1`, `NETWORK_2` and `EXCLUDED_HOST` are left out.

## Findings

| source | as written | input that shows it | evidently intended | confidence | as-written member | corrected member |
|---|---|---|---|---|---|---|
| network_ping_comparator.py:81-83 | when `ping_failures` is None, `output` runs the sweeps and calls itself, but drops the inner call's result: it returns None when both networks were stored, and raises KeyError otherwise | a new comparator whose `output()` is called without calling `run()` first | return the report of the recursive call (`return self.output()`), as its docstring and return type promise | high, not executed | Comparator.OutputBeforeRun | Comparator.OutputBeforeRunIntended |
