/** Concrete instances of the model: the networks, failure lists and command lines
    of the repository's unit tests, and an illustrative retry on a small network. */
module Scenarios {
  import opened PyStr
  import opened IPv4
  import opened Sweep

  /** `NETWORK_1` and `NETWORK_2`: 192.168.1.0/24 and 192.168.2.0/24. */
  function Net1(): Cidr { Cidr(0xC0A8_0100, 24) }
  function Net2(): Cidr { Cidr(0xC0A8_0200, 24) }

  lemma ExampleOctets()
    ensures Octet(0xC0A8_0100, 0) == 192 && Octet(0xC0A8_0100, 1) == 168 && Octet(0xC0A8_0100, 2) == 1
    ensures Octet(0xC0A8_0100, 3) == 0
    ensures Octet(0xC0A8_0200, 0) == 192 && Octet(0xC0A8_0200, 1) == 168 && Octet(0xC0A8_0200, 2) == 2
    ensures Octet(0xC0A8_0200, 3) == 0
    ensures 0xC0A8_0114 % 256 == 20 && 0xC0A8_0214 % 256 == 20
  {
  }

  lemma ExampleDigits()
    ensures Dec(192) == "192" && Dec(168) == "168" && Dec(0) == "0" && Dec(1) == "1"
    ensures Dec(2) == "2" && Dec(24) == "24" && Dec(20) == "20"
  {
  }

  lemma ExampleKeys()
    ensures Key(Net1()) == "192.168.1.0/24"
    ensures Key(Net2()) == "192.168.2.0/24"
  {
    ExampleOctets();
    ExampleDigits();
  }

  lemma ExamplePrefix1()
    ensures NetPrefix(Net1()) == "192.168.1"
  {
    NetPrefixIsThreeOctets(Net1());
    ExampleOctets();
    ExampleDigits();
    assert "192" + "." + "168" + "." + "1" == "192.168.1";
  }

  lemma ExamplePrefix2()
    ensures NetPrefix(Net2()) == "192.168.2"
  {
    NetPrefixIsThreeOctets(Net2());
    ExampleOctets();
    ExampleDigits();
    assert "192" + "." + "168" + "." + "2" == "192.168.2";
  }

  lemma ExampleIds()
    ensures Ids([0xC0A8_0114]) == ["20"] && Ids([0xC0A8_0214]) == ["20"] && Ids([]) == []
  {
    ExampleOctets();
    ExampleDigits();
  }

  lemma ExampleText()
    ensures "192.168.1" + "." + "20" == "192.168.1.20" && "192.168.2" + "." + "20" == "192.168.2.20"
  {
  }

  lemma ExampleOnlyIn()
    ensures OnlyIn(["20"], []) == ["20"] && OnlyIn([], ["20"]) == [] && OnlyIn([], []) == []
  {
  }

  lemma ExampleReports()
    ensures Report("192.168.1", "192.168.2", ["20"], []) == ["192.168.1.20"]
    ensures Report("192.168.1", "192.168.2", [], ["20"]) == ["192.168.2.20"]
    ensures Report("192.168.1", "192.168.2", [], []) == []
  {
    ExampleOnlyIn();
    ExampleText();
    assert Rendered("192.168.1", ["20"])[0] == "192.168.1.20";
    assert Rendered("192.168.2", ["20"])[0] == "192.168.2.20";
  }

  /** The output tests: with no failures on either network the report is empty;
      192.168.1.20 failing on network 1 only reports exactly `"192.168.1.20"`, and
      192.168.2.20 failing on network 2 only reports exactly `"192.168.2.20"`. */
  lemma MismatchExample()
    ensures Mismatch(Net1(), Net2(), map[Key(Net1()) := [], Key(Net2()) := []]) == Mismatches([])
    ensures Mismatch(Net1(), Net2(), map[Key(Net1()) := [0xC0A8_0114], Key(Net2()) := []]) == Mismatches(["192.168.1.20"])
    ensures Mismatch(Net1(), Net2(), map[Key(Net1()) := [], Key(Net2()) := [0xC0A8_0214]]) == Mismatches(["192.168.2.20"])
  {
    ExampleKeys();
    ExamplePrefix1();
    ExamplePrefix2();
    ExampleIds();
    ExampleReports();
    assert "192.168.1.0/24"[8] != "192.168.2.0/24"[8];
  }

  lemma ExampleHosts()
    ensures ValidCidr(Cidr(0x0A00_0000, 30))
    ensures Hosts(Cidr(0x0A00_0000, 30)) == [0x0A00_0001, 0x0A00_0002]
  {
    assert Pow2(2) == 4;
  }

  /** Round 1: every host fails; round 2: only 10.0.0.1 fails. */
  function FlakyProbe(r: nat, h: Addr): int {
    if r == 0 || h == 0x0A00_0001 then 1 else 0
  }

  /** Round 1: every host fails; round 2: every host replies. */
  function TransientProbe(r: nat, h: Addr): int {
    if r == 0 then 1 else 0
  }

  /** One round on the two hosts of 10.0.0.0/30 keeps each host whose exit code is
      non-zero, in order. */
  lemma PairRound(probe: Probe, r: nat)
    ensures Round([0x0A00_0001, 0x0A00_0002], None, probe, r) ==
      (if probe(r, 0x0A00_0001) == 0 then [] else [0x0A00_0001]) + (if probe(r, 0x0A00_0002) == 0 then [] else [0x0A00_0002])
  {
  }

  /** The single rounds on the two hosts of 10.0.0.0/30 under both oracles. */
  lemma ExampleRounds()
    ensures var hs: seq<Addr> := [0x0A00_0001, 0x0A00_0002];
      Round(hs, None, FlakyProbe, 0) == hs && Round(hs, None, FlakyProbe, 1) == [0x0A00_0001] &&
      Round(hs, None, TransientProbe, 0) == hs && Round(hs, None, TransientProbe, 1) == []
  {
    PairRound(FlakyProbe, 0);
    PairRound(FlakyProbe, 1);
    PairRound(TransientProbe, 0);
    PairRound(TransientProbe, 1);
  }

  /** Retry narrowing on 10.0.0.0/30: both hosts fail round 1 and are re-probed in
      round 2; if only 10.0.0.1 fails again, it alone is stored; if both reply,
      nothing is. */
  lemma RetryExample()
    ensures ValidCidr(Cidr(0x0A00_0000, 30))
    ensures SweepTrace(Cidr(0x0A00_0000, 30), None, FlakyProbe, NUM_ATTEMPTS) == [[0x0A00_0001, 0x0A00_0002], [0x0A00_0001]]
    ensures SweepResult(Cidr(0x0A00_0000, 30), None, FlakyProbe, NUM_ATTEMPTS) == [0x0A00_0001]
    ensures SweepResult(Cidr(0x0A00_0000, 30), None, TransientProbe, NUM_ATTEMPTS) == []
  {
    ExampleHosts();
    ExampleRounds();
    var hs: seq<Addr> := [0x0A00_0001, 0x0A00_0002];
    assert RetryRounds(hs, None, FlakyProbe, 1, 1) == [[0x0A00_0001]] + RetryRounds([0x0A00_0001], None, FlakyProbe, 2, 0);
    assert RetryRounds(hs, None, TransientProbe, 1, 1) == [[]] + RetryRounds([], None, TransientProbe, 2, 0);
  }

  /** The command lines the tests expect for `platform.system()` returning
      `"Windows"` and `"Linux"`. */
  lemma PingArgvExamples()
    ensures PingArgv("Windows", "127.0.0.1") == ["ping", "-n", "1", "127.0.0.1", "-w", "2000"]
    ensures PingArgv("Linux", "127.0.0.1") == ["ping", "-c", "1", "127.0.0.1", "-W", "2"]
  {
    assert Lower("Windows") == "windows";
    assert Lower("Linux")[0] == 'l';
    PingArgvByPlatform("Windows", "127.0.0.1");
    PingArgvByPlatform("Linux", "127.0.0.1");
  }
}
