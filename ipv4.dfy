/** The part of Python's `ipaddress` module the comparator uses: IPv4 addresses,
    their dotted-quad text, a network given in CIDR form and the list of its
    usable hosts (`ip_network(net).hosts()`). */
module IPv4 {
  import opened PyStr

  /** An IPv4 address as its 32-bit value. */
  type Addr = x: int | 0 <= x < 0x1_0000_0000

  function Pow2(k: nat): (p: nat)
    ensures p >= 1
  {
    if k == 0 then 1 else 2 * Pow2(k - 1)
  }

  /** Octet `k` (0 is the leftmost) of an address. */
  function Octet(h: Addr, k: nat): (o: nat)
    requires k < 4
    ensures o < 256
  {
    if k == 0 then h / 0x100_0000
    else if k == 1 then h / 0x1_0000 % 256
    else if k == 2 then h / 0x100 % 256
    else h % 256
  }

  /** `str(IPv4Address(h))`: the four octets in decimal, separated by dots. */
  function Dotted(h: Addr): string {
    Dec(Octet(h, 0)) + "." + Dec(Octet(h, 1)) + "." + Dec(Octet(h, 2)) + "." + Dec(Octet(h, 3))
  }

  lemma DigitsNoDot(s: string)
    requires IsDigits(s)
    ensures '.' !in s
  {
  }

  /** Four dot-free strings joined by dots split back into those four strings. */
  lemma SplitFour(d0: string, d1: string, d2: string, d3: string)
    requires '.' !in d0 && '.' !in d1 && '.' !in d2 && '.' !in d3
    ensures Split(d0 + ['.'] + (d1 + ['.'] + (d2 + ['.'] + d3)), '.') == [d0, d1, d2, d3]
  {
    SplitNone(d3, '.');
    SplitCons(d2, '.', d3);
    SplitCons(d1, '.', d2 + ['.'] + d3);
    SplitCons(d0, '.', d1 + ['.'] + (d2 + ['.'] + d3));
  }

  /** The dotted text splits at its dots into exactly the four octets. */
  lemma DottedSplit(h: Addr)
    ensures Split(Dotted(h), '.') == [Dec(Octet(h, 0)), Dec(Octet(h, 1)), Dec(Octet(h, 2)), Dec(Octet(h, 3))]
  {
    var d0, d1, d2, d3 := Dec(Octet(h, 0)), Dec(Octet(h, 1)), Dec(Octet(h, 2)), Dec(Octet(h, 3));
    DigitsNoDot(d0); DigitsNoDot(d1); DigitsNoDot(d2); DigitsNoDot(d3);
    assert Dotted(h) == d0 + ['.'] + (d1 + ['.'] + (d2 + ['.'] + d3));
    SplitFour(d0, d1, d2, d3);
  }

  /** The host identifier the comparator matches across networks: the decimal
      text of the last octet. */
  function HostId(h: Addr): string {
    Dec(h % 256)
  }

  /** The identifier is what `str(h).split('.')[3]` yields: the fourth dot-separated
      field of the dotted text. */
  lemma HostIdIsLastField(h: Addr)
    ensures |Split(Dotted(h), '.')| == 4
    ensures HostId(h) == Split(Dotted(h), '.')[3]
  {
    DottedSplit(h);
  }

  /** Host identifiers are non-empty strings of digits, so they hold no dot. */
  lemma HostIdDigits(h: Addr)
    ensures HostId(h) != [] && IsDigits(HostId(h)) && '.' !in HostId(h)
  {
    DigitsNoDot(HostId(h));
  }

  /** An IPv4 network in CIDR form: base address and prefix length. */
  datatype Cidr = Cidr(address: Addr, prefix: nat)

  /** Number of addresses the network spans. */
  function Size(c: Cidr): nat {
    if c.prefix <= 32 then Pow2(32 - c.prefix) else 1
  }

  /** The `k` lowest bits of `a` are zero. */
  predicate Aligned(a: nat, k: nat) {
    k == 0 || (a % 2 == 0 && Aligned(a / 2, k - 1))
  }

  /** What `ip_network` accepts in its default strict mode: a prefix of at most 32
      bits and no host bits set in the address. */
  predicate ValidCidr(c: Cidr) {
    c.prefix <= 32 && Aligned(c.address, 32 - c.prefix)
  }

  /** The network and broadcast addresses. */
  function Broadcast(c: Cidr): int {
    c.address + Size(c) - 1
  }

  predicate InNetwork(c: Cidr, h: int) {
    c.address <= h <= Broadcast(c)
  }

  /** The string the network is written as, and under which its result is stored:
      `"a.b.c.d/p"`. */
  function Key(c: Cidr): string {
    Dotted(c.address) + "/" + Dec(c.prefix)
  }

  /** `net.rsplit('.', 1)[0]`: the network text up to its last dot. */
  function NetPrefix(c: Cidr): string {
    RSplitOnce(Key(c), '.')[0]
  }

  /** The prefix is the first three octets of the network address. */
  lemma NetPrefixIsThreeOctets(c: Cidr)
    ensures NetPrefix(c) == Dec(Octet(c.address, 0)) + "." + Dec(Octet(c.address, 1)) + "." + Dec(Octet(c.address, 2))
  {
    var head := Dec(Octet(c.address, 0)) + "." + Dec(Octet(c.address, 1)) + "." + Dec(Octet(c.address, 2));
    var tail := Dec(Octet(c.address, 3)) + "/" + Dec(c.prefix);
    DigitsNoDot(Dec(Octet(c.address, 3)));
    DigitsNoDot(Dec(c.prefix));
    assert '.' !in tail;
    assert Key(c) == head + ['.'] + tail;
    RSplitOnceOf(head, '.', tail);
  }

  lemma {:induction false} Pow2Split(a: nat, b: nat)
    ensures Pow2(a + b) == Pow2(a) * Pow2(b)
    decreases a
  {
    if a > 0 {
      Pow2Split(a - 1, b);
    }
  }

  lemma Pow2Of32()
    ensures Pow2(32) == 0x1_0000_0000
  {
    assert Pow2(4) == 16;
    assert Pow2(8) == 256;
    Pow2Split(8, 8);
    Pow2Split(16, 16);
  }

  /** An address whose `k` lowest bits are zero is a multiple of `2^k`. */
  lemma {:induction false} AlignedMultiple(a: nat, k: nat) returns (q: nat)
    requires Aligned(a, k)
    ensures a == Pow2(k) * q
    decreases k
  {
    if k == 0 {
      q := a;
    } else {
      q := AlignedMultiple(a / 2, k - 1);
      var p := Pow2(k - 1);
      assert a == 2 * (a / 2);
      assert 2 * (p * q) == (2 * p) * q;
    }
  }

  /** A multiple `s * q` below `s * m` is at most `s * (m - 1)`. */
  lemma MultipleBelow(a: nat, s: nat, m: nat, q: nat)
    requires s >= 1 && a == s * q && a < s * m
    ensures a + s <= s * m
  {
    assert q < m by {
      if q >= m {
        MulNonNegative(s, q - m);
      }
    }
    MulNonNegative(s, m - q - 1);
    assert s * m - (a + s) == s * (m - q - 1);
  }

  lemma MulNonNegative(x: int, y: int)
    requires x >= 0 && y >= 0
    ensures x * y >= 0
  {
  }

  /** A valid network ends inside the 32-bit address space. */
  lemma BroadcastInRange(c: Cidr)
    requires ValidCidr(c)
    ensures Broadcast(c) < 0x1_0000_0000
  {
    Pow2Split(32 - c.prefix, c.prefix);
    Pow2Of32();
    var q := AlignedMultiple(c.address, 32 - c.prefix);
    MultipleBelow(c.address, Size(c), Pow2(c.prefix), q);
  }

  /** The consecutive addresses `lo, lo + 1, ..., hi - 1`. */
  function Range(lo: Addr, hi: int): seq<Addr>
    requires lo <= hi <= 0x1_0000_0000
    decreases hi - lo
  {
    if lo == hi then [] else Range(lo, hi - 1) + [hi - 1]
  }

  /** `Range(lo, hi)` holds `hi - lo` addresses, the `i`-th being `lo + i`. */
  lemma {:induction false} RangeSpec(lo: Addr, hi: int)
    requires lo <= hi <= 0x1_0000_0000
    ensures |Range(lo, hi)| == hi - lo
    ensures forall i :: 0 <= i < hi - lo ==> Range(lo, hi)[i] == lo + i
    decreases hi - lo
  {
    if lo < hi {
      RangeSpec(lo, hi - 1);
    }
  }

  /** `list(ip_network(c).hosts())`: every address strictly between the network and
      broadcast addresses; a /31 yields both of its addresses and a /32 its only one. */
  function Hosts(c: Cidr): seq<Addr>
    requires ValidCidr(c)
  {
    BroadcastInRange(c);
    if c.prefix == 32 then [c.address]
    else if c.prefix == 31 then Range(c.address, c.address + 2)
    else Range(c.address + 1, Broadcast(c))
  }

  predicate Ascending(s: seq<Addr>) {
    forall i, j :: 0 <= i < j < |s| ==> s[i] < s[j]
  }

  /** For a prefix of at most 30 bits, the hosts are exactly the addresses of the
      network other than its network and broadcast addresses, in ascending order,
      and there are 2^(32 - prefix) - 2 of them. */
  lemma HostsOfNetwork(c: Cidr)
    requires ValidCidr(c) && c.prefix <= 30
    ensures |Hosts(c)| == Pow2(32 - c.prefix) - 2
    ensures Ascending(Hosts(c))
    ensures forall h: Addr :: h in Hosts(c) <==> InNetwork(c, h) && h != c.address && h != Broadcast(c)
  {
    assert Pow2(32 - c.prefix) >= 4 by {
      Pow2Split(2, 30 - c.prefix);
      assert Pow2(2) == 4;
    }
    BroadcastInRange(c);
    RangeSpec(c.address + 1, Broadcast(c));
    var r := Hosts(c);
    forall h: Addr ensures h in r <==> InNetwork(c, h) && h != c.address && h != Broadcast(c) {
      if InNetwork(c, h) && h != c.address && h != Broadcast(c) {
        assert r[h - c.address - 1] == h;
      }
    }
  }

  /** A /31 yields its two addresses and a /32 its single address. */
  lemma HostsOfPointToPoint(c: Cidr)
    requires ValidCidr(c) && c.prefix >= 31
    ensures Ascending(Hosts(c))
    ensures forall h: Addr :: h in Hosts(c) <==> InNetwork(c, h)
  {
    assert Pow2(1) == 2;
    BroadcastInRange(c);
    if c.prefix == 31 {
      RangeSpec(c.address, c.address + 2);
    }
    var r := Hosts(c);
    forall h: Addr ensures h in r <==> InNetwork(c, h) {
      if InNetwork(c, h) {
        assert r[h - c.address] == h;
      }
    }
  }

  /** Every host of a valid network lies inside it, in ascending order. */
  lemma HostsInNetwork(c: Cidr)
    requires ValidCidr(c)
    ensures Ascending(Hosts(c))
    ensures forall h :: h in Hosts(c) ==> InNetwork(c, h)
  {
    if c.prefix <= 30 {
      HostsOfNetwork(c);
    } else {
      HostsOfPointToPoint(c);
    }
  }
}
