/**
 Finding a free address of a subnet by counting down from its broadcast address.
 Addresses are numbers; a netmask keeps all but the lowest bits, so the part of an
 address that it leaves is the remainder by the number of addresses in the subnet.
 */
module IpAllocator {
  import opened Arithmetic
  import opened TrackerTypes

  const SPACE := 0x1_0000_0000

  function Power(k: nat): (n: nat)
    ensures n > 0
  {
    if k == 0 then 1 else 2 * Power(k - 1)
  }

  // The address that a number stands for.
  function Wrap(a: int): Ip {
    a % SPACE
  }

  // A subnet of 2 to the k addresses.
  function Size(k: nat): nat {
    Power(k)
  }

  function HostPart(a: int, k: nat): nat {
    a % Size(k)
  }

  function Base(a: int, k: nat): int {
    a - HostPart(a, k)
  }

  lemma BaseAndHost(a: int, k: nat, h: nat)
    requires h < Size(k)
    ensures HostPart(Base(a, k) + h, k) == h && Base(Base(a, k) + h, k) == Base(a, k)
  {
    var n, q := Size(k), a / Size(k);
    assert Base(a, k) == n * q;
    QuotientIs(n * q + h, n, q);
  }

  // Subnets do not reach across the end of the address space.
  lemma {:induction false} SpaceIsDivided(k: nat)
    requires k <= 32
    ensures SPACE == Size(k) * Power(32 - k)
    decreases 32 - k
  {
    if k == 32 {
      Doubles(32);
    } else {
      SpaceIsDivided(k + 1);
      DoubleEither(Size(k), Power(31 - k));
    }
  }

  lemma DoubleEither(a: nat, b: nat)
    ensures (2 * a) * b == a * (2 * b)
  {
  }

  lemma Doubles(k: nat)
    requires k == 32
    ensures Power(k) == SPACE
  {
    assert Power(8) == 256 by {
      assert Power(4) == 16;
    }
    assert Power(16) == 65536 by {
      assert Power(12) == 4096;
    }
    assert Power(24) == 0x100_0000 by {
      assert Power(20) == 0x10_0000;
    }
    assert Power(28) == 0x1000_0000;
  }

  lemma SubnetFits(a: Ip, k: nat)
    requires k <= 32
    ensures 0 <= Base(a, k) && Base(a, k) + Size(k) <= SPACE
  {
    SpaceIsDivided(k);
    PartFits(a, Size(k), Power(32 - k));
  }

  lemma PartFits(a: nat, n: nat, m: nat)
    requires n > 0 && a < n * m
    ensures 0 <= a - a % n && a - a % n + n <= n * m
  {
    var q := a / n;
    Multiples(n, q, m);
    Multiples(n, m - 1, q);
    assert a - a % n == n * q && n * (m - 1) == n * m - n;
  }

  // The next address when counting by n.  The inverted netmask is a negative number,
  // with which the host part is compared for the top of the range.
  function NextAddress(a: Ip, k: nat, n: int): Option<Ip> {
    var next := Wrap(a + n);
    var inverted := -(SPACE - Size(k)) - 1;
    if HostPart(next, k) == inverted then None
    else if HostPart(next, k) == 0 then None
    else Some(next)
  }

  // So the top is never noticed: only the network address is refused.
  lemma OnlyBottomIsRefused(a: Ip, k: nat, n: int)
    requires k <= 32
    ensures NextAddress(a, k, n) == None <==> HostPart(Wrap(a + n), k) == 0
  {
    SubnetFits(0, k);
  }

  // Counting up, the broadcast address is given out.
  lemma UpwardsMeetsBroadcast(a: Ip, k: nat)
    requires 1 < k <= 32 && HostPart(a, k) == Size(k) - 2
    ensures NextAddress(a, k, 1) == Some(a + 1) && HostPart(a + 1, k) == Size(k) - 1
  {
    hide Size, HostPart;
    SubnetFits(a, k);
    BaseAndHost(a, k, Size(k) - 1);
    OnlyBottomIsRefused(a, k, 1);
  }

  // The number that an address stands for has its host part, as subnets do not reach
  // across the end of the address space.
  lemma WrapKeepsHost(a: int, k: nat)
    requires k <= 32
    ensures HostPart(Wrap(a), k) == HostPart(a, k)
  {
    SpaceIsDivided(k);
    MultiplesApart(a, Size(k), Power(32 - k));
  }

  lemma MultiplesApart(a: int, n: nat, m: nat)
    requires n > 0 && m > 0 && n * m > 0
    ensures (a % (n * m)) % n == a % n
  {
    var q := a / (n * m);
    var b := a % (n * m);
    assert a == (n * m) * q + b == n * (m * q) + b;
    assert n * (m * q) + n * (b / n) == n * (m * q + b / n);
    QuotientIs(a, n, m * q + b / n);
  }

  // Counting gives the broadcast address in exactly the cases where the count comes to
  // the top of a subnet of more than one address.
  lemma GivesBroadcastIff(a: Ip, k: nat, n: int)
    requires k <= 32
    ensures (NextAddress(a, k, n).Some? && HostPart(NextAddress(a, k, n).value, k) == Size(k) - 1)
            <==> k > 0 && HostPart(a + n, k) == Size(k) - 1
  {
    WrapKeepsHost(a + n, k);
    OnlyBottomIsRefused(a, k, n);
    hide HostPart;
  }

  class IPGenerator {
    const k: nat
    var addr: Ip

    // Starts from the broadcast address of the network.
    constructor (network: Ip, k: nat)
      requires k <= 32
      ensures this.k == k && addr == Base(network, k) + Size(k) - 1
    {
      SubnetFits(network, k);
      this.k := k;
      addr := Base(network, k) + (Size(k) - 1);
    }

    method Next(n: int) returns (ok: bool)
      modifies this
      ensures ok <==> NextAddress(old(addr), k, n).Some?
      ensures addr == if ok then NextAddress(old(addr), k, n).value else old(addr)
    {
      var next := NextAddress(addr, k, n);
      ok := next.Some?;
      if ok {
        addr := next.value;
      }
    }
  }

  // The addresses that hosts of the subnet may have: all but the network's own and the
  // broadcast address.
  predicate IsHost(a: int, network: Ip, k: nat) {
    Base(network, k) < a < Base(network, k) + Size(k) - 1
  }

  // The highest free address that a host of the subnet may have, or none.
  method GetNextIP(network: Ip, k: nat, taken: set<Ip>) returns (r: Option<Ip>)
    requires k <= 32
    ensures r == None <==> forall a: Ip | IsHost(a, network, k) :: a in taken
    ensures r.Some? ==> IsHost(r.value, network, k) && r.value !in taken
    ensures r.Some? ==> forall a: Ip | IsHost(a, network, k) && a > r.value :: a in taken
  {
    SubnetFits(network, k);
    var ip := new IPGenerator(network, k);
    ghost var base := Base(network, k);
    ghost var h := Size(k) - 1;
    while true
      invariant ip.k == k && 0 <= h < Size(k) && ip.addr == base + h && (h > 0 || Size(k) == 1)
      invariant forall a: Ip | IsHost(a, network, k) && a >= base + h :: a in taken
      decreases h
    {
      OnlyBottomIsRefused(ip.addr, k, -1);
      Below(network, k, h);
      var ok := ip.Next(-1);
      if !ok {
        return None;
      }
      h := h - 1;
      if ip.addr !in taken {
        return Some(ip.addr);
      }
    }
  }

  // Counting down from host h of the subnet; in a subnet of one address every address is the network's.
  lemma Below(network: Ip, k: nat, h: nat)
    requires k <= 32 && h < Size(k) && (h > 0 || Size(k) == 1)
    ensures h > 0 ==> Wrap(Base(network, k) + h - 1) == Base(network, k) + h - 1
    ensures h > 0 ==> HostPart(Base(network, k) + h - 1, k) == h - 1
    ensures h == 0 ==> HostPart(Wrap(Base(network, k) + h - 1), k) == 0
  {
    SubnetFits(network, k);
    if h > 0 {
      BaseAndHost(network, k, h - 1);
    }
  }
}
