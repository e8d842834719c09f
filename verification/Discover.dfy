/** The host addresses of an IPv4 network, one at a time and as a list. */
module Discover {
  import opened Octets

  const MAX_HOST_BITS := 20

  //
  // Addresses as numbers.
  //

  /** The number the bytes stand for, most significant first. */
  function Value(ip: bytes): nat {
    if ip == [] then 0 else Value(ip[..|ip| - 1]) * 0x100 + ip[|ip| - 1]
  }

  function Pow256(n: nat): nat {
    if n == 0 then 1 else Pow256(n - 1) * 0x100
  }

  lemma {:induction false} ValueBound(ip: bytes)
    ensures Value(ip) < Pow256(|ip|)
  {
    if ip != [] {
      ValueBound(ip[..|ip| - 1]);
    }
  }

  lemma {:induction false} ValueInjective(a: bytes, b: bytes)
    requires |a| == |b| && Value(a) == Value(b)
    ensures a == b
  {
    if a != [] {
      ValueInjective(a[..|a| - 1], b[..|b| - 1]);
      assert a == a[..|a| - 1] + [a[|a| - 1]] && b == b[..|b| - 1] + [b[|b| - 1]];
    }
  }

  /** The next address: the last byte goes up, and carries when it wraps. */
  function Inc(ip: bytes): (r: bytes)
    ensures |r| == |ip|
  {
    if ip == [] then []
    else
      var init, last := ip[..|ip| - 1], ip[|ip| - 1];
      if last < 0xFF then init + [last + 1] else Inc(init) + [0]
  }

  lemma ValueSnoc(init: bytes, last: byte)
    ensures Value(init + [last]) == Value(init) * 0x100 + last
  {
    assert (init + [last])[..|init|] == init;
  }

  lemma IncSnoc(init: bytes, last: byte)
    ensures Inc(init + [last]) == if last < 0xFF then init + [last + 1] else Inc(init) + [0]
  {
    assert (init + [last])[..|init|] == init;
  }

  /** Counting up by one, and from the last address to 0. */
  lemma {:induction false} IncValue(ip: bytes)
    ensures Value(Inc(ip)) == if Value(ip) + 1 == Pow256(|ip|) then 0 else Value(ip) + 1
    decreases |ip|, 0
  {
    if ip != [] {
      IncValueSnoc(ip[..|ip| - 1], ip[|ip| - 1]);
      assert ip == ip[..|ip| - 1] + [ip[|ip| - 1]];
    }
  }

  lemma {:induction false} IncValueSnoc(init: bytes, last: byte)
    ensures var ip := init + [last];
      Value(Inc(ip)) == if Value(ip) + 1 == Pow256(|ip|) then 0 else Value(ip) + 1
    decreases |init|, 1
  {
    hide Value, Inc;
    ValueSnoc(init, last);
    IncSnoc(init, last);
    if last < 0xFF {
      ValueSnoc(init, last + 1);
      ValueBound(init);
    } else {
      IncValue(init);
      ValueSnoc(Inc(init), 0);
    }
  }

  /** Byte j went up and the bytes after it wrapped; with j == -1 all of them wrapped. */
  ghost predicate Counted(was: bytes, now: bytes, j: int) {
    && |now| == |was| && -1 <= j < |was|
    && (forall k :: 0 <= k < j ==> now[k] == was[k])
    && (j >= 0 ==> was[j] < 0xFF && now[j] == was[j] + 1)
    && (forall k :: j < k < |was| ==> was[k] == 0xFF && now[k] == 0)
  }

  lemma {:induction false} CountedIsInc(was: bytes, now: bytes, j: int)
    requires Counted(was, now, j)
    ensures now == Inc(was)
  {
    if was != [] {
      var n := |was| - 1;
      assert now == now[..n] + [now[n]];
      if j < n {
        CountedIsInc(was[..n], now[..n], j);
      } else {
        assert now[..n] == was[..n];
      }
    }
  }

  /** Counts an address up in place. */
  method IncIP(ip: array<byte>)
    modifies ip
    ensures ip[..] == Inc(old(ip[..]))
  {
    hide Inc;
    ghost var was := ip[..];
    var j := ip.Length - 1;
    while j >= 0
      invariant -1 <= j < ip.Length
      invariant forall k :: 0 <= k <= j ==> ip[k] == was[k]
      invariant forall k :: j < k < ip.Length ==> was[k] == 0xFF && ip[k] == 0
    {
      ip[j] := if ip[j] == 0xFF then 0 else ip[j] + 1;
      if ip[j] > 0 {
        break;
      }
      j := j - 1;
    }
    CountedIsInc(was, ip[..], j);
  }

  //
  // The addresses of a network.
  //

  /** The i-th address of a network that begins at base. */
  function Nth(base: bytes, i: nat): (r: bytes)
    ensures |r| == |base|
  {
    if i == 0 then base else Inc(Nth(base, i - 1))
  }

  lemma {:induction false} NthValue(base: bytes, i: nat)
    requires Value(base) + i <= Pow256(|base|)
    ensures Value(Nth(base, i)) == if Value(base) + i == Pow256(|base|) then 0 else Value(base) + i
  {
    ValueBound(base);
    if i > 0 {
      NthValue(base, i - 1);
      IncValue(Nth(base, i - 1));
    }
  }

  function Range(base: bytes, lo: nat, hi: nat): (r: seq<bytes>)
    requires lo <= hi
    ensures |r| == hi - lo && forall i :: 0 <= i < |r| ==> r[i] == Nth(base, lo + i)
  {
    seq(hi - lo, i requires 0 <= i < hi - lo => Nth(base, lo + i))
  }

  lemma {:induction false} Pow2Grows(a: nat, b: nat)
    requires a < b
    ensures 0 < Pow2(a) < Pow2(b)
    decreases b
  {
    if a + 1 < b {
      Pow2Grows(a, b - 1);
    }
    if a > 0 {
      Pow2Grows(a - 1, a);
    }
  }

  lemma EightMore(k: nat)
    ensures Pow2(k + 8) == Pow2(k) * 0x100
  {
    assert Pow2(k + 2) == 2 * Pow2(k + 1) == 4 * Pow2(k);
    assert Pow2(k + 4) == 2 * Pow2(k + 3) == 4 * Pow2(k + 2);
    assert Pow2(k + 6) == 2 * Pow2(k + 5) == 4 * Pow2(k + 4);
    assert Pow2(k + 8) == 2 * Pow2(k + 7) == 4 * Pow2(k + 6);
  }

  lemma {:induction false} ByteIsEightBits(n: nat)
    ensures Pow256(n) == Pow2(8 * n)
  {
    if n > 0 {
      ByteIsEightBits(n - 1);
      EightMore(8 * n - 8);
    }
  }

  lemma FourBytes()
    ensures Pow256(4) == Pow2(32)
  {
    ByteIsEightBits(4);
  }

  /** A number without its last bits. */
  function Prefix(v: nat, bits: nat): nat {
    if bits == 0 then v else Prefix(v / 2, bits - 1)
  }

  /** Its last bits are 0. */
  predicate Masked(v: nat, bits: nat) {
    bits == 0 || (v % 2 == 0 && Masked(v / 2, bits - 1))
  }

  /** A network: its first address, whose host bits are 0, and the number of host bits. */
  ghost predicate Network(base: bytes, hostBits: nat) {
    |base| == 4 && hostBits <= 32 && Masked(Value(base), hostBits)
  }

  /** The hosts: all addresses of a network of one or two, otherwise all but the first and the last. */
  function Hosts(base: bytes, total: nat): seq<bytes> {
    if total <= 2 then Range(base, 0, total) else Range(base, 1, total - 1)
  }

  /** Without their host bits the addresses are the same. */
  predicate Contains(base: bytes, hostBits: nat, ip: bytes) {
    Prefix(Value(ip), hostBits) == Prefix(Value(base), hostBits)
  }

  lemma {:induction false} SamePrefix(v: nat, base: nat, bits: nat)
    requires Masked(base, bits)
    ensures Prefix(v, bits) == Prefix(base, bits) <==> base <= v < base + Pow2(bits)
    decreases bits
  {
    if bits > 0 {
      SamePrefix(v / 2, base / 2, bits - 1);
    }
  }

  lemma {:induction false} MaskedFits(base: nat, bits: nat, width: nat)
    requires Masked(base, bits) && bits <= width && base < Pow2(width)
    ensures base + Pow2(bits) <= Pow2(width)
    decreases bits
  {
    if bits > 0 {
      MaskedFits(base / 2, bits - 1, width - 1);
    }
  }

  /** So a network is an interval of addresses. */
  lemma ContainsIsInterval(base: bytes, hostBits: nat, ip: bytes)
    requires Network(base, hostBits)
    ensures Contains(base, hostBits, ip) <==> Value(base) <= Value(ip) < Value(base) + Pow2(hostBits)
    ensures Value(base) + Pow2(hostBits) <= Pow256(4)
  {
    hide Value, Pow2, Pow256;
    SamePrefix(Value(ip), Value(base), hostBits);
    ValueBound(base);
    FourBytes();
    MaskedFits(Value(base), hostBits, 32);
  }

  lemma HostAt(base: bytes, total: nat)
    ensures var hosts := Hosts(base, total);
      && |hosts| == (if total <= 2 then total else total - 2)
      && forall k :: 0 <= k < |hosts| ==> hosts[k] == Nth(base, (if total <= 2 then 0 else 1) + k)
  {
  }

  lemma NthNext(base: bytes, i: nat)
    ensures Nth(base, 0) == base && Inc(Nth(base, i)) == Nth(base, i + 1)
  {
  }

  /** Sends the hosts one at a time, until told to stop; None when the network is too large. */
  method StreamCIDR(base: bytes, hostBits: nat, accept: seq<bytes> -> bool) returns (r: Option<seq<bytes>>)
    requires Network(base, hostBits)
    ensures r.None? <==> hostBits > 20
    ensures r.Some? ==> r.value <= Hosts(base, Pow2(hostBits))
    ensures r.Some? && (forall sent :: accept(sent)) ==> r.value == Hosts(base, Pow2(hostBits))
    ensures r.Some? && r.value < Hosts(base, Pow2(hostBits)) ==> !accept(r.value)
  {
    hide Nth, Hosts, Inc, Value, Pow2, Pow256;
    if hostBits > MAX_HOST_BITS {
      return None;
    }
    var total := Pow2(hostBits);
    Pow2Grows(hostBits, hostBits + 1);
    assert total > 0;
    var skipEnds := total > 2;
    var lo: nat := if skipEnds then 1 else 0;
    ghost var hosts := Hosts(base, total);
    HostAt(base, total);
    NthNext(base, 0);
    var ip := new byte[4](i requires 0 <= i < 4 => base[i]);
    var sent: seq<bytes> := [];
    assert ip[..] == base;
    for idx := 0 to total
      invariant ip[..] == Nth(base, if idx == total && skipEnds then total - 1 else idx)
      invariant |sent| == (if idx < lo then 0 else if idx == total && skipEnds then total - 2 else idx - lo)
      invariant |sent| <= |hosts| && sent == hosts[..|sent|]
    {
      NthNext(base, idx);
      if skipEnds && (idx == 0 || idx == total - 1) {
        if idx == 0 {
          IncIP(ip);
        }
        continue;
      }
      assert ip[..] == hosts[|sent|];
      sent := sent + [ip[..]];
      if !accept(sent) {
        return Some(sent);
      }
      IncIP(ip);
    }
    assert sent == hosts;
    return Some(sent);
  }

  lemma NextOutside(base: bytes, hostBits: nat, i: nat)
    requires Network(base, hostBits) && hostBits < 32 && i <= Pow2(hostBits)
    ensures Contains(base, hostBits, Nth(base, i)) <==> i < Pow2(hostBits)
  {
    hide Nth, Value, Pow2, Pow256, Contains;
    ContainsIsInterval(base, hostBits, Nth(base, i));
    NthValue(base, i);
    Pow2Grows(hostBits, 32);
    FourBytes();
  }

  /** Lists the hosts by counting up while the address is in the network; with 32 host bits that never ends. */
  method ExpandCIDR(base: bytes, hostBits: nat) returns (ips: seq<bytes>)
    requires Network(base, hostBits) && hostBits < 32
    ensures ips == Hosts(base, Pow2(hostBits))
  {
    hide Nth, Inc, Value, Pow2, Pow256, Contains;
    ghost var total := Pow2(hostBits);
    var ip := new byte[4](i requires 0 <= i < 4 => base[i]);
    assert ip[..] == base;
    NthNext(base, 0);
    ips := [];
    ghost var n := 0;
    Pow2Grows(hostBits, hostBits + 1);
    NextOutside(base, hostBits, 0);
    while Contains(base, hostBits, ip[..])
      invariant 0 <= n <= total && ip[..] == Nth(base, n) && ips == Range(base, 0, n)
      invariant Contains(base, hostBits, ip[..]) <==> n < total
      decreases total - n
    {
      ips := ips + [ip[..]];
      NthNext(base, n);
      IncIP(ip);
      n := n + 1;
      NextOutside(base, hostBits, n);
    }
    if |ips| > 2 {
      ips := ips[1..|ips| - 1];
    }
  }

  /** For a /0 every address is in the network, so counting up never leaves it. */
  lemma SlashZeroNeverEnds(base: bytes, ip: bytes)
    requires Network(base, 32) && |ip| == 4
    ensures Contains(base, 32, ip)
  {
    hide Value, Pow2, Pow256, Contains;
    ValueBound(ip);
    FourBytes();
    ContainsIsInterval(base, 32, ip);
  }

  /** The hosts of every network are distinct, and are those the numbers say: 1 or 2 of them, or all but two. */
  lemma HostsAreTheNetwork(base: bytes, hostBits: nat, ip: bytes)
    requires Network(base, hostBits) && |ip| == 4
    ensures var hosts, total := Hosts(base, Pow2(hostBits)), Pow2(hostBits);
      && |hosts| == (if total <= 2 then total else total - 2)
      && (ip in hosts <==> Contains(base, hostBits, ip)
                           && (total > 2 ==> Value(ip) != Value(base) && Value(ip) != Value(base) + total - 1))
      && forall i, j :: 0 <= i < j < |hosts| ==> hosts[i] != hosts[j]
  {
    hide Value, Inc, Pow2, Pow256, Contains;
    ContainsIsInterval(base, hostBits, ip);
    var hosts, total := Hosts(base, Pow2(hostBits)), Pow2(hostBits);
    var lo := if total <= 2 then 0 else 1;
    Pow2Grows(hostBits, hostBits + 1);
    forall i | 0 <= i < |hosts| ensures hosts[i] == Nth(base, lo + i) && Value(hosts[i]) == Value(base) + lo + i {
      NthValue(base, lo + i);
    }
    if Contains(base, hostBits, ip)
       && (total > 2 ==> Value(ip) != Value(base) && Value(ip) != Value(base) + total - 1)
    {
      var i := Value(ip) - Value(base) - lo;
      assert 0 <= i < |hosts|;
      ValueInjective(ip, hosts[i]);
    }
  }
}
