/** IPv4 addresses and subnets: src/shared/network.mts.

    Addresses are strings in the program and here; integers appear where it computes. */
module Network {
  import opened Bytes
  import opened Bits
  import Decimal

  type IPv4 = string

  const WORD: nat := 0x1_0000_0000

  /** String.split with a one-character separator: never empty. */
  function SplitOn(s: string, c: char): (parts: seq<string>)
    ensures |parts| >= 1
  {
    if s == [] then [""]
    else
      var rest := SplitOn(s[1..], c);
      if s[0] == c then [""] + rest else [[s[0]] + rest[0]] + rest[1..]
  }

  predicate AllDigits(s: string) {
    forall i :: 0 <= i < |s| ==> Decimal.IsDigit(s[i])
  }

  /** The i-th part as a 32-bit operand: what is missing or not a number counts as 0. */
  function Operand(parts: seq<string>, i: nat): nat {
    if i < |parts| && AllDigits(parts[i]) then Decimal.Value(parts[i]) % WORD else 0
  }

  /** The left shift by 8, 16 or 24 bits, as a multiplication. */
  function ShiftLeft(x: nat, factor: nat): nat {
    x * factor % WORD
  }

  function Ipv4ToInt(ip: IPv4): nat {
    var p := SplitOn(ip, '.');
    Join(Operand(p, 0), Operand(p, 1), Operand(p, 2), Operand(p, 3))
  }

  function Join(a: nat, b: nat, c: nat, d: nat): nat {
    Or(Or(Or(ShiftLeft(a, 0x100_0000), ShiftLeft(b, 0x1_0000), 32), ShiftLeft(c, 256), 32), d, 32)
  }

  /** The unsigned right shift, as a division, and the low octet of the result. */
  function Byte(n: nat, divisor: nat): nat
    requires 0 < divisor
  {
    And(n / divisor, 255, 32)
  }

  function Dotted(a: nat, b: nat, c: nat, d: nat): IPv4 {
    Decimal.Print(a) + "." + Decimal.Print(b) + "." + Decimal.Print(c) + "." + Decimal.Print(d)
  }

  function IntToIPv4(n: nat): IPv4 {
    Dotted(Byte(n, 0x100_0000), Byte(n, 0x1_0000), Byte(n, 256), Byte(n, 1))
  }

  function NetmaskToPrefix(netmask: IPv4): nat {
    Ones(Ipv4ToInt(netmask))
  }

  datatype CIDR = CIDR(network: IPv4, netmask: IPv4, prefix: nat, broadcast: IPv4)

  function NetworkInt(address: IPv4, netmask: IPv4): nat {
    And(Ipv4ToInt(address), Ipv4ToInt(netmask), 32)
  }

  function BroadcastInt(address: IPv4, netmask: IPv4): nat {
    Or(NetworkInt(address, netmask), Not(Ipv4ToInt(netmask), 32), 32)
  }

  function ComputeCIDR(address: IPv4, netmask: IPv4): CIDR {
    CIDR(IntToIPv4(NetworkInt(address, netmask)), netmask, NetmaskToPrefix(netmask),
         IntToIPv4(BroadcastInt(address, netmask)))
  }

  /** The DHCP server's test of an address. */
  predicate InSubnet(ip: IPv4, serverIP: IPv4, netmask: IPv4) {
    And(Ipv4ToInt(ip), Ipv4ToInt(netmask), 32) == And(Ipv4ToInt(serverIP), Ipv4ToInt(netmask), 32)
  }

  // ---- Dotted notation -------------------------------------------------------------------

  lemma {:induction false} SplitFirst(s: string, rest: string, c: char)
    requires forall i :: 0 <= i < |s| ==> s[i] != c
    ensures SplitOn(s + [c] + rest, c) == [s] + SplitOn(rest, c)
    decreases |s|
  {
    if s == [] {
      assert s + [c] + rest == [c] + rest;
      assert ([c] + rest)[1..] == rest;
    } else {
      SplitFirst(s[1..], rest, c);
      assert (s + [c] + rest)[1..] == s[1..] + [c] + rest;
      assert [s[0]] + s[1..] == s;
    }
  }

  lemma {:induction false} SplitNone(s: string, c: char)
    requires forall i :: 0 <= i < |s| ==> s[i] != c
    ensures SplitOn(s, c) == [s]
    decreases |s|
  {
    if s != [] {
      SplitNone(s[1..], c);
      assert [s[0]] + s[1..] == s;
    }
  }

  lemma SplitFour(a: string, b: string, c: string, d: string)
    requires '.' !in a && '.' !in b && '.' !in c && '.' !in d
    ensures SplitOn(a + "." + b + "." + c + "." + d, '.') == [a, b, c, d]
  {
    hide SplitOn;
    SplitNone(d, '.');
    SplitFirst(c, d, '.');
    SplitFirst(b, c + ['.'] + d, '.');
    var tail := b + ['.'] + (c + ['.'] + d);
    SplitFirst(a, tail, '.');
    assert a + "." + b + "." + c + "." + d == a + ['.'] + tail;
  }

  lemma Powers()
    ensures Pow2(0) == 1 && Pow2(8) == 256 && Pow2(16) == 0x1_0000 && Pow2(24) == 0x100_0000 && Pow2(32) == WORD
  {
    assert Pow2(4) == 16;
    assert Pow2(8) == 256;
    assert Pow2(12) == 0x1000;
    assert Pow2(16) == 0x1_0000;
    assert Pow2(20) == 0x10_0000;
    assert Pow2(24) == 0x100_0000;
    assert Pow2(28) == 0x1000_0000;
  }

  function Weighted(a: nat, b: nat, c: nat, d: nat): nat {
    a * 0x100_0000 + b * 0x1_0000 + c * 256 + d
  }

  lemma JoinBytes(a: nat, b: nat, c: nat, d: nat)
    requires a < 256 && b < 256 && c < 256 && d < 256
    ensures Join(a, b, c, d) == Weighted(a, b, c, d)
  {
    hide Or;
    Powers();
    JoinShifted(a, b, c, d, a * 0x100_0000, b * 0x1_0000, c * 256, 32);
  }

  lemma JoinShifted(a: nat, b: nat, c: nat, d: nat, x: nat, y: nat, z: nat, k: nat)
    requires a < 256 && b < 256 && c < 256 && d < 256 && k == 32
    requires x == a * 0x100_0000 && y == b * 0x1_0000 && z == c * 256
    ensures Or(Or(Or(x, y, k), z, k), d, k) == x + y + z + d
  {
    hide Or, Pow2;
    assert Pow2(32) == 0x1_0000_0000 && Pow2(24) == 0x100_0000 && Pow2(16) == 0x1_0000 && Pow2(8) == 256 by { Powers(); }
    OrAdds(x, y, 24, k, 0x100_0000, a);
    OrAdds(x + y, z, 16, k, 0x1_0000, a * 256 + b);
    OrAdds(x + y + z, d, 8, k, 256, a * 0x1_0000 + b * 256 + c);
  }

  lemma OrAdds(x: nat, y: nat, h: nat, k: nat, p: nat, q: nat)
    requires h <= k && p == Pow2(h) && x < Pow2(k) && x == q * p && y < p
    ensures Or(x, y, k) == x + y
  {
    hide Or;
    ModIs(x, p, q, 0);
    OrDisjoint(x, y, h, k);
  }

  lemma OperandOfPrint(parts: seq<string>, i: nat, n: nat)
    requires i < |parts| && parts[i] == Decimal.Print(n) && n < 256
    ensures Operand(parts, i) == n
  {
    Decimal.ValueOfPrint(n);
  }

  lemma PrintHasNoDot(n: nat)
    ensures '.' !in Decimal.Print(n)
  {
    var s := Decimal.Print(n);
    forall i | 0 <= i < |s| ensures s[i] != '.' {
      assert Decimal.IsDigit(s[i]);
    }
  }

  lemma DottedToInt(a: nat, b: nat, c: nat, d: nat)
    requires a < 256 && b < 256 && c < 256 && d < 256
    ensures Ipv4ToInt(Dotted(a, b, c, d)) == Weighted(a, b, c, d)
  {
    PrintHasNoDot(a);
    PrintHasNoDot(b);
    PrintHasNoDot(c);
    PrintHasNoDot(d);
    SplitFour(Decimal.Print(a), Decimal.Print(b), Decimal.Print(c), Decimal.Print(d));
    var parts := [Decimal.Print(a), Decimal.Print(b), Decimal.Print(c), Decimal.Print(d)];
    OperandOfPrint(parts, 0, a);
    OperandOfPrint(parts, 1, b);
    OperandOfPrint(parts, 2, c);
    OperandOfPrint(parts, 3, d);
    JoinBytes(a, b, c, d);
  }

  lemma LowOctet(x: nat, h: nat, k: nat)
    requires h == 8 && k == 32
    ensures And(x, 255, k) == x % 256
  {
    Powers();
    AndLow(x, h, k);
  }

  lemma BytesOf(n: nat)
    requires n < WORD
    ensures Byte(n, 0x100_0000) == n / 0x100_0000 && Byte(n, 0x1_0000) == n / 0x1_0000 % 256
    ensures Byte(n, 256) == n / 256 % 256 && Byte(n, 1) == n % 256
  {
    hide And;
    LowOctet(n / 0x100_0000, 8, 32);
    LowOctet(n / 0x1_0000, 8, 32);
    LowOctet(n / 256, 8, 32);
    LowOctet(n / 1, 8, 32);
  }

  /** Every integer of 32 bits is the value of its notation, and every canonical notation
      is that of its value. */
  lemma DottedRoundTrip(n: nat, a: nat, b: nat, c: nat, d: nat)
    requires n < WORD && a < 256 && b < 256 && c < 256 && d < 256
    ensures Ipv4ToInt(IntToIPv4(n)) == n
    ensures IntToIPv4(Ipv4ToInt(Dotted(a, b, c, d))) == Dotted(a, b, c, d)
  {
    IntRoundTrip(n);
    DottedToInt(a, b, c, d);
    WeightedBytes(a, b, c, d);
    BytesOf(Weighted(a, b, c, d));
  }

  lemma IntRoundTrip(n: nat)
    requires n < WORD
    ensures Ipv4ToInt(IntToIPv4(n)) == n
  {
    BytesOf(n);
    DottedToInt(n / 0x100_0000, n / 0x1_0000 % 256, n / 256 % 256, n % 256);
    WeightedSum(n);
  }

  lemma WeightedSum(n: nat)
    ensures Weighted(n / 0x100_0000, n / 0x1_0000 % 256, n / 256 % 256, n % 256) == n
  {
    assert n / 0x1_0000 == n / 256 / 256 && n / 0x100_0000 == n / 256 / 256 / 256;
  }

  lemma WeightedBytes(a: nat, b: nat, c: nat, d: nat)
    requires a < 256 && b < 256 && c < 256 && d < 256
    ensures var n := Weighted(a, b, c, d);
            n < WORD && n / 0x100_0000 == a && n / 0x1_0000 % 256 == b && n / 256 % 256 == c && n % 256 == d
  {
    var n := Weighted(a, b, c, d);
    assert n / 0x1_0000 == a * 256 + b && n / 256 == a * 0x1_0000 + b * 256 + c;
  }

  lemma DottedNotEmpty(n: nat)
    ensures IntToIPv4(n) != ""
  {
    hide Byte, Decimal.Print;
  }

  // ---- Subnets ---------------------------------------------------------------------------

  /** A mask of ones followed by h zeros. */
  ghost predicate Contiguous(netmask: IPv4, h: nat) {
    h <= 32 && Pow2(h) <= WORD && Ipv4ToInt(netmask) == WORD - Pow2(h)
  }

  lemma IntIsWord(ip: IPv4)
    ensures Ipv4ToInt(ip) < WORD
  {
    Powers();
  }

  lemma CidrBounds(address: IPv4, netmask: IPv4, h: nat)
    requires Contiguous(netmask, h)
    ensures var n := NetworkInt(address, netmask);
            && n % Pow2(h) == 0 && n + Pow2(h) <= WORD
            && n == Ipv4ToInt(address) - Ipv4ToInt(address) % Pow2(h)
            && BroadcastInt(address, netmask) == n + Pow2(h) - 1
  {
    hide And, Or, Not, Pow2, Ipv4ToInt;
    Powers();
    IntIsWord(address);
    var x, p := Ipv4ToInt(address), Pow2(h);
    AndHigh(x, h, 32);
    NotIs(WORD - p, 32);
    PowDivides(h, 32);
    BlockOf(x, p, WORD);
    OrDisjoint(x - x % p, p - 1, h, 32);
  }

  lemma BlockOf(x: nat, p: nat, w: nat)
    requires 0 < p && w % p == 0 && x < w
    ensures (x - x % p) % p == 0 && x - x % p + p <= w
  {
    assert x == (x / p) * p + x % p;
    ModIs(x - x % p, p, x / p, 0);
    Fits(x - x % p, p, w);
  }

  lemma Fits(n: nat, p: nat, w: nat)
    requires 0 < p && n % p == 0 && w % p == 0 && n < w
    ensures n + p <= w
  {
    assert n == (n / p) * p && w == (w / p) * p;
    if n / p >= w / p {
      Mul(w / p, n / p, p);
    }
    Mul(n / p + 1, w / p, p);
    assert (n / p + 1) * p == (n / p) * p + p;
  }

  lemma {:induction false} PowDivides(h: nat, k: nat)
    requires h <= k
    ensures Pow2(k) % Pow2(h) == 0
    decreases k
  {
    var p, y := Pow2(h), Pow2(k);
    if h == k {
      hide Pow2;
      ModIs(y, p, 1, 0);
    } else {
      var x := Pow2(k - 1);
      assert y == 2 * x;
      hide Pow2;
      PowDivides(h, k - 1);
      Doubled(x, y, p);
    }
  }

  lemma Doubled(x: nat, y: nat, p: nat)
    requires 0 < p && x % p == 0 && y == 2 * x
    ensures y % p == 0
  {
    var q := x / p;
    assert x == q * p;
    assert y == 2 * q * p;
    ModIs(y, p, 2 * q, 0);
  }

  /** With a contiguous mask the subnet is an interval: its test accepts exactly the
      addresses from the network's to the broadcast one, 2^(32 - prefix) of them, and
      computeCIDR reports these very addresses. */
  lemma SubnetIsInterval(ip: IPv4, address: IPv4, netmask: IPv4, h: nat)
    requires Contiguous(netmask, h)
    ensures var cidr := ComputeCIDR(address, netmask);
            && (InSubnet(ip, address, netmask) <==>
                  Ipv4ToInt(cidr.network) <= Ipv4ToInt(ip) <= Ipv4ToInt(cidr.broadcast))
            && cidr.prefix == 32 - h
            && Ipv4ToInt(cidr.broadcast) - Ipv4ToInt(cidr.network) + 1 == Pow2(32 - cidr.prefix)
  {
    hide And, Or, Not, Ipv4ToInt, IntToIPv4, Pow2, Ones;
    Powers();
    CidrBounds(address, netmask, h);
    CidrBounds(ip, netmask, h);
    OnesOfMask(h, 32);
    var n, b, p := NetworkInt(address, netmask), BroadcastInt(address, netmask), Pow2(h);
    IntRoundTrip(n);
    IntRoundTrip(b);
    SameBlock(Ipv4ToInt(ip), n, p);
  }

  lemma SameBlock(x: nat, n: nat, p: nat)
    requires 0 < p && n % p == 0
    ensures x - x % p == n <==> n <= x < n + p
  {
    assert x == (x / p) * p + x % p && n == (n / p) * p;
    if n <= x < n + p {
      ModIs(x, p, n / p, x - n);
    }
  }

  // ---- Random addresses ------------------------------------------------------------------

  const ATTEMPTS: nat := 1000

  function Candidate(address: IPv4, netmask: IPv4, entropy: nat): nat {
    Or(NetworkInt(address, netmask), And(entropy, Not(Ipv4ToInt(netmask), 32), 32), 32)
  }

  lemma CandidateIsWord(address: IPv4, netmask: IPv4, entropy: nat)
    ensures Candidate(address, netmask, entropy) < WORD
  {
    hide And, Or, Not, Ipv4ToInt;
    Powers();
  }

  predicate Usable(candidate: nat, address: IPv4, netmask: IPv4, inUse: set<IPv4>) {
    && candidate != Ipv4ToInt(address)
    && candidate != Ipv4ToInt(ComputeCIDR(address, netmask).network)
    && candidate != Ipv4ToInt(ComputeCIDR(address, netmask).broadcast)
    && IntToIPv4(candidate) !in inUse
  }

  /** Up to 1000 candidates, whatever the random source yields: the first usable one. */
  function RandomIP(address: IPv4, netmask: IPv4, inUse: set<IPv4>, entropy: nat -> nat, attempt: nat): Option<IPv4>
    decreases ATTEMPTS - attempt
  {
    if attempt >= ATTEMPTS then None
    else
      var candidate := Candidate(address, netmask, entropy(attempt));
      if Usable(candidate, address, netmask, inUse) then Some(IntToIPv4(candidate))
      else RandomIP(address, netmask, inUse, entropy, attempt + 1)
  }

  method GenerateRandomIP(address: IPv4, netmask: IPv4, inUse: set<IPv4>, entropy: nat -> nat)
    returns (ip: Option<IPv4>)
    ensures ip == RandomIP(address, netmask, inUse, entropy, 0)
  {
    hide And, Or, Not, Candidate, Usable, ComputeCIDR, Ipv4ToInt, IntToIPv4;
    var attempt := 0;
    while attempt < ATTEMPTS
      invariant 0 <= attempt <= ATTEMPTS
      invariant RandomIP(address, netmask, inUse, entropy, attempt) == RandomIP(address, netmask, inUse, entropy, 0)
    {
      var candidate := Candidate(address, netmask, entropy(attempt));
      if Usable(candidate, address, netmask, inUse) {
        return Some(IntToIPv4(candidate));
      }
      attempt := attempt + 1;
    }
    ip := None;
  }

  /** Neither the server's address nor a taken one, inside the server's subnet, and, with a
      contiguous mask, strictly between the network's address and the broadcast one. */
  ghost predicate Inside(ip: IPv4, address: IPv4, netmask: IPv4, inUse: set<IPv4>) {
    && ip !in inUse && ip != address && ip != "0.0.0.0"
    && InSubnet(ip, address, netmask)
    && (forall h :: Contiguous(netmask, h) ==>
          Ipv4ToInt(ComputeCIDR(address, netmask).network) < Ipv4ToInt(ip)
          < Ipv4ToInt(ComputeCIDR(address, netmask).broadcast))
  }

  lemma {:induction false} RandomIsInside(address: IPv4, netmask: IPv4, inUse: set<IPv4>, entropy: nat -> nat, attempt: nat)
    ensures RandomIP(address, netmask, inUse, entropy, attempt).Some? ==>
              Inside(RandomIP(address, netmask, inUse, entropy, attempt).value, address, netmask, inUse)
    decreases ATTEMPTS - attempt
  {
    hide And, Or, Not, Candidate, Usable, ComputeCIDR, Ipv4ToInt, IntToIPv4, Inside;
    if attempt < ATTEMPTS {
      var candidate := Candidate(address, netmask, entropy(attempt));
      if Usable(candidate, address, netmask, inUse) {
        UsableIsInside(address, netmask, inUse, entropy(attempt));
      } else {
        RandomIsInside(address, netmask, inUse, entropy, attempt + 1);
      }
    }
  }

  /** A usable candidate, with any mask, even passes the server's own test. */
  lemma UsableIsInside(address: IPv4, netmask: IPv4, inUse: set<IPv4>, entropy: nat)
    requires Usable(Candidate(address, netmask, entropy), address, netmask, inUse)
    ensures Inside(IntToIPv4(Candidate(address, netmask, entropy)), address, netmask, inUse)
  {
    hide And, Or, Not, Ipv4ToInt, IntToIPv4, Pow2, InSubnet, SplitOn;
    Powers();
    var candidate := Candidate(address, netmask, entropy);
    IntRoundTrip(candidate);
    CandidateInSubnet(address, netmask, entropy);
    NetworkNotZero(address, netmask, entropy);
    var ip := IntToIPv4(candidate);
    forall h | Contiguous(netmask, h)
      ensures Ipv4ToInt(ComputeCIDR(address, netmask).network) < Ipv4ToInt(ip)
              < Ipv4ToInt(ComputeCIDR(address, netmask).broadcast)
    {
      SubnetIsInterval(ip, address, netmask, h);
    }
  }

  lemma CandidateInSubnet(address: IPv4, netmask: IPv4, entropy: nat)
    ensures InSubnet(IntToIPv4(Candidate(address, netmask, entropy)), address, netmask)
  {
    hide And, Or, Not, Ipv4ToInt, IntToIPv4, Pow2;
    Powers();
    IntRoundTrip(Candidate(address, netmask, entropy));
    Spliced(Ipv4ToInt(address), entropy, Ipv4ToInt(netmask), 32);
  }

  /** Address 0.0.0.0 could only be the network's own. */
  lemma NetworkNotZero(address: IPv4, netmask: IPv4, entropy: nat)
    ensures Ipv4ToInt("0.0.0.0") == 0
    ensures Candidate(address, netmask, entropy) == 0 ==>
              Ipv4ToInt(ComputeCIDR(address, netmask).network) == 0
  {
    hide And, Or, Not, Ipv4ToInt, IntToIPv4, Pow2, SplitOn;
    Powers();
    Zeros();
    if Candidate(address, netmask, entropy) == 0 {
      OrIsZero(NetworkInt(address, netmask), And(entropy, Not(Ipv4ToInt(netmask), 32), 32), 32);
    }
    IntRoundTrip(NetworkInt(address, netmask));
  }

  lemma Zeros()
    ensures Ipv4ToInt("0.0.0.0") == 0
  {
    assert Decimal.Print(0) == "0";
    assert Dotted(0, 0, 0, 0) == "0.0.0.0";
    DottedToInt(0, 0, 0, 0);
  }
}
