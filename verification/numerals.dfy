/** What the program reads out of text that need not be well formed: numbers, addresses and MAC
    addresses, told by their characters. */
module Numerals {
  import opened Bytes
  import opened Encoding
  import Decimal
  import Hex
  import Network

  // ---- Decimal numbers ---------------------------------------------------------------------

  predicate IsDecimal(s: string) {
    forall i :: 0 <= i < |s| ==> '0' <= s[i] <= '9'
  }

  /** The number that decimal digits spell. */
  function Spelled(s: string): nat
    requires IsDecimal(s)
  {
    if s == "" then 0 else 10 * Spelled(s[..|s| - 1]) + (s[|s| - 1] as nat - 48)
  }

  predicate Blank(c: char) {
    c == ' ' || c == '\t' || c == '\n' || c == '\r' || c as int == 11 || c as int == 12
  }

  lemma {:induction false} ValueIs(s: string)
    requires IsDecimal(s)
    ensures Decimal.Value(s) == Spelled(s)
    decreases |s|
  {
    if s != "" {
      ValueIs(s[..|s| - 1]);
    }
  }

  /** The text is blanks, a sign or none, and the digits; something that is no digit may follow. */
  ghost predicate Reads(s: string, blanks: string, sign: string, digits: string, rest: string) {
    && s == blanks + (sign + (digits + rest)) && (forall i :: 0 <= i < |blanks| ==> Blank(blanks[i]))
    && (sign == "" || sign == "-" || sign == "+") && IsDecimal(digits) && (rest != "" ==> !('0' <= rest[0] <= '9'))
  }

  lemma {:induction false} SkipsBlanks(blanks: string, tail: string)
    requires (forall i :: 0 <= i < |blanks| ==> Blank(blanks[i])) && (tail != "" ==> !Blank(tail[0]))
    ensures Decimal.SkipSpace(blanks + tail) == tail
    decreases |blanks|
  {
    if blanks == "" {
      assert blanks + tail == tail;
    } else {
      SkipsBlanks(blanks[1..], tail);
      assert (blanks + tail)[1..] == blanks[1..] + tail;
    }
  }

  lemma {:induction false} RunIs(digits: string, rest: string)
    requires IsDecimal(digits) && (rest != "" ==> !('0' <= rest[0] <= '9'))
    ensures Decimal.DigitRun(digits + rest) == |digits|
    decreases |digits|
  {
    if digits == "" {
      assert digits + rest == rest;
    } else {
      RunIs(digits[1..], rest);
      assert (digits + rest)[1..] == digits[1..] + rest;
    }
  }

  /** parseInt: the number that the digits at the front spell, negated by a minus sign; no number
      without digits. */
  lemma ParseIntIs(s: string, blanks: string, sign: string, digits: string, rest: string)
    requires Reads(s, blanks, sign, digits, rest)
    requires sign == "" && digits == "" && rest != "" ==> !Blank(rest[0]) && rest[0] != '-' && rest[0] != '+'
    ensures digits == "" ==> Decimal.ParseInt(s) == None
    ensures var v: int := Spelled(digits);
            digits != "" ==> Decimal.ParseInt(s) == Some(if sign == "-" then -v else v)
  {
    hide Decimal.SkipSpace, Decimal.DigitRun, Decimal.Value, Spelled;
    var u := digits + rest;
    var t := sign + u;
    assert u != "" ==> u[0] == if digits != "" then digits[0] else rest[0];
    SkipsBlanks(blanks, t);
    assert sign == "" ==> t == u;
    assert sign != "" ==> t[1..] == u && t[0] == sign[0];
    RunIs(digits, rest);
    ValueIs(digits);
    assert u[..|digits|] == digits;
  }

  // ---- Addresses -----------------------------------------------------------------------------

  /** A part of an address: no number where it is missing, empty or has another character. */
  function PartOf(ip: string, i: nat): nat {
    var parts := Network.SplitOn(ip, '.');
    if i < |parts| && IsDecimal(parts[i]) then Spelled(parts[i]) else 0
  }

  lemma OperandIs(ip: string, i: nat)
    ensures Network.Operand(Network.SplitOn(ip, '.'), i) == PartOf(ip, i) % 0x1_0000_0000
  {
    hide Network.SplitOn, Spelled, Decimal.Value;
    var parts := Network.SplitOn(ip, '.');
    if i < |parts| && IsDecimal(parts[i]) {
      ValueIs(parts[i]);
    }
  }

  /** The four octets of an address keep the low eight bits of its first four parts. */
  lemma AddressOctets(ip: string)
    ensures IPv4Bytes(ip) == [PartOf(ip, 0) % 256, PartOf(ip, 1) % 256, PartOf(ip, 2) % 256, PartOf(ip, 3) % 256]
  {
    hide PartOf, Network.SplitOn, Network.Operand;
    LowOctet(ip, 0);
    LowOctet(ip, 1);
    LowOctet(ip, 2);
    LowOctet(ip, 3);
  }

  lemma LowOctet(ip: string, i: nat)
    ensures Octet(Network.SplitOn(ip, '.'), i) == PartOf(ip, i) % 256
  {
    hide PartOf, Network.SplitOn, Network.Operand;
    OperandIs(ip, i);
    WordOctet(PartOf(ip, i));
  }

  lemma WordOctet(n: nat)
    ensures n % 0x1_0000_0000 % 256 == n % 256
  {
    var q, r := n / 0x1_0000_0000, n % 0x1_0000_0000;
    assert n == 256 * (0x100_0000 * q) + r;
    assert n % 256 == r % 256;
  }

  /** As an integer it is their sum with weights, if they are octets. */
  lemma AddressInt(ip: string)
    requires PartOf(ip, 0) < 256 && PartOf(ip, 1) < 256 && PartOf(ip, 2) < 256 && PartOf(ip, 3) < 256
    ensures Network.Ipv4ToInt(ip) ==
            PartOf(ip, 0) * 0x100_0000 + PartOf(ip, 1) * 0x1_0000 + PartOf(ip, 2) * 256 + PartOf(ip, 3)
  {
    hide PartOf, Network.SplitOn, Network.Operand, Network.Join;
    OperandIs(ip, 0);
    OperandIs(ip, 1);
    OperandIs(ip, 2);
    OperandIs(ip, 3);
    Network.JoinBytes(PartOf(ip, 0), PartOf(ip, 1), PartOf(ip, 2), PartOf(ip, 3));
  }

  // ---- MAC addresses -------------------------------------------------------------------------

  /** A hexadecimal digit of either case. */
  predicate IsHex(c: char) {
    '0' <= c <= '9' || 'a' <= c <= 'f' || 'A' <= c <= 'F'
  }

  function HexDigit(c: char): nat
    requires IsHex(c)
  {
    if c <= '9' then c as nat - 48 else if c <= 'F' then c as nat - 55 else c as nat - 87
  }

  /** The number that the hexadecimal digits at the front spell, after `acc`. */
  function HexNumber(s: string, acc: nat): nat {
    if s == "" || !IsHex(s[0]) then acc else HexNumber(s[1..], 16 * acc + HexDigit(s[0]))
  }

  lemma {:induction false} ParseFromIs(s: string, acc: nat)
    ensures Hex.ParseFrom(s, acc % 256) == HexNumber(s, acc) % 256
    decreases |s|
  {
    if s != "" && IsHex(s[0]) {
      var d := HexDigit(s[0]);
      assert d == Hex.DigitValue(s[0]);
      ShiftIn(acc, d);
      ParseFromIs(s[1..], 16 * acc + d);
    }
  }

  lemma ShiftIn(acc: nat, d: nat)
    ensures (acc % 256 * 16 + d) % 256 == (16 * acc + d) % 256
  {
    assert 16 * acc + d == 256 * (16 * (acc / 256)) + (acc % 256 * 16 + d);
  }

  /** The six octets of a MAC address keep the low eight bits of its first six parts, and a part
      that is missing counts as 0. */
  lemma MacOctets(mac: string, i: nat)
    requires i < 6
    ensures var parts := Network.SplitOn(mac, ':');
            MacBytes(mac)[i] == if i < |parts| then HexNumber(parts[i], 0) % 256 else 0
  {
    hide Network.SplitOn;
    var parts := Network.SplitOn(mac, ':');
    if i < |parts| {
      ParseFromIs(parts[i], 0);
    }
  }
}
