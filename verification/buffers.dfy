/** Fixed-size buffers filled field by field, as Buffer.alloc, writeUInt16BE, writeUInt32BE
    and copy do. */
module Buffers {
  import opened Bytes

  function U16(n: nat): (b: bytes)
    requires n < 0x1_0000
    ensures |b| == 2
  {
    [n / 0x100, n % 0x100]
  }

  function U32(n: nat): (b: bytes)
    requires n < 0x1_0000_0000
    ensures |b| == 4
  {
    U16(n / 0x1_0000) + U16(n % 0x1_0000)
  }

  function ReadU16(b: bytes): (n: nat)
    requires 2 <= |b|
    ensures n < 0x1_0000
  {
    b[0] as int * 0x100 + b[1] as int
  }

  function ReadU32(b: bytes): (n: nat)
    requires |b| == 4
    ensures n < 0x1_0000_0000
  {
    ReadU16(b[..2]) * 0x1_0000 + ReadU16(b[2..])
  }

  lemma NumbersRoundTrip(n: nat, m: nat)
    requires n < 0x1_0000 && m < 0x1_0000_0000
    ensures ReadU16(U16(n)) == n && ReadU32(U32(m)) == m
  {
    assert U32(m)[..2] == U16(m / 0x1_0000) && U32(m)[2..] == U16(m % 0x1_0000);
  }

  function Zeros(n: nat): (b: bytes)
    ensures |b| == n
  {
    seq(n, _ => 0)
  }

  /** The buffer after `text` has been written at `offset`. */
  function Splice(was: bytes, offset: nat, text: bytes): (now: bytes)
    requires offset + |text| <= |was|
    ensures |now| == |was|
  {
    was[..offset] + text + was[offset + |text|..]
  }

  lemma SpliceBeside(was: bytes, offset: nat, text: bytes, from: nat, to: nat)
    requires offset + |text| <= |was| && from <= to <= |was| && (to <= offset || offset + |text| <= from)
    ensures Splice(was, offset, text)[from..to] == was[from..to]
  {
  }

  /** The fields written so far; the rest is still zero. */
  ghost predicate Filled(now: bytes, fields: seq<bytes>) {
    |Concat(fields)| <= |now| && now == Concat(fields) + Zeros(|now| - |Concat(fields)|)
  }

  lemma {:induction false} ConcatSnoc(fields: seq<bytes>, x: bytes)
    ensures Concat(fields + [x]) == Concat(fields) + x
    decreases |fields|
  {
    if fields == [] {
      assert [x][1..] == [];
    } else {
      ConcatSnoc(fields[1..], x);
      assert (fields + [x])[1..] == fields[1..] + [x];
    }
  }

  /** Writing the next field right behind the others. */
  lemma FillMore(was: bytes, fields: seq<bytes>, offset: nat, x: bytes)
    requires Filled(was, fields) && offset == |Concat(fields)| && offset + |x| <= |was|
    ensures Filled(Splice(was, offset, x), fields + [x]) && |Concat(fields + [x])| == offset + |x|
  {
    ConcatSnoc(fields, x);
    assert was[..offset] == Concat(fields);
    assert was[offset + |x|..] == Zeros(|was| - offset - |x|);
  }

  /** Leaving a stretch of zeros. */
  lemma FillZeros(now: bytes, fields: seq<bytes>, n: nat)
    requires Filled(now, fields) && |Concat(fields)| + n <= |now|
    ensures Filled(now, fields + [Zeros(n)]) && |Concat(fields + [Zeros(n)])| == |Concat(fields)| + n
  {
    ConcatSnoc(fields, Zeros(n));
    var left := |now| - |Concat(fields)|;
    assert Zeros(left) == Zeros(n) + Zeros(left - n);
  }

  lemma AllFilled(now: bytes, fields: seq<bytes>)
    requires Filled(now, fields[..|fields|]) && |Concat(fields[..|fields|])| == |now|
    ensures now == Concat(fields)
  {
    assert fields[..|fields|] == fields;
  }

  ghost predicate Offsets(fields: seq<bytes>, offsets: seq<int>) {
    && |offsets| == |fields| + 1
    && forall i :: 0 <= i < |fields| ==> offsets[i + 1] == offsets[i] + |fields[i]|
  }

  lemma {:induction false} ConcatLength(fields: seq<bytes>, offsets: seq<int>)
    requires Offsets(fields, offsets)
    ensures |Concat(fields)| == offsets[|fields|] - offsets[0]
    decreases |fields|
  {
    if fields != [] {
      OffsetsTail(fields, offsets);
      ConcatLength(fields[1..], offsets[1..]);
    }
  }

  lemma OffsetsTail(fields: seq<bytes>, offsets: seq<int>)
    requires Offsets(fields, offsets) && fields != []
    ensures Offsets(fields[1..], offsets[1..])
  {
    forall j | 0 <= j < |fields| - 1 ensures offsets[1..][j + 1] == offsets[1..][j] + |fields[1..][j]| {
      assert offsets[j + 2] == offsets[j + 1] + |fields[j + 1]|;
    }
  }

  /** Every field is found again at its offset, whatever follows. */
  lemma {:induction false} FieldAt(fields: seq<bytes>, offsets: seq<int>, tail: bytes, i: nat)
    requires Offsets(fields, offsets) && i < |fields|
    ensures var start: int := offsets[i] - offsets[0];
            && 0 <= start && start + |fields[i]| <= |Concat(fields)|
            && (Concat(fields) + tail)[start..start + |fields[i]|] == fields[i]
    decreases |fields|
  {
    if i == 0 {
      assert Concat(fields) + tail == fields[0] + (Concat(fields[1..]) + tail);
    } else {
      var rest := fields[1..];
      OffsetsTail(fields, offsets);
      FieldAt(rest, offsets[1..], tail, i - 1);
      assert Concat(fields) + tail == fields[0] + (Concat(rest) + tail);
      var all, start := Concat(rest) + tail, offsets[i] - offsets[1];
      assert (fields[0] + all)[|fields[0]| + start..|fields[0]| + start + |fields[i]|] == all[start..start + |fields[i]|];
    }
  }

  method Copy(buf: array<byte>, offset: nat, text: bytes)
    requires offset + |text| <= buf.Length
    modifies buf
    ensures buf[..] == Splice(old(buf[..]), offset, text)
  {
    ghost var was := buf[..];
    for i := 0 to |text|
      invariant buf[..] == Splice(was, offset, text[..i])
    {
      buf[offset + i] := text[i];
      assert buf[..] == was[..offset] + text[..i + 1] + was[offset + i + 1..];
    }
    assert text[..|text|] == text;
  }

  method WriteU16(buf: array<byte>, offset: nat, n: nat)
    requires offset + 2 <= buf.Length && n < 0x1_0000
    modifies buf
    ensures buf[..] == Splice(old(buf[..]), offset, U16(n))
  {
    ghost var was := buf[..];
    buf[offset], buf[offset + 1] := n / 0x100, n % 0x100;
    assert buf[..] == was[..offset] + [n / 0x100, n % 0x100] + was[offset + 2..];
  }

  method WriteU32(buf: array<byte>, offset: nat, n: nat)
    requires offset + 4 <= buf.Length && n < 0x1_0000_0000
    modifies buf
    ensures buf[..] == Splice(old(buf[..]), offset, U32(n))
  {
    ghost var was := buf[..];
    WriteU16(buf, offset, n / 0x1_0000);
    WriteU16(buf, offset + 2, n % 0x1_0000);
    SpliceTwice(was, offset, U16(n / 0x1_0000), U16(n % 0x1_0000));
  }

  lemma SpliceTwice(was: bytes, offset: nat, x: bytes, y: bytes)
    requires offset + |x| + |y| <= |was|
    ensures Splice(Splice(was, offset, x), offset + |x|, y) == Splice(was, offset, x + y)
  {
    var mid := Splice(was, offset, x);
    assert mid[..offset + |x|] == was[..offset] + x;
    assert mid[offset + |x| + |y|..] == was[offset + |x + y|..];
  }

  lemma AllZeros(now: bytes, fields: seq<bytes>)
    requires forall i :: 0 <= i < |now| ==> now[i] == 0
    ensures Filled(now, fields[..0]) && |Concat(fields[..0])| == 0
  {
    assert now == [] + Zeros(|now|);
  }

  /** What writing the i-th field of a buffer that is filled from its front will do. */
  lemma FillNext(was: bytes, offset: nat, fields: seq<bytes>, i: nat)
    requires i < |fields| && Filled(was, fields[..i]) && offset == |Concat(fields[..i])|
    requires offset + |fields[i]| <= |was|
    ensures Filled(Splice(was, offset, fields[i]), fields[..i + 1])
    ensures |Concat(fields[..i + 1])| == offset + |fields[i]|
  {
    FillMore(was, fields[..i], offset, fields[i]);
    assert fields[..i] + [fields[i]] == fields[..i + 1];
  }

  /** The i-th field is a stretch that stays zero. */
  lemma ZerosNext(now: bytes, fields: seq<bytes>, i: nat, n: nat)
    requires i < |fields| && fields[i] == Zeros(n)
    requires Filled(now, fields[..i]) && |Concat(fields[..i])| + n <= |now|
    ensures Filled(now, fields[..i + 1]) && |Concat(fields[..i + 1])| == |Concat(fields[..i])| + n
  {
    FillZeros(now, fields[..i], n);
    assert fields[..i] + [fields[i]] == fields[..i + 1];
  }

  lemma RestIsZero(now: bytes, fields: seq<bytes>)
    requires Filled(now, fields)
    ensures now[|Concat(fields)|..] == Zeros(|now| - |Concat(fields)|)
  {
  }

  /** A full buffer with the last field behind it. */
  lemma LastField(now: bytes, fields: seq<bytes>, i: nat)
    requires |fields| == i + 1 && Filled(now, fields[..i]) && |Concat(fields[..i])| == |now|
    ensures now + fields[i] == Concat(fields)
  {
    ConcatSnoc(fields[..i], fields[i]);
    assert fields[..i] + [fields[i]] == fields;
  }

  /** Writes the i-th field of a buffer that is filled from its front. */
  method WriteField(buf: array<byte>, offset: nat, x: bytes, ghost fields: seq<bytes>, ghost i: nat)
    requires i < |fields| && x == fields[i]
    requires Filled(buf[..], fields[..i]) && offset == |Concat(fields[..i])| && offset + |x| <= buf.Length
    modifies buf
    ensures Filled(buf[..], fields[..i + 1]) && |Concat(fields[..i + 1])| == offset + |x|
  {
    FillNext(buf[..], offset, fields, i);
    Copy(buf, offset, x);
  }

  lemma {:induction false} ConcatAppend(a: seq<bytes>, b: seq<bytes>)
    ensures Concat(a + b) == Concat(a) + Concat(b)
    decreases |a|
  {
    if a == [] {
      assert a + b == b;
    } else {
      ConcatAppend(a[1..], b);
      assert (a + b)[1..] == a[1..] + b;
    }
  }

  /** After `put` at the offset, the next octet. */
  lemma SpliceNext(was: bytes, offset: nat, put: bytes, x: byte)
    requires offset + |put| < |was|
    ensures Splice(was, offset, put)[offset + |put| := x] == Splice(was, offset, put + [x])
  {
  }

  lemma SpliceNothing(was: bytes, offset: nat)
    requires offset <= |was|
    ensures Splice(was, offset, []) == was
  {
  }
}
