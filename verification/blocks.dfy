/** Block numbers on the wire, and the blocks of a file (RFC 1350, RFC 7440).

    A transfer counts its DATA packets 1, 2, 3, ...; the wire carries them in a uint16
    that goes from 65535 back to 1.  Four pieces of code compute that number, each in
    its own way. */
module Blocks {
  import opened Bytes

  const WIRE_MAX: nat := 65535
  const BLOCKNUM_RESET: nat := 1

  /** What the n-th DATA packet carries; 0 stands for "nothing yet". */
  function Wire(n: nat): nat {
    if n == 0 then 0 else (n - 1) % WIRE_MAX + 1
  }

  /** The sender's and the receiving server's rule: count up, then reset. */
  function NextBlock(blockNum: nat, wrap: bool): nat {
    if blockNum + 1 > WIRE_MAX && wrap then BLOCKNUM_RESET else blockNum + 1
  }

  /** The downloading client's rule. */
  function ClientExpected(blockNum: nat): nat {
    if blockNum == WIRE_MAX then 1 else blockNum + 1
  }

  /** The uploading client's closed form. */
  function PutWire(blockNum: nat): nat {
    if blockNum > WIRE_MAX then (blockNum - 1) % WIRE_MAX + 1 else blockNum
  }

  /** The four rules agree on every block of every transfer. */
  lemma BlockNumberingAgrees(n: nat)
    ensures NextBlock(Wire(n), true) == Wire(n + 1)
    ensures ClientExpected(Wire(n)) == Wire(n + 1)
    ensures PutWire(n) == Wire(n)
    ensures n <= WIRE_MAX ==> Wire(n) == n
    ensures Wire(n) <= WIRE_MAX
    ensures 1 <= n ==> 1 <= Wire(n)
  {
    if n > 0 {
      if n % WIRE_MAX == 0 {
        assert (n - 1) % WIRE_MAX == WIRE_MAX - 1;
      } else {
        assert (n - 1) % WIRE_MAX == n % WIRE_MAX - 1;
      }
    }
  }

  /** Two blocks look alike on the wire exactly when they are a multiple of 65535 apart. */
  lemma WireAliases(i: nat, j: nat)
    requires 1 <= i && 1 <= j
    ensures Wire(i) == Wire(j) <==> (i - j) % WIRE_MAX == 0
  {
    var a, b := (i - 1) % WIRE_MAX, (j - 1) % WIRE_MAX;
    var q, r := (i - 1) / WIRE_MAX, (j - 1) / WIRE_MAX;
    assert i - j == (q - r) * WIRE_MAX + (a - b);
    assert (i - j) % WIRE_MAX == (a - b) % WIRE_MAX;
  }

  /** The k-th block of a file, k counted from 1; empty past the end. */
  function Block(file: bytes, b: nat, k: nat): bytes
    requires 1 <= k
  {
    ReadAt(file, (k - 1) * b, b)
  }

  /** The number of DATA packets the sender makes of a file: there is no empty one. */
  function BlockCount(size: nat, b: nat): nat
    requires 0 < b
  {
    if size % b == 0 then size / b else size / b + 1
  }

  /** The first k blocks of a file, as one piece. */
  function FirstBlocks(file: bytes, b: nat, k: nat): bytes {
    file[..Min(k * b, |file|)]
  }

  lemma ExtendBlocks(file: bytes, b: nat, k: nat)
    ensures FirstBlocks(file, b, k) + Block(file, b, k + 1) == FirstBlocks(file, b, k + 1)
  {
    assert (k + 1) * b == k * b + b;
  }

  /** What is left of the first k blocks without the first `from`. */
  function Kept(file: bytes, b: nat, from: nat, k: nat): bytes {
    var first := FirstBlocks(file, b, k);
    first[Min(from * b, |first|)..]
  }

  lemma ExtendKept(file: bytes, b: nat, from: nat, k: nat)
    requires from <= k
    ensures Kept(file, b, from, k) + Block(file, b, k + 1) == Kept(file, b, from, k + 1)
    ensures Kept(file, b, 0, k) == FirstBlocks(file, b, k) && Kept(file, b, k, k) == []
  {
    hide Block;
    ExtendBlocks(file, b, k);
    MulMono(from, k, b);
    var first, all := FirstBlocks(file, b, k), FirstBlocks(file, b, k + 1);
    assert from * b <= |first| || |all| == |first|;
  }

  /** Every block that exists is whole, but perhaps the last. */
  lemma BlockSizes(file: bytes, b: nat, k: nat)
    requires 0 < b && 1 <= k <= BlockCount(|file|, b)
    ensures (k - 1) * b < |file| && 0 < |Block(file, b, k)| <= b
    ensures |Block(file, b, k)| == Min(b, |file| - (k - 1) * b)
    ensures |Block(file, b, k)| == b <==> k * b <= |file|
    ensures k < BlockCount(|file|, b) ==> |Block(file, b, k)| == b
  {
    hide BlockCount;
    assert k * b == (k - 1) * b + b;
    BlockCounts(|file|, b, k - 1);
    BlockCounts(|file|, b, k);
  }

  /** Whole blocks fit in front of `size` up to size / b of them, no more. */
  lemma WholeBlocks(size: nat, b: nat, k: nat)
    requires 0 < b
    ensures k * b <= size <==> k <= size / b
    ensures k * b == size <==> size % b == 0 && k == size / b
  {
    assert size == (size / b) * b + size % b;
    if k <= size / b {
      MulMono(k, size / b, b);
    } else {
      MulMono(size / b + 1, k, b);
      assert (size / b + 1) * b == (size / b) * b + b;
    }
    if k < size / b {
      MulMono(k + 1, size / b, b);
      assert (k + 1) * b == k * b + b;
    }
  }

  /** A block number names a DATA packet exactly when the block begins inside the file. */
  lemma BlockCounts(size: nat, b: nat, k: nat)
    requires 0 < b
    ensures k < BlockCount(size, b) <==> k * b < size
  {
    WholeBlocks(size, b, k);
  }

  /** A block that begins inside the file and ends beyond it is the short last one. */
  lemma LastBlock(n: nat, b: nat, k: nat)
    requires 0 < b && k * b < n < (k + 1) * b
    ensures n % b != 0 && k == n / b
  {
    WholeBlocks(n, b, k);
    WholeBlocks(n, b, k + 1);
  }

  /** The ceiling of k / w, by its bounds. */
  lemma CeilUnique(k: nat, w: nat, a: nat)
    requires 0 < w && 0 < a && (a - 1) * w < k <= a * w
    ensures a == (k + w - 1) / w
  {
    var q := (k + w - 1) / w;
    assert k + w - 1 == q * w + (k + w - 1) % w;
    assert (a - 1) * w == a * w - w && (a + 1) * w == a * w + w;
    if q < a {
      MulMono(q, a - 1, w);
    } else if q > a {
      MulMono(a + 1, q, w);
    }
  }

  lemma MulMono(x: nat, y: nat, b: nat)
    requires x <= y
    ensures x * b <= y * b
  {
  }
}
