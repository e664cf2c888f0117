/** The DATA packets that a file makes. */
module Emissions {
  import opened Bytes
  import opened Blocks
  import opened Transfer

  /** The DATA packets for `count` blocks after the first `made`. */
  function Emission(file: bytes, b: nat, made: nat, count: nat): seq<Packet> {
    seq(count, i requires 0 <= i => Data(Wire(made + i + 1), Block(file, b, made + i + 1)))
  }

  lemma EmissionCons(file: bytes, b: nat, made: nat, count: nat)
    ensures Emission(file, b, made, count + 1) ==
            [Data(Wire(made + 1), Block(file, b, made + 1))] + Emission(file, b, made + 1, count)
  {
    var whole, rest := Emission(file, b, made, count + 1), Emission(file, b, made + 1, count);
    forall i | 0 < i < count + 1 ensures whole[i] == rest[i - 1] {
      assert made + 1 + (i - 1) + 1 == made + i + 1;
    }
  }

  lemma NothingEmitted(file: bytes, b: nat, made: nat)
    ensures Emission(file, b, made, 0) == []
  {
  }

  lemma EmissionOne(file: bytes, b: nat, made: nat)
    ensures Emission(file, b, made, 1) == [Data(Wire(made + 1), Block(file, b, made + 1))]
  {
  }

  lemma EmissionAppend(file: bytes, b: nat, made: nat, count: nat, more: nat)
    ensures Emission(file, b, made, count) + Emission(file, b, made + count, more) == Emission(file, b, made, count + more)
  {
    var whole, rest := Emission(file, b, made, count + more), Emission(file, b, made + count, more);
    forall i | count <= i < count + more ensures whole[i] == rest[i - count] {
      assert made + count + (i - count) + 1 == made + i + 1;
    }
  }
}
