/** Bytes, and the little-endian integers stored in them. */
module LittleEndian {
  import opened Bits

  type Byte = b: nat | b < 256

  function Pow256(n: nat): (r: nat)
    ensures r > 0
  {
    if n == 0 then 1 else 256 * Pow256(n - 1)
  }

  /** The `n`-byte little-endian value at `at`. */
  function Read(data: seq<Byte>, at: nat, n: nat): nat
    requires at + n <= |data|
    decreases n
  {
    if n == 0 then 0 else data[at] + 256 * Read(data, at + 1, n - 1)
  }

  function LeBytes(v: nat, n: nat): (b: seq<Byte>)
    ensures |b| == n
  {
    if n == 0 then [] else [v % 256] + LeBytes(v / 256, n - 1)
  }

  /** A field of an image: its width in bytes and its value. */
  datatype FieldSpec = FieldSpec(width: nat, value: nat)
  type Field = f: FieldSpec | f.value < Pow256(f.width) witness FieldSpec(1, 0)

  function Print(fields: seq<Field>): (b: seq<Byte>)
    ensures |b| == Width(fields)
  {
    if fields == [] then [] else Print(fields[..|fields| - 1]) + LeBytes(fields[|fields| - 1].value, fields[|fields| - 1].width)
  }

  function Width(fields: seq<Field>): nat {
    if fields == [] then 0 else Width(fields[..|fields| - 1]) + fields[|fields| - 1].width
  }

  lemma {:induction false} ReadIn(data: seq<Byte>, at: nat, n: nat, part: seq<Byte>)
    requires at + n <= |data| && |part| == n && data[at..at + n] == part
    ensures Read(data, at, n) == Read(part, 0, n)
    decreases n
  {
    if n > 0 {
      assert data[at] == part[0];
      assert data[at + 1..at + 1 + (n - 1)] == part[1..];
      ReadIn(data, at + 1, n - 1, part[1..]);
      assert part[1..1 + (n - 1)] == part[1..];
      ReadIn(part, 1, n - 1, part[1..]);
    }
  }

  lemma {:induction false} ReadLeBytes(v: nat, n: nat)
    requires v < Pow256(n)
    ensures Read(LeBytes(v, n), 0, n) == v
    decreases n
  {
    if n > 0 {
      var b := LeBytes(v, n);
      assert b[1..1 + (n - 1)] == LeBytes(v / 256, n - 1);
      ReadIn(b, 1, n - 1, LeBytes(v / 256, n - 1));
      ReadLeBytes(v / 256, n - 1);
    }
  }

  /** Reading field `k` of a printed list, wherever it stands in an image. */
  lemma {:induction false} ReadField(data: seq<Byte>, at: nat, fields: seq<Field>, k: nat)
    requires k < |fields| && at + Width(fields) <= |data| && data[at..at + Width(fields)] == Print(fields)
    ensures at + Width(fields[..k]) + fields[k].width <= |data|
    ensures Read(data, at + Width(fields[..k]), fields[k].width) == fields[k].value
    decreases |fields|
  {
    var n := |fields| - 1;
    var w := Width(fields[..n]);
    var last := LeBytes(fields[n].value, fields[n].width);
    assert Print(fields)[..w] == Print(fields[..n]);
    assert data[at..at + w] == data[at..at + Width(fields)][..w];
    if k == n {
      assert data[at + w..at + w + fields[n].width] == data[at..at + Width(fields)][w..] == last;
      ReadIn(data, at + w, fields[n].width, last);
      ReadLeBytes(fields[n].value, fields[n].width);
    } else {
      assert fields[..n][..k] == fields[..k];
      ReadField(data, at, fields[..n], k);
    }
  }

  /** The first byte is the lowest. */
  lemma LowByteFirst(data: seq<Byte>, at: nat)
    requires at + 4 <= |data|
    ensures Read(data, at, 4)
      == data[at] as int + 0x100 * data[at + 1] as int + 0x1_0000 * data[at + 2] as int + 0x100_0000 * data[at + 3] as int
  {
    assert Read(data, at + 3, 1) == data[at + 3] + 256 * Read(data, at + 4, 0);
    assert Read(data, at + 1, 3) == data[at + 1] + 256 * (data[at + 2] + 256 * Read(data, at + 3, 1));
  }
}
