/** Little-endian integers and fixed-width records of them, as written and read
    by a struct format. */
module Packing {
  import opened Common

  function Pow256(width: nat): (p: nat)
    ensures p >= 1
  {
    if width == 0 then 1 else 0x100 * Pow256(width - 1)
  }

  function ToLE(value: nat, width: nat): (bytes: seq<byte>)
    ensures |bytes| == width
  {
    if width == 0 then [] else [value % 0x100] + ToLE(value / 0x100, width - 1)
  }

  function FromLE(bytes: seq<byte>): (value: nat)
    ensures value < Pow256(|bytes|)
  {
    if bytes == [] then 0 else bytes[0] + 0x100 * FromLE(bytes[1..])
  }

  lemma {:induction false} FromToLE(value: nat, width: nat)
    requires value < Pow256(width)
    ensures FromLE(ToLE(value, width)) == value
  {
    if width > 0 {
      FromToLE(value / 0x100, width - 1);
      assert ToLE(value, width)[1..] == ToLE(value / 0x100, width - 1);
    }
  }

  lemma {:induction false} ToFromLE(bytes: seq<byte>)
    ensures ToLE(FromLE(bytes), |bytes|) == bytes
  {
    if bytes != [] {
      ToFromLE(bytes[1..]);
      DivModUnique(FromLE(bytes), 0x100, FromLE(bytes[1..]), bytes[0]);
    }
  }

  lemma Widths()
    ensures Pow256(2) == 0x1_0000 && Pow256(4) == 0x1_0000_0000 && Pow256(8) == 0x1_0000_0000_0000_0000
  {
    assert Pow256(1) == 0x100 * Pow256(0);
    assert Pow256(3) == 0x100 * Pow256(2);
    assert Pow256(5) == 0x100 * Pow256(4);
    assert Pow256(6) == 0x100 * Pow256(5);
    assert Pow256(7) == 0x100 * Pow256(6);
  }

  function Size(widths: seq<nat>): nat {
    if widths == [] then 0 else widths[0] + Size(widths[1..])
  }

  /** `n` unsigned 16-bit fields. */
  function H(n: nat): (widths: seq<nat>)
    ensures |widths| == n
  {
    seq(n, _ => 2)
  }

  /** `n` unsigned 32-bit fields. */
  function I(n: nat): (widths: seq<nat>)
    ensures |widths| == n
  {
    seq(n, _ => 4)
  }

  lemma {:induction false} SizeUniform(widths: seq<nat>, width: nat)
    requires forall i | 0 <= i < |widths| :: widths[i] == width
    ensures Size(widths) == |widths| * width
  {
    if widths != [] {
      SizeUniform(widths[1..], width);
    }
  }

  lemma {:induction false} SizeAppend(a: seq<nat>, b: seq<nat>)
    ensures Size(a + b) == Size(a) + Size(b)
  {
    if a == [] {
      assert a + b == b;
    } else {
      assert (a + b)[1..] == a[1..] + b;
      SizeAppend(a[1..], b);
    }
  }

  predicate Fit(widths: seq<nat>, values: seq<nat>) {
    |widths| == |values| && forall i | 0 <= i < |widths| :: values[i] < Pow256(widths[i])
  }

  function Pack(widths: seq<nat>, values: seq<nat>): (bytes: seq<byte>)
    requires |widths| == |values|
    ensures |bytes| == Size(widths)
  {
    if widths == [] then [] else ToLE(values[0], widths[0]) + Pack(widths[1..], values[1..])
  }

  /** Reads one value per width from the front of `bytes`. */
  function Unpack(widths: seq<nat>, bytes: seq<byte>): (values: seq<nat>)
    requires Size(widths) <= |bytes|
    ensures Fit(widths, values)
  {
    if widths == [] then []
    else
      assert |bytes[..widths[0]]| == widths[0];
      [FromLE(bytes[..widths[0]])] + Unpack(widths[1..], bytes[widths[0]..])
  }

  lemma {:induction false} UnpackPack(widths: seq<nat>, values: seq<nat>, rest: seq<byte>)
    requires Fit(widths, values)
    ensures Unpack(widths, Pack(widths, values) + rest) == values
  {
    hide ToLE, FromLE, Pow256;
    if widths != [] {
      var first, tail := ToLE(values[0], widths[0]), Pack(widths[1..], values[1..]);
      var bytes := Pack(widths, values) + rest;
      assert bytes[..widths[0]] == first;
      assert bytes[widths[0]..] == tail + rest;
      FromToLE(values[0], widths[0]);
      UnpackPack(widths[1..], values[1..], rest);
      assert values == [values[0]] + values[1..];
    }
  }

  /** Unpacking looks at the first `Size(widths)` bytes only. */
  lemma {:induction false} UnpackPrefix(widths: seq<nat>, bytes: seq<byte>, n: nat)
    requires Size(widths) <= n <= |bytes|
    ensures Unpack(widths, bytes[..n]) == Unpack(widths, bytes)
  {
    if widths != [] {
      var w := widths[0];
      assert bytes[..n][..w] == bytes[..w];
      assert bytes[..n][w..] == bytes[w..][..n - w];
      UnpackPrefix(widths[1..], bytes[w..], n - w);
    }
  }

  // ----- fields by their place ----------------------------------------------

  lemma DivideByPower(b: nat, rest: nat, k: nat)
    requires b < 0x100 && k > 0
    ensures (b + 0x100 * rest) / Pow256(k) == rest / Pow256(k - 1)
  {
    var p := Pow256(k - 1);
    var q, r := rest / p, rest % p;
    assert rest == q * p + r;
    var n := b + 0x100 * rest;
    assert 0x100 * (q * p) == q * (0x100 * p);
    DivModUnique(n, 0x100 * p, q, b + 0x100 * r);
  }

  /** Byte `k` of a little-endian number is its digit of weight 256 to the `k`. */
  lemma {:induction false} LittleEndian(bytes: seq<byte>, k: nat)
    requires k < |bytes|
    ensures FromLE(bytes) / Pow256(k) % 0x100 == bytes[k]
  {
    if k > 0 {
      LittleEndian(bytes[1..], k - 1);
      DivideByPower(bytes[0], FromLE(bytes[1..]), k);
    }
  }

  /** The number in the `width` bytes from `offset` on. */
  function Field(bytes: seq<byte>, offset: nat, width: nat): nat
    requires offset + width <= |bytes|
  {
    FromLE(bytes[offset..offset + width])
  }

  /** A record is its fields one after the other. */
  lemma {:induction false} UnpackIsFields(widths: seq<nat>, bytes: seq<byte>, k: nat)
    requires Size(widths) <= |bytes| && k < |widths|
    ensures Size(widths[..k]) + widths[k] <= |bytes|
    ensures Unpack(widths, bytes)[k] == Field(bytes, Size(widths[..k]), widths[k])
  {
    hide FromLE, Pow256;
    if k == 0 {
      assert widths[..0] == [];
    } else {
      var w := widths[0];
      var tail := bytes[w..];
      UnpackIsFields(widths[1..], tail, k - 1);
      assert widths[..k][1..] == widths[1..][..k - 1];
      var from := Size(widths[1..][..k - 1]);
      assert Unpack(widths, bytes)[k] == Unpack(widths[1..], tail)[k - 1];
      assert Size(widths[..k]) == w + from;
      SubSlice(bytes, w, |bytes|, from, from + widths[k]);
      assert bytes[w..|bytes|] == tail;
    }
  }

  lemma {:induction false} SizeStep(widths: seq<nat>, k: nat)
    requires k < |widths|
    ensures Size(widths[..k + 1]) == Size(widths[..k]) + widths[k]
  {
    SizeAppend(widths[..k], [widths[k]]);
    assert widths[..k + 1] == widths[..k] + [widths[k]];
    assert [widths[k]][1..] == [];
  }
}
