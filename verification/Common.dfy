/** Result types and bytes shared by the models. */
module Common {
  datatype Option<+T> = None | Some(value: T)

  datatype Result<+T> = Ok(value: T) | Err

  type byte = x: int | 0 <= x < 0x100
  type u16 = x: int | 0 <= x < 0x1_0000
  type u32 = x: int | 0 <= x < 0x1_0000_0000

  const U16_MAX: int := 0xffff
  const U32_MAX: int := 0xffff_ffff

  // ---------- division ----------

  lemma DivBounds(a: int, b: int)
    requires b > 0
    ensures a / b * b <= a < a / b * b + b
  {
  }

  lemma MulMonotone(a: int, b: int, d: int)
    requires a <= b && d >= 0
    ensures a * d <= b * d
  {
  }

  // ---------- big-endian numbers ----------

  function Be16(n: u16): (b: seq<byte>)
    ensures |b| == 2
  {
    [n / 0x100, n % 0x100]
  }

  function FromBe16(b: seq<byte>): u16
    requires |b| == 2
  {
    var high: int := b[0];
    high * 0x100 + b[1]
  }

  function Be32(n: u32): (b: seq<byte>)
    ensures |b| == 4
  {
    Be16(n / 0x1_0000) + Be16(n % 0x1_0000)
  }

  function FromBe32(b: seq<byte>): u32
    requires |b| == 4
  {
    var high: int := FromBe16(b[..2]);
    high * 0x1_0000 + FromBe16(b[2..])
  }

  /** The high byte comes first. */
  lemma Be16Value(n: u16)
    ensures var b := Be16(n); b[0] as int * 0x100 + b[1] as int == n
  {
  }

  lemma Be32Value(n: u32)
    ensures var b := Be32(n);
      b[0] as int * 0x100_0000 + b[1] as int * 0x1_0000 + b[2] as int * 0x100 + b[3] as int == n
  {
    Be16Value(n / 0x1_0000);
    Be16Value(n % 0x1_0000);
  }

  /** The number that these bytes of the data stand for, the highest first. */
  function NumberAt(data: seq<byte>, at: nat, width: nat): nat
    requires at + width <= |data|
  {
    if width == 0 then 0 else NumberAt(data, at, width - 1) * 0x100 + data[at + width - 1]
  }

  lemma Number16At(data: seq<byte>, at: nat, n: u16)
    requires at + 2 <= |data| && data[at..at + 2] == Be16(n)
    ensures NumberAt(data, at, 2) == n
  {
    Be16Value(n);
    assert data[at] == Be16(n)[0] && data[at + 1] == Be16(n)[1];
    assert NumberAt(data, at, 1) == NumberAt(data, at, 0) * 0x100 + data[at] == data[at];
  }

  lemma Number32At(data: seq<byte>, at: nat, n: u32)
    requires at + 4 <= |data| && data[at..at + 4] == Be32(n)
    ensures NumberAt(data, at, 4) == n
  {
    Be32Value(n);
    var b := data[at..at + 4];
    assert data[at] == b[0] && data[at + 1] == b[1] && data[at + 2] == b[2] && data[at + 3] == b[3];
    assert NumberAt(data, at, 1) == NumberAt(data, at, 0) * 0x100 + data[at];
    assert NumberAt(data, at, 2) == NumberAt(data, at, 1) * 0x100 + data[at + 1];
    assert NumberAt(data, at, 3) == NumberAt(data, at, 2) * 0x100 + data[at + 2];
  }

  lemma Be16RoundTrip(n: u16)
    ensures FromBe16(Be16(n)) == n
  {
  }

  lemma Be16Inverse(b: seq<byte>)
    requires |b| == 2
    ensures Be16(FromBe16(b)) == b
  {
  }

  lemma Be32RoundTrip(n: u32)
    ensures FromBe32(Be32(n)) == n
  {
    assert Be32(n)[..2] == Be16(n / 0x1_0000) && Be32(n)[2..] == Be16(n % 0x1_0000);
  }

  lemma Be32Inverse(b: seq<byte>)
    requires |b| == 4
    ensures Be32(FromBe32(b)) == b
  {
    Be16Inverse(b[..2]);
    Be16Inverse(b[2..]);
    assert b == b[..2] + b[2..];
  }
}
