/** Fixed-width machine integers and the stock result types shared by the models. */
module Machine {

  datatype Option<+T> = None | Some(value: T)

  type byte = x: int | 0 <= x < 256

  const MAX_INT32: int := 0x7fff_ffff

  function Min(a: int, b: int): int { if a < b then a else b }

  /** The int32 that Go stores for an exact result x: two's complement wrap-around. */
  function Int32(x: int): (r: int)
    ensures -0x8000_0000 <= r <= MAX_INT32
    ensures -0x8000_0000 <= x <= MAX_INT32 ==> r == x
    ensures MAX_INT32 < x <= 0xffff_ffff ==> r < 0
  {
    (x + 0x8000_0000) % 0x1_0000_0000 - 0x8000_0000
  }

  /** The uint32 that Go stores for an exact result x. */
  function Uint32(x: int): (r: int)
    ensures 0 <= r <= 0xffff_ffff
    ensures 0 <= x <= 0xffff_ffff ==> r == x
  {
    x % 0x1_0000_0000
  }

  /** Exclusive or of two numbers, bit by bit. */
  function Xor(a: nat, b: nat): nat
    decreases a + b
  {
    if a == 0 then b else if b == 0 then a else 2 * Xor(a / 2, b / 2) + (a + b) % 2
  }

  /** Bitwise or of two numbers. */
  function Or(a: nat, b: nat): nat
    decreases a + b
  {
    if a == 0 then b else if b == 0 then a else 2 * Or(a / 2, b / 2) + if a % 2 == 0 && b % 2 == 0 then 0 else 1
  }

  lemma OrEven(a: nat, b: nat)
    ensures Or(2 * a, b) == 2 * Or(a, b / 2) + b % 2
  {
  }

  lemma OrFour(a: nat, b: nat, c: nat)
    requires c == 4 * a
    ensures Or(c, b) == 4 * Or(a, b / 4) + b % 4
  {
    OrEven(2 * a, b);
    OrEven(a, b / 2);
  }

  lemma OrSixteen(a: nat, b: nat, c: nat)
    requires c == 16 * a
    ensures Or(c, b) == 16 * Or(a, b / 16) + b % 16
  {
    var d, q := 4 * a, b / 4;
    OrFour(d, b, c);
    OrFour(a, q, d);
    assert q / 4 == b / 16 && b % 16 == 4 * (q % 4) + b % 4;
  }

  /** Or with a multiple of 256 leaves the low byte alone. */
  lemma OrByte(a: nat, b: nat, c: nat)
    requires c == 256 * a
    ensures Or(c, b) == 256 * Or(a, b / 256) + b % 256
  {
    var d, q := 16 * a, b / 16;
    OrSixteen(d, b, c);
    OrSixteen(a, q, d);
    assert q / 16 == b / 256 && b % 256 == 16 * (q % 16) + b % 16;
  }
}
