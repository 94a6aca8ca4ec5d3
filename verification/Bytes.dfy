/** Machine-level vocabulary shared by every module: bytes, fixed-width unsigned
    integers, their little- and big-endian images, and concatenation of pieces. */
module Bytes {
  type byte = b: int | 0 <= b < 0x100
  type u16 = n: int | 0 <= n < 0x1_0000
  type u32 = n: int | 0 <= n < 0x1_0000_0000

  datatype Option<+T> = None | Some(value: T)

  /** The memory image of a 32-bit integer on a little-endian host. */
  function Le32(n: u32): (s: seq<byte>)
    ensures |s| == 4
  {
    [n % 0x100, n / 0x100 % 0x100, n / 0x1_0000 % 0x100, n / 0x100_0000]
  }

  /** The 32-bit integer that a little-endian host reads at offset `at`. */
  function Le32At(s: seq<byte>, at: nat): u32
    requires at + 4 <= |s|
  {
    s[at] as int + 0x100 * s[at + 1] as int + 0x1_0000 * s[at + 2] as int + 0x100_0000 * s[at + 3] as int
  }

  lemma Le32RoundTrip(n: u32)
    ensures Le32At(Le32(n), 0) == n
  {
    var a, b := n / 0x100, n / 0x1_0000;
    assert n == 0x100 * a + n % 0x100;
    assert a / 0x100 == b && a == 0x100 * b + a % 0x100;
    assert b / 0x100 == n / 0x100_0000 && b == 0x100 * (n / 0x100_0000) + b % 0x100;
  }

  /** The network (big-endian) image of a 16-bit integer. */
  function Be16(n: u16): (s: seq<byte>)
    ensures |s| == 2
  {
    [n / 0x100, n % 0x100]
  }

  /** The 16-bit integer in network order at offset `at`. */
  function Be16At(s: seq<byte>, at: nat): u16
    requires at + 2 <= |s|
  {
    0x100 * s[at] as int + s[at + 1] as int
  }

  function Zeros(n: nat): (s: seq<byte>)
    ensures |s| == n
    ensures forall i | 0 <= i < n :: s[i] == 0
  {
    seq(n, i => 0)
  }

  function Flatten<T>(pieces: seq<seq<T>>): seq<T> {
    if pieces == [] then [] else pieces[0] + Flatten(pieces[1..])
  }

  lemma FlattenOne<T>(piece: seq<T>)
    ensures Flatten([piece]) == piece
  {
    assert Flatten([piece][1..]) == [];
  }

  lemma {:induction false} FlattenConcat<T>(a: seq<seq<T>>, b: seq<seq<T>>)
    ensures Flatten(a + b) == Flatten(a) + Flatten(b)
  {
    if a == [] {
      assert a + b == b;
    } else {
      var ab := a + b;
      assert ab[0] == a[0] && ab[1..] == a[1..] + b;
      FlattenConcat(a[1..], b);
      assert a[0] + (Flatten(a[1..]) + Flatten(b)) == a[0] + Flatten(a[1..]) + Flatten(b);
    }
  }
}
