/** Failure values shared by the modules that mirror fallible Rust functions. */
module Wrappers {
  datatype Option<+T> = None | Some(value: T)

  datatype Result<+T, +E> = Ok(value: T) | Err(error: E) {
    predicate IsFailure() { Err? }

    function PropagateFailure<U>(): Result<U, E>
      requires Err?
    {
      Err(error)
    }

    function Extract(): T
      requires Ok?
    {
      value
    }
  }
}

/** Machine words, and the little-endian and big-endian layouts the file formats use. */
module Words {
  type byte = b: int | 0 <= b < 0x100
  type u16 = w: int | 0 <= w < 0x1_0000
  type u32 = w: int | 0 <= w < 0x1_0000_0000
  type u64 = w: int | 0 <= w < 0x1_0000_0000_0000_0000

  function Le16(v: u16): (s: seq<byte>)
    ensures |s| == 2
  {
    [v % 0x100, v / 0x100]
  }

  function Le32(v: u32): (s: seq<byte>)
    ensures |s| == 4
  {
    Le16(v % 0x1_0000) + Le16(v / 0x1_0000)
  }

  function Le64(v: u64): (s: seq<byte>)
    ensures |s| == 8
  {
    Le32(v % 0x1_0000_0000) + Le32(v / 0x1_0000_0000)
  }

  function Be16(v: u16): (s: seq<byte>)
    ensures |s| == 2
  {
    [v / 0x100, v % 0x100]
  }

  function Be32(v: u32): (s: seq<byte>)
    ensures |s| == 4
  {
    Be16(v / 0x1_0000) + Be16(v % 0x1_0000)
  }

  function U16At(s: seq<byte>, at: nat): u16
    requires at + 2 <= |s|
  {
    var low: int, high: int := s[at], s[at + 1];
    low + 0x100 * high
  }

  function U32At(s: seq<byte>, at: nat): u32
    requires at + 4 <= |s|
  {
    var low: int, high: int := U16At(s, at), U16At(s, at + 2);
    low + 0x1_0000 * high
  }

  function U64At(s: seq<byte>, at: nat): u64
    requires at + 8 <= |s|
  {
    var low: int, high: int := U32At(s, at), U32At(s, at + 4);
    low + 0x1_0000_0000 * high
  }

  function BeU32At(s: seq<byte>, at: nat): u32
    requires at + 4 <= |s|
  {
    var a: int, b: int, c: int, d: int := s[at], s[at + 1], s[at + 2], s[at + 3];
    0x1_0000 * (0x100 * a + b) + (0x100 * c + d)
  }

  /** The least significant byte comes first. */
  lemma WordsAreLittleEndian(s: seq<byte>, at: nat)
    requires at + 8 <= |s|
    ensures var a: int, b: int, c: int, d: int := s[at], s[at + 1], s[at + 2], s[at + 3];
            U16At(s, at) == a + 256 * b && U32At(s, at) == a + 256 * (b + 256 * (c + 256 * d))
    ensures var low: int, high: int := U32At(s, at), U32At(s, at + 4); U64At(s, at) == low + 4294967296 * high
  {
  }

  /** In a PNG the most significant byte does. */
  lemma WordsAreBigEndian(s: seq<byte>, v: u32)
    requires s == Be32(v)
    ensures var a: int, b: int, c: int, d: int := s[0], s[1], s[2], s[3];
            v == 256 * (256 * (256 * a + b) + c) + d && BeU32At(s, 0) == v
  {
    assert s[0..4] == s;
    ReadBe32(s, 0, v);
  }

  /** A 16-bit word is read back from wherever it was laid out. */
  lemma ReadLe16(s: seq<byte>, at: nat, v: u16)
    requires at + 2 <= |s| && s[at..at + 2] == Le16(v)
    ensures U16At(s, at) == v
  {
    assert s[at] == s[at..at + 2][0] && s[at + 1] == s[at..at + 2][1];
  }

  /** A 32-bit word is read back from wherever it was laid out. */
  lemma ReadLe32(s: seq<byte>, at: nat, v: u32)
    requires at + 4 <= |s| && s[at..at + 4] == Le32(v)
    ensures U32At(s, at) == v
  {
    var w := s[at..at + 4];
    assert s[at..at + 2] == w[..2] && s[at + 2..at + 4] == w[2..];
    ReadLe16(s, at, v % 0x1_0000);
    ReadLe16(s, at + 2, v / 0x1_0000);
  }

  /** A 64-bit word is read back from wherever it was laid out. */
  lemma ReadLe64(s: seq<byte>, at: nat, v: u64)
    requires at + 8 <= |s| && s[at..at + 8] == Le64(v)
    ensures U64At(s, at) == v
  {
    hide Le32, U32At;
    var w := s[at..at + 8];
    assert s[at..at + 4] == w[..4] && s[at + 4..at + 8] == w[4..];
    ReadLe32(s, at, v % 0x1_0000_0000);
    ReadLe32(s, at + 4, v / 0x1_0000_0000);
  }

  lemma ReadBe32(s: seq<byte>, at: nat, v: u32)
    requires at + 4 <= |s| && s[at..at + 4] == Be32(v)
    ensures BeU32At(s, at) == v
  {
    var w := s[at..at + 4];
    var high, low := v / 0x1_0000, v % 0x1_0000;
    assert w[..2] == Be16(high) && w[2..] == Be16(low);
    assert s[at] == w[..2][0] && s[at + 1] == w[..2][1] && s[at + 2] == w[2..][0] && s[at + 3] == w[2..][1];
    var a: int, b: int, c: int, d: int := s[at], s[at + 1], s[at + 2], s[at + 3];
    assert 0x100 * a + b == high && 0x100 * c + d == low;
  }

  /** Two 64-bit words with the same layout are equal. */
  lemma Le64Injective(a: u64, b: u64)
    requires Le64(a) == Le64(b)
    ensures a == b
  {
    var p, q := Le64(a), Le64(b);
    assert p[..4] == Le32(a % 0x1_0000_0000) && p[4..] == Le32(a / 0x1_0000_0000);
    assert q[..4] == Le32(b % 0x1_0000_0000) && q[4..] == Le32(b / 0x1_0000_0000);
    ReadLe32(p[..4], 0, a % 0x1_0000_0000);
    ReadLe32(q[..4], 0, b % 0x1_0000_0000);
    ReadLe32(p[4..], 0, a / 0x1_0000_0000);
    ReadLe32(q[4..], 0, b / 0x1_0000_0000);
  }

  lemma SliceOfSlice<T>(s: seq<T>, a: nat, b: nat, c: nat, d: nat)
    requires a <= b <= |s| && c <= d <= b - a
    ensures s[a..b][c..d] == s[a + c..a + d]
  {
    assert forall i :: 0 <= i < d - c ==> s[a..b][c..d][i] == s[a..b][c + i] == s[a + c + i];
  }

  /** Words read through a slice are the words of the whole. */
  lemma WordsOfSlice(s: seq<byte>, a: nat, b: nat)
    requires a <= b <= |s|
    ensures forall k :: 0 <= k && a + k + 2 <= b ==> U16At(s[a..b], k) == U16At(s, a + k)
    ensures forall k :: 0 <= k && a + k + 4 <= b ==> U32At(s[a..b], k) == U32At(s, a + k)
  {
    assert forall i :: 0 <= i < b - a ==> s[a..b][i] == s[a + i];
    forall k | 0 <= k && a + k + 2 <= b ensures U16At(s[a..b], k) == U16At(s, a + k) {
      assert s[a..b][k] == s[a + k] && s[a..b][k + 1] == s[a + (k + 1)];
    }
    forall k | 0 <= k && a + k + 4 <= b ensures U32At(s[a..b], k) == U32At(s, a + k) {
      assert U16At(s[a..b], k) == U16At(s, a + k) && U16At(s[a..b], k + 2) == U16At(s, a + (k + 2));
    }
  }
}
