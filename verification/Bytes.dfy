/** Byte strings, the memory image of an `int32_t`, and lists of byte chunks. */
module Bytes {

  newtype Byte = x: int | 0 <= x < 0x100

  type Bytes = seq<Byte>

  datatype Option<+T> = None | Some(value: T)

  const INT32_SPAN: int := 0x1_0000_0000
  const INT32_LIMIT: int := 0x8000_0000

  predicate IsInt32(n: int) {
    -INT32_LIMIT <= n < INT32_LIMIT
  }

  /** The conversion of an integer (a `size_t`, say) to `int32_t`: reduction modulo 2^32. */
  function ToInt32(n: int): (r: int)
    ensures IsInt32(r)
    ensures IsInt32(n) ==> r == n
  {
    (n + INT32_LIMIT) % INT32_SPAN - INT32_LIMIT
  }

  function Min(a: int, b: int): int {
    if a < b then a else b
  }

  function Max(a: int, b: int): int {
    if a < b then b else a
  }

  /** The four bytes of an unsigned word, the low-order one first. */
  function WordBytes(m: int): (b: Bytes)
    requires 0 <= m < INT32_SPAN
    ensures |b| == 4
  {
    [(m % 0x100) as Byte, (m / 0x100 % 0x100) as Byte, (m / 0x1_0000 % 0x100) as Byte, (m / 0x100_0000) as Byte]
  }

  /** The unsigned word that four bytes hold. */
  function BytesWord(b: Bytes): int
    requires |b| == 4
  {
    b[0] as int + 0x100 * (b[1] as int) + 0x1_0000 * (b[2] as int) + 0x100_0000 * (b[3] as int)
  }

  /** The four bytes an `int32_t` occupies in memory on a little-endian host. */
  function Int32Bytes(n: int): (b: Bytes)
    ensures |b| == 4
  {
    WordBytes(n % INT32_SPAN)
  }

  /** The `int32_t` that four bytes of memory hold. */
  function BytesInt32(b: Bytes): (n: int)
    requires |b| == 4
    ensures IsInt32(n)
  {
    ToInt32(BytesWord(b))
  }

  lemma FourDigits(m: int)
    requires 0 <= m < INT32_SPAN
    ensures m == m % 0x100 + 0x100 * (m / 0x100 % 0x100)
      + 0x1_0000 * (m / 0x1_0000 % 0x100) + 0x100_0000 * (m / 0x100_0000)
  {
    var q1, q2, q3 := m / 0x100, m / 0x1_0000, m / 0x100_0000;
    assert q2 == q1 / 0x100 && q3 == q2 / 0x100;
  }

  lemma WordRoundTrip(m: int)
    requires 0 <= m < INT32_SPAN
    ensures BytesWord(WordBytes(m)) == m
  {
    FourDigits(m);
  }

  lemma ToInt32Reduced(n: int)
    ensures ToInt32(n % INT32_SPAN) == ToInt32(n)
  {
    var q := n / INT32_SPAN;
    assert n == q * INT32_SPAN + n % INT32_SPAN;
  }

  lemma Int32RoundTrip(n: int)
    ensures BytesInt32(Int32Bytes(n)) == ToInt32(n)
  {
    WordRoundTrip(n % INT32_SPAN);
    ToInt32Reduced(n);
  }

  /** The low-order byte comes first, whatever the sign of the integer. */
  lemma LowOrderFirst(n: int)
    ensures var b := Int32Bytes(n);
      && b[0] as int == n % 0x100 && b[1] as int == n / 0x100 % 0x100
      && b[2] as int == n / 0x1_0000 % 0x100 && b[3] as int == n / 0x100_0000 % 0x100
  {
    FirstByte(n, n % INT32_SPAN);
    SecondByte(n, n % INT32_SPAN);
    ThirdByte(n, n % INT32_SPAN);
    FourthByte(n, n % INT32_SPAN);
  }

  lemma FirstByte(n: int, m: int)
    requires m == n % INT32_SPAN
    ensures n % 0x100 == m % 0x100
  {
    SameLowByte(n, m, (n / INT32_SPAN) * 0x100_0000);
  }

  lemma SameLowByte(w: int, u: int, k: int)
    requires w == u + 0x100 * k
    ensures w % 0x100 == u % 0x100
  {
  }

  lemma SecondByte(n: int, m: int)
    requires m == n % INT32_SPAN
    ensures n / 0x100 % 0x100 == m / 0x100 % 0x100
  {
    var q := n / INT32_SPAN;
    assert n == q * INT32_SPAN + m;
    var u, r := m / 0x100, m % 0x100;
    assert m == u * 0x100 + r;
    assert n == (q * 0x100_0000 + u) * 0x100 + r;
    SameLowByte(n / 0x100, u, q * 0x1_0000);
  }

  lemma ThirdByte(n: int, m: int)
    requires m == n % INT32_SPAN
    ensures n / 0x1_0000 % 0x100 == m / 0x1_0000 % 0x100
  {
    var q := n / INT32_SPAN;
    assert n == q * INT32_SPAN + m;
    var u, r := m / 0x1_0000, m % 0x1_0000;
    assert m == u * 0x1_0000 + r;
    assert n == (q * 0x1_0000 + u) * 0x1_0000 + r;
    SameLowByte(n / 0x1_0000, u, q * 0x100);
  }

  lemma FourthByte(n: int, m: int)
    requires m == n % INT32_SPAN
    ensures n / 0x100_0000 % 0x100 == m / 0x100_0000
  {
    var q := n / INT32_SPAN;
    assert n == q * INT32_SPAN + m;
    var u, r := m / 0x100_0000, m % 0x100_0000;
    assert m == u * 0x100_0000 + r;
    assert n == (q * 0x100 + u) * 0x100_0000 + r;
    SameLowByte(n / 0x100_0000, u, q);
  }

  /** Any four bytes are the image of the integer they hold. */
  lemma BytesRoundTrip(b: Bytes)
    requires |b| == 4
    ensures Int32Bytes(BytesInt32(b)) == b
  {
    var m := BytesWord(b);
    assert BytesInt32(b) % INT32_SPAN == m;
    WordOfBytes(b);
  }

  lemma WordOfBytes(b: Bytes)
    requires |b| == 4
    ensures 0 <= BytesWord(b) < INT32_SPAN && WordBytes(BytesWord(b)) == b
  {
    var m, r2 := BytesWord(b), b[2] as int + 0x100 * (b[3] as int);
    var r1 := b[1] as int + 0x100 * r2;
    LowDigit(m, b[0], r1);
    LowDigit(r1, b[1], r2);
    LowDigit(r2, b[2], b[3] as int);
    assert m / 0x1_0000 == m / 0x100 / 0x100 && m / 0x100_0000 == m / 0x1_0000 / 0x100;
  }

  lemma LowDigit(m: int, b: Byte, r: int)
    requires m == b as int + 0x100 * r
    ensures m % 0x100 == b as int && m / 0x100 == r
  {
  }

  /** The bytes tell the integer modulo 2^32, and nothing more. */
  lemma Int32BytesExactly(m: int, n: int)
    ensures Int32Bytes(m) == Int32Bytes(n) <==> m % INT32_SPAN == n % INT32_SPAN
  {
    WordRoundTrip(m % INT32_SPAN);
    WordRoundTrip(n % INT32_SPAN);
  }

  /** The concatenation of a list of chunks. */
  function Flat<T>(chunks: seq<seq<T>>): seq<T> {
    if chunks == [] then [] else chunks[0] + Flat(chunks[1..])
  }

  lemma {:induction false} FlatAppend<T>(a: seq<seq<T>>, b: seq<seq<T>>)
    ensures Flat(a + b) == Flat(a) + Flat(b)
  {
    if a == [] {
      assert a + b == b;
    } else {
      assert (a + b)[0] == a[0] && (a + b)[1..] == a[1..] + b;
      FlatAppend(a[1..], b);
    }
  }

  lemma FlatSnoc<T>(a: seq<seq<T>>, c: seq<T>)
    ensures Flat(a + [c]) == Flat(a) + c
  {
    FlatAppend(a, [c]);
    assert Flat([c]) == c + Flat([]);
  }
}
