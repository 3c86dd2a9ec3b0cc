/**
 * The native stub that stands in for a messaging socket: three loops over a
 * caller-supplied byte buffer `buf` of which the first `len` bytes are used.
 *
 * A C caller passes a raw pointer and a length; here the buffer is an
 * `array<Byte>` and `len <= buf.Length` takes the place of "the pointer is
 * valid for `len` bytes", which the C code cannot check.
 */
module MockZmq {
  import opened CTypes

  /** The fixed mask `mock_transform` XORs into every byte. */
  const MASK: Byte := 0xAA

  // ---------------------------------------------------------------------
  // Specification functions
  // ---------------------------------------------------------------------

  /** The sum of the bytes of `s`, each read as an unsigned value 0..255. */
  function Sum(s: seq<Byte>): (total: nat)
    ensures total <= 255 * |s|
    ensures s == [] ==> total == 0
  {
    if s == [] then 0 else Sum(s[..|s| - 1]) + s[|s| - 1] as int
  }

  /** The byte `mock_recv` writes at `position`: the position modulo 256. */
  function PatternByte(position: nat): Byte
  {
    (position % 256) as Byte
  }

  /** The first `n` bytes of the receive pattern 0, 1, ..., 255, 0, 1, ... */
  function Pattern(n: nat): (p: seq<Byte>)
    ensures |p| == n
  {
    seq(n, k requires 0 <= k < n => PatternByte(k))
  }

  /** Every byte of `s` XORed with MASK. */
  function Xor(s: seq<Byte>): (r: seq<Byte>)
    ensures |r| == |s|
    ensures forall k :: 0 <= k < |s| ==> r[k] ^ MASK == s[k]
  {
    seq(|s|, k requires 0 <= k < |s| => s[k] ^ MASK)
  }

  // ---------------------------------------------------------------------
  // Properties of the specification functions
  // ---------------------------------------------------------------------

  /** The checksum of a concatenation is the sum of the checksums. */
  lemma {:induction false} SumAppend(s: seq<Byte>, t: seq<Byte>)
    ensures Sum(s + t) == Sum(s) + Sum(t)
  {
    if t == [] {
      assert s + t == s;
    } else {
      var u := t[..|t| - 1];
      assert (s + t)[..|s + t| - 1] == s + u;
      SumAppend(s, u);
    }
  }

  /** Adding bytes never decreases the checksum: a prefix sums to no more. */
  lemma SumPrefixBound(s: seq<Byte>, j: nat)
    requires j <= |s|
    ensures Sum(s[..j]) <= Sum(s)
  {
    assert s == s[..j] + s[j..];
    SumAppend(s[..j], s[j..]);
  }

  /** The checksum after one more byte: the loop step of `mock_send`. */
  lemma SumStep(s: seq<Byte>, i: nat)
    requires i < |s|
    ensures Sum(s[..i + 1]) == Sum(s[..i]) + s[i] as int
  {
    assert s[..i + 1][..i] == s[..i];
  }

  /** No buffer of up to INT64_MAX / 255 bytes can overflow the checksum. */
  lemma SumFitsInt64(s: seq<Byte>)
    requires |s| <= INT64_MAX / 255
    ensures Sum(s) <= INT64_MAX
  {
  }

  /** The pattern depends on the position only: it repeats every 256 bytes. */
  lemma PatternPeriodic(n: nat, k: nat)
    requires k + 256 < n
    ensures Pattern(n)[k + 256] == Pattern(n)[k]
  {
    var q := k / 256;
    assert k == 256 * q + k % 256;
    assert k + 256 == 256 * (q + 1) + k % 256;
    assert (k + 256) % 256 == k % 256;
    assert PatternByte(k + 256) == PatternByte(k);
  }

  /** A shorter receive writes a prefix of what a longer one writes. */
  lemma PatternPrefix(n: nat, m: nat)
    requires n <= m
    ensures Pattern(m)[..n] == Pattern(n)
  {
  }

  /** Within one period, byte k of the pattern is k itself. */
  lemma PatternFirstPeriod(n: nat, k: nat)
    requires k < n && k < 256
    ensures Pattern(n)[k] as int == k
  {
    assert k % 256 == k;
  }

  /** XOR with a fixed mask undoes itself. */
  lemma XorInvolutive(s: seq<Byte>)
    ensures Xor(Xor(s)) == s
  {
  }

  /** XOR on a buffer commutes with taking a prefix. */
  lemma XorPrefix(s: seq<Byte>, j: nat)
    requires j <= |s|
    ensures Xor(s)[..j] == Xor(s[..j])
  {
  }

  // ---------------------------------------------------------------------
  // The three entry points
  // ---------------------------------------------------------------------

  /**
   * mock_send: reads the first `len` bytes and returns their sum as an
   * int64_t. The buffer is read-only (no modifies clause).
   *
   * The C accumulator is a signed int64_t, and signed overflow is undefined
   * behaviour in C, so the caller must not pass bytes whose sum exceeds
   * INT64_MAX; SumFitsInt64 shows that any `len <= INT64_MAX / 255` is safe.
   */
  method Send(buf: array<Byte>, len: Size) returns (checksum: Int64)
    requires len as int <= buf.Length
    requires Sum(buf[..len]) <= INT64_MAX
    ensures checksum as int == Sum(buf[..len])
    ensures 0 <= checksum as int <= 255 * len as int
    ensures len == 0 ==> checksum == 0
  {
    checksum := 0;
    var i: Size := 0;
    while i < len
      invariant i <= len
      invariant checksum as int == Sum(buf[..i])
    {
      SumStep(buf[..len], i as int);
      assert buf[..len][..i] == buf[..i] && buf[..len][..i + 1] == buf[..i + 1];
      SumPrefixBound(buf[..len], i as int + 1);
      checksum := checksum + buf[i] as int as Int64;
      i := i + 1;
    }
    assert buf[..len][..i] == buf[..len];
  }

  /**
   * mock_recv: overwrites the first `len` bytes with the position pattern
   * and returns the number of bytes written, converted to int64_t. What the
   * buffer held before is never read; bytes from `len` on are untouched.
   */
  method Recv(buf: array<Byte>, len: Size) returns (written: Int64)
    requires len as int <= buf.Length
    modifies buf
    ensures buf[..len] == Pattern(len as int)
    ensures buf[len..] == old(buf[len..])
    ensures written == SizeToInt64(len)
    ensures len as int <= INT64_MAX ==> written as int == len as int
  {
    var i: Size := 0;
    while i < len
      invariant i <= len
      invariant forall k :: 0 <= k < i as int ==> buf[k] == PatternByte(k)
      invariant buf[len..] == old(buf[len..])
    {
      buf[i] := PatternByte(i as int);
      i := i + 1;
    }
    written := SizeToInt64(len);
  }

  /**
   * mock_transform: XORs each of the first `len` bytes with MASK in place;
   * bytes from `len` on are untouched. With `len == 0` nothing changes.
   */
  method Transform(buf: array<Byte>, len: Size)
    requires len as int <= buf.Length
    modifies buf
    ensures buf[..len] == Xor(old(buf[..len]))
    ensures buf[len..] == old(buf[len..])
  {
    var i: Size := 0;
    while i < len
      invariant i <= len
      invariant forall k :: 0 <= k < i as int ==> buf[k] == old(buf[k]) ^ MASK
      invariant forall k :: i as int <= k < buf.Length ==> buf[k] == old(buf[k])
    {
      buf[i] := buf[i] ^ MASK;
      i := i + 1;
    }
  }

  // ---------------------------------------------------------------------
  // Client-level consequences
  // ---------------------------------------------------------------------

  /** Transforming twice with the same length restores the whole buffer. */
  method TransformTwice(buf: array<Byte>, len: Size)
    requires len as int <= buf.Length
    modifies buf
    ensures buf[..] == old(buf[..])
  {
    ghost var before := buf[..];
    Transform(buf, len);
    Transform(buf, len);
    XorInvolutive(before[..len]);
    assert buf[..] == buf[..len] + buf[len..];
    assert before == before[..len] + before[len..];
  }

  /** The checksum of the bytes 1, 2, 3, 4 is 10. */
  lemma SumExample()
    ensures Sum([1, 2, 3, 4]) == 10
  {
    var s: seq<Byte> := [1, 2, 3, 4];
    SumStep(s, 0);
    SumStep(s, 1);
    SumStep(s, 2);
    SumStep(s, 3);
    assert s[..4] == s;
  }

  /** Worked example: sending 1, 2, 3, 4 and sending nothing. */
  method SendScenario()
  {
    var a := new Byte[4];
    a[0], a[1], a[2], a[3] := 1, 2, 3, 4;
    assert a[..4] == [1, 2, 3, 4];
    SumExample();
    var c := Send(a, 4);
    assert c == 10;

    var e := new Byte[0];
    c := Send(e, 0);
    assert c == 0;
  }

  /** Worked example: receiving 300 bytes wraps the pattern once. */
  method RecvScenario()
  {
    var b := new Byte[300];
    var n := Recv(b, 300);
    assert n == 300;
    PatternFirstPeriod(300, 0);
    PatternFirstPeriod(300, 255);
    PatternFirstPeriod(300, 43);
    PatternPeriodic(300, 0);
    PatternPeriodic(300, 43);
    assert b[..300][0] == 0 && b[..300][255] == 255;
    assert b[..300][256] == 0 && b[..300][299] == 43;
  }

  /** Worked example: transforming 0x00, 0xFF, 0xAA, then zero bytes. */
  method TransformScenario()
  {
    var t := new Byte[3];
    t[0], t[1], t[2] := 0x00, 0xFF, 0xAA;
    Transform(t, 3);
    assert t[..3] == Xor([0x00, 0xFF, 0xAA]);
    assert t[..] == [0xAA, 0x55, 0x00];

    Transform(t, 0);
    assert t[..] == [0xAA, 0x55, 0x00];
  }
}
