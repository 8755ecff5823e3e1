/** The flat 32-bit address space the kernel runs in: little-endian words over bytes,
    and the byte loops of kernel/src/string.c. Everything the kernel keeps in memory
    (block headers, list links, messages, registry entries, ELF images) is read from and
    written to one array of bytes; the pure functions here describe its contents. */
module Bytes {

  const ADDRESS_SPACE := 0x1_0000_0000

  type byte = x: int | 0 <= x < 0x100
  type word = x: int | 0 <= x < 0x1_0000_0000
  type Memory = seq<byte>

  /** The contents of a whole address space. */
  ghost predicate Full(m: Memory) {
    |m| == ADDRESS_SPACE
  }

  // ---------- words and half words ----------

  function Word(m: Memory, a: int): (w: word)
    requires 0 <= a <= |m| - 4
  {
    (m[a] as int) + 0x100 * (m[a + 1] as int) + 0x1_0000 * (m[a + 2] as int) + 0x100_0000 * (m[a + 3] as int)
  }

  function Half(m: Memory, a: int): (h: int)
    requires 0 <= a <= |m| - 2
    ensures 0 <= h < 0x1_0000
  {
    (m[a] as int) + 0x100 * (m[a + 1] as int)
  }

  /** The four bytes of `v`, least significant first. */
  function WordBytes(v: word): (bs: seq<byte>)
    ensures |bs| == 4
    ensures v == (bs[0] as int) + 0x100 * (bs[1] as int) + 0x1_0000 * (bs[2] as int) + 0x100_0000 * (bs[3] as int)
  {
    var q1 := v / 0x100;
    var q2 := q1 / 0x100;
    [v % 0x100, q1 % 0x100, q2 % 0x100, q2 / 0x100]
  }

  /** `m` with the bytes `bs` stored from address `a` on. */
  function PutBytes(m: Memory, a: int, bs: seq<byte>): (r: Memory)
    requires 0 <= a <= |m| - |bs|
    ensures |r| == |m|
    ensures r[a..a + |bs|] == bs
    ensures forall i {:trigger r[i]} :: 0 <= i < |m| && (i < a || a + |bs| <= i) ==> r[i] == m[i]
    ensures forall b {:trigger Word(r, b)} ::
              0 <= b <= |m| - 4 && (b + 4 <= a || a + |bs| <= b) ==> Word(r, b) == Word(m, b)
  {
    m[..a] + bs + m[a + |bs|..]
  }

  /** `m` with the word `v` stored at address `a`. */
  function PutWord(m: Memory, a: int, v: word): (r: Memory)
    requires 0 <= a <= |m| - 4
    ensures |r| == |m|
    ensures Word(r, a) == v
    ensures forall i {:trigger r[i]} :: 0 <= i < |m| && (i < a || a + 4 <= i) ==> r[i] == m[i]
    ensures forall b {:trigger Word(r, b)} ::
              0 <= b <= |m| - 4 && (b + 4 <= a || a + 4 <= b) ==> Word(r, b) == Word(m, b)
  {
    var r := PutBytes(m, a, WordBytes(v));
    assert r[a..a + 4] == [r[a], r[a + 1], r[a + 2], r[a + 3]];
    r
  }

  /** `m` with the byte `v` stored at address `a`. */
  function PutByte(m: Memory, a: int, v: byte): (r: Memory)
    requires 0 <= a < |m|
    ensures |r| == |m| && r[a] == v
    ensures forall i {:trigger r[i]} :: 0 <= i < |m| && i != a ==> r[i] == m[i]
    ensures forall b {:trigger Word(r, b)} ::
              0 <= b <= |m| - 4 && (b + 4 <= a || a < b) ==> Word(r, b) == Word(m, b)
  {
    m[a := v]
  }

  /** A word depends on its own four bytes only. */
  lemma SameWord(m: Memory, n: Memory, a: int)
    requires 0 <= a <= |m| - 4 && a <= |n| - 4
    requires forall i :: a <= i < a + 4 ==> m[i] == n[i]
    ensures Word(m, a) == Word(n, a)
  {
  }

  method LoadWord(ram: array<byte>, a: int) returns (w: word)
    requires 0 <= a <= ram.Length - 4
    ensures w == Word(ram[..], a)
  {
    w := (ram[a] as int) + 0x100 * (ram[a + 1] as int) + 0x1_0000 * (ram[a + 2] as int)
        + 0x100_0000 * (ram[a + 3] as int);
  }

  method LoadHalf(ram: array<byte>, a: int) returns (h: int)
    requires 0 <= a <= ram.Length - 2
    ensures h == Half(ram[..], a)
  {
    h := (ram[a] as int) + 0x100 * (ram[a + 1] as int);
  }

  method StoreWord(ram: array<byte>, a: int, v: word)
    requires 0 <= a <= ram.Length - 4
    modifies ram
    ensures ram[..] == PutWord(old(ram[..]), a, v)
  {
    var bs := WordBytes(v);
    ram[a], ram[a + 1], ram[a + 2], ram[a + 3] := bs[0], bs[1], bs[2], bs[3];
    assert ram[..] == PutBytes(old(ram[..]), a, bs);
  }

  method StoreByte(ram: array<byte>, a: int, b: byte)
    requires 0 <= a < ram.Length
    modifies ram
    ensures ram[..] == PutByte(old(ram[..]), a, b)
  {
    ram[a] := b;
  }

  // ---------- kernel/src/string.c ----------

  function Fill(n: nat, c: byte): (bs: seq<byte>)
    ensures |bs| == n
    ensures forall i :: 0 <= i < n ==> bs[i] == c
  {
    seq(n, _ => c)
  }

  /** The copy loop, forwards and byte by byte. It stores the source bytes as they were on
      entry whenever the destination does not start inside the source range. */
  method Memcpy(ram: array<byte>, dest: word, src: word, n: word)
    requires dest + n <= ram.Length && src + n <= ram.Length
    requires dest <= src || src + n <= dest
    modifies ram
    ensures ram[..] == PutBytes(old(ram[..]), dest, old(ram[src..src + n]))
  {
    var d, s, left: int := dest, src, n;
    while left != 0
      invariant 0 <= left <= n && d == dest + n - left && s == src + n - left
      invariant forall i :: dest <= i < d ==> ram[i] == old(ram[i - dest + src])
      invariant forall i :: 0 <= i < ram.Length && (i < dest || d <= i) ==> ram[i] == old(ram[i])
    {
      left := left - 1;
      ram[d] := ram[s];
      d, s := d + 1, s + 1;
    }
    assert ram[..] == PutBytes(old(ram[..]), dest, old(ram[src..src + n]));
  }

  method Memset(ram: array<byte>, p: word, c: byte, n: word)
    requires p + n <= ram.Length
    modifies ram
    ensures ram[..] == PutBytes(old(ram[..]), p, Fill(n, c))
  {
    var q, left: int := p, n;
    while left != 0
      invariant 0 <= left <= n && q == p + n - left
      invariant forall i :: p <= i < q ==> ram[i] == c
      invariant forall i :: 0 <= i < ram.Length && (i < p || q <= i) ==> ram[i] == old(ram[i])
    {
      left := left - 1;
      ram[q] := c;
      q := q + 1;
    }
    assert ram[..] == PutBytes(old(ram[..]), p, Fill(n, c));
  }
}
