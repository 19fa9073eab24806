/** memset, memcpy and memmove of src/libc/string.c on a flat byte memory. */
module Memory {

  type Byte = bv8
  type Word = bv64

  const WS: nat := 8

  /** What a copy of `count` bytes from s to d must leave behind: the original source bytes at the
      destination and every other byte as it was. */
  function Copied(m: seq<Byte>, d: nat, s: nat, count: nat): (r: seq<Byte>)
    requires d + count <= |m| && s + count <= |m|
    ensures |r| == |m|
  {
    m[..d] + m[s..s + count] + m[d + count..]
  }

  function Filled(m: seq<Byte>, d: nat, count: nat, value: Byte): (r: seq<Byte>)
    requires d + count <= |m|
    ensures |r| == |m|
  {
    m[..d] + seq(count, _ => value) + m[d + count..]
  }

  // ----- words in memory, least significant byte first -----

  function WordOf(b: seq<Byte>): Word
    requires |b| == WS
  {
    (b[0] as Word) | ((b[1] as Word) << 8) | ((b[2] as Word) << 16) | ((b[3] as Word) << 24) |
    ((b[4] as Word) << 32) | ((b[5] as Word) << 40) | ((b[6] as Word) << 48) | ((b[7] as Word) << 56)
  }

  function BytesOf(w: Word): (b: seq<Byte>)
    ensures |b| == WS
  {
    [(w & 0xff) as Byte, ((w >> 8) & 0xff) as Byte, ((w >> 16) & 0xff) as Byte, ((w >> 24) & 0xff) as Byte,
     ((w >> 32) & 0xff) as Byte, ((w >> 40) & 0xff) as Byte, ((w >> 48) & 0xff) as Byte, ((w >> 56) & 0xff) as Byte]
  }

  /** Loading a word and storing it keeps its eight bytes. */
  lemma WordRoundTrip(b: seq<Byte>)
    requires |b| == WS
    ensures BytesOf(WordOf(b)) == b
  {
  }

  /** memset's pattern after i rounds of shifting the byte in. */
  function Pattern(value: Byte, i: nat): Word {
    if i == 0 then 0 else (Pattern(value, i - 1) << 8) | (value as Word)
  }

  /** Shifting a byte into a word moves its other bytes up by one. */
  lemma ShiftIn(w: Word, value: Byte)
    ensures BytesOf((w << 8) | (value as Word)) == [value] + BytesOf(w)[..7]
  {
    ShiftLow(w, value);
    ShiftHigh(w, value);
    var b := BytesOf(w);
    assert BytesOf((w << 8) | (value as Word)) == [value, b[0], b[1], b[2], b[3], b[4], b[5], b[6]];
    hide BytesOf;
    assert [value] + b[..7] == [value, b[0], b[1], b[2], b[3], b[4], b[5], b[6]];
  }

  lemma ShiftLow(w: Word, value: Byte)
    ensures var x := (w << 8) | (value as Word);
            && (x & 0xff) as Byte == value
            && (x >> 8) & 0xff == w & 0xff
            && (x >> 16) & 0xff == (w >> 8) & 0xff
            && (x >> 24) & 0xff == (w >> 16) & 0xff
  {
  }

  lemma ShiftHigh(w: Word, value: Byte)
    ensures var x := (w << 8) | (value as Word);
            && (x >> 32) & 0xff == (w >> 24) & 0xff
            && (x >> 40) & 0xff == (w >> 32) & 0xff
            && (x >> 48) & 0xff == (w >> 40) & 0xff
            && (x >> 56) & 0xff == (w >> 48) & 0xff
  {
  }

  lemma {:induction false} PatternBytes(value: Byte, i: nat)
    requires i <= WS
    ensures forall j :: 0 <= j < i ==> BytesOf(Pattern(value, i))[j] == value
  {
    hide BytesOf;
    if i > 0 {
      PatternBytes(value, i - 1);
      ShiftIn(Pattern(value, i - 1), value);
    }
  }

  /** The word memset stores: the byte shifted in eight times. */
  method MakePattern(value: Byte) returns (pattern: Word)
    ensures pattern == Pattern(value, WS)
  {
    hide Pattern;
    NoPattern(value);
    pattern := 0;
    for i := 0 to WS
      invariant pattern == Pattern(value, i)
    {
      PatternStep(value, i);
      pattern := pattern << 8;
      pattern := pattern | (value as Word);
    }
  }

  lemma NoPattern(value: Byte)
    ensures Pattern(value, 0) == 0
  {
  }

  lemma PatternStep(value: Byte, i: nat)
    ensures Pattern(value, i + 1) == (Pattern(value, i) << 8) | (value as Word)
  {
  }

  /** Memory whose first byte has the address `origin`; pointers are offsets from it. */
  class Memory {
    const origin: nat
    const bytes: array<Byte>

    constructor (origin: nat, bytes: array<Byte>)
      ensures this.origin == origin && this.bytes == bytes
    {
      this.origin := origin;
      this.bytes := bytes;
    }

    predicate Aligned(p: nat) { (origin + p) % WS == 0 }

    method LoadWord(p: nat) returns (w: Word)
      requires Aligned(p) && p + WS <= bytes.Length
      ensures w == WordOf(bytes[p..p + WS])
    {
      w := WordOf(bytes[p..p + WS]);
    }

    method StoreWord(p: nat, w: Word)
      requires Aligned(p) && p + WS <= bytes.Length
      modifies bytes
      ensures bytes[..] == old(bytes[..p]) + BytesOf(w) + old(bytes[p + WS..])
    {
      hide BytesOf;
      var b := BytesOf(w);
      forall i | 0 <= i < WS {
        bytes[p + i] := b[i];
      }
    }

    /** One turn of the word loop of memcpy. The two words never overlap. */
    method CopyWord(d: nat, s: nat)
      requires Aligned(d) && Aligned(s)
      requires d + WS <= bytes.Length && s + WS <= bytes.Length
      requires d + WS <= s || s + WS <= d
      modifies bytes
      ensures bytes[..] == Copied(old(bytes[..]), d, s, WS)
    {
      var w := LoadWord(s);
      WordRoundTrip(bytes[s..s + WS]);
      StoreWord(d, w);
    }

    method CopyByte(d: nat, s: nat)
      requires d < bytes.Length && s < bytes.Length
      modifies bytes
      ensures bytes[..] == Copied(old(bytes[..]), d, s, 1)
    {
      ghost var m := bytes[..];
      bytes[d] := bytes[s];
      assert bytes[..] == m[..d] + m[s..s + 1] + m[d + 1..];
    }

    method FillByte(d: nat, value: Byte)
      requires d < bytes.Length
      modifies bytes
      ensures bytes[..] == Filled(old(bytes[..]), d, 1, value)
    {
      bytes[d] := value;
    }

    method FillWord(d: nat, pattern: Word, ghost value: Byte)
      requires Aligned(d) && d + WS <= bytes.Length
      requires pattern == Pattern(value, WS)
      modifies bytes
      ensures bytes[..] == Filled(old(bytes[..]), d, WS, value)
    {
      StoreWord(d, pattern);
      PatternBytes(value, WS);
      hide BytesOf;
    }

    /** memset: every byte of the range and no other, whatever the alignment. */
    method Memset(dest: nat, value: int, count: nat) returns (r: nat)
      requires dest + count <= bytes.Length
      modifies bytes
      ensures r == dest
      ensures bytes[..] == Filled(old(bytes[..]), dest, count, (value % 256) as Byte)
    {
      hide Filled, BytesOf, Pattern;
      var byte := (value % 256) as Byte;
      var d: nat, left: nat := dest, count;
      ghost var m := bytes[..];
      FillNothing(m, dest, byte);
      if left >= WS {
        var pattern := MakePattern(byte);
        while !Aligned(d) && left > 0
          invariant d + left == dest + count && dest <= d
          invariant bytes[..] == Filled(m, dest, d - dest, byte)
          decreases left
        {
          FillByte(d, byte);
          FillMore(m, dest, d - dest, 1, byte);
          d, left := d + 1, left - 1;
        }
        while left >= WS
          invariant d + left == dest + count && dest <= d
          invariant left > 0 ==> Aligned(d)
          invariant bytes[..] == Filled(m, dest, d - dest, byte)
        {
          AlignedNext(origin, d, d);
          FillWord(d, pattern, byte);
          FillMore(m, dest, d - dest, WS, byte);
          d, left := d + WS, left - WS;
        }
      }
      while left > 0
        invariant d + left == dest + count && dest <= d
        invariant bytes[..] == Filled(m, dest, d - dest, byte)
      {
        left := left - 1;
        FillByte(d, byte);
        FillMore(m, dest, d - dest, 1, byte);
        d := d + 1;
      }
      r := dest;
    }

    /** The word part of memcpy: bytes up to an aligned destination, then, if the source is
        aligned there too, whole words. Both pointers aligned and different means they are a
        multiple of the word size apart, so no word is stored over bytes of itself. */
    method CopyWords(dest: nat, src: nat, count: nat) returns (k: nat)
      requires dest + count <= bytes.Length && src + count <= bytes.Length
      requires dest < src || src + count <= dest
      modifies bytes
      ensures k <= count && bytes[..] == Copied(old(bytes[..]), dest, src, k)
    {
      hide Copied;
      var d: nat, s: nat, left: nat := dest, src, count;
      ghost var m := bytes[..];
      CopyNothing(m, dest, src);
      while !Aligned(d) && left > 0
        invariant d + left == dest + count && dest <= d && s - d == src - dest
        invariant bytes[..] == Copied(m, dest, src, d - dest)
        decreases left
      {
        CopyByte(d, s);
        CopyMore(m, dest, src, d - dest, 1);
        d, s, left := d + 1, s + 1, left - 1;
      }
      if Aligned(s) {
        while left >= WS
          invariant d + left == dest + count && dest <= d && s - d == src - dest
          invariant left > 0 ==> Aligned(d) && Aligned(s)
          invariant bytes[..] == Copied(m, dest, src, d - dest)
        {
          AlignedDistance(origin, d, s);
          AlignedNext(origin, d, s);
          CopyWord(d, s);
          CopyMore(m, dest, src, d - dest, WS);
          d, s, left := d + WS, s + WS, left - WS;
        }
      }
      k := d - dest;
    }

    /** memcpy. Copying upwards in address order, it is right not only for disjoint ranges but
        for every overlap in which the destination starts below the source. */
    method Memcpy(dest: nat, src: nat, count: nat) returns (r: nat)
      requires dest + count <= bytes.Length && src + count <= bytes.Length
      requires dest < src || src + count <= dest
      modifies bytes
      ensures r == dest
      ensures bytes[..] == Copied(old(bytes[..]), dest, src, count)
    {
      hide Copied;
      ghost var m := bytes[..];
      CopyNothing(m, dest, src);
      var k: nat := 0;
      if count >= WS {
        k := CopyWords(dest, src, count);
      }
      var d: nat, s: nat, left: nat := dest + k, src + k, count - k;
      while left > 0
        invariant d + left == dest + count && dest <= d && s - d == src - dest
        invariant bytes[..] == Copied(m, dest, src, d - dest)
      {
        left := left - 1;
        CopyByte(d, s);
        CopyMore(m, dest, src, d - dest, 1);
        d, s := d + 1, s + 1;
      }
      r := dest;
    }

    /** memmove: the original source bytes arrive for every overlap, alignment and count, and
        nothing else changes (section 7.24.2.2 of ISO/IEC 9899:2011). */
    method Memmove(dest: nat, src: nat, count: nat) returns (r: nat)
      requires dest + count <= bytes.Length && src + count <= bytes.Length
      modifies bytes
      ensures r == dest
      ensures bytes[..] == Copied(old(bytes[..]), dest, src, count)
    {
      hide Copied;
      if dest == src || count == 0 {
        CopyNothing(bytes[..], dest, src);
        CopySelf(bytes[..], dest, count);
        return dest;
      }
      if dest < src {
        r := Memcpy(dest, src, count);
        return;
      }
      ghost var m := bytes[..];
      var d: nat, s: nat, left: nat := dest + count, src + count, count;
      CopyNothing(m, d, s);
      while left > 0
        invariant d == dest + left && s == src + left && left <= count
        invariant bytes[..] == Copied(m, d, s, count - left)
      {
        left := left - 1;
        d, s := d - 1, s - 1;
        CopyByte(d, s);
        CopyDown(m, d, s, count - left - 1);
      }
      r := dest;
    }
  }

  /** Different aligned pointers are at least a word apart. */
  lemma AlignedDistance(origin: nat, d: nat, s: nat)
    requires (origin + d) % WS == 0 && (origin + s) % WS == 0 && d != s
    ensures d + WS <= s || s + WS <= d
  {
  }

  lemma AlignedNext(origin: nat, d: nat, s: nat)
    requires (origin + d) % WS == 0 && (origin + s) % WS == 0
    ensures (origin + (d + WS)) % WS == 0 && (origin + (s + WS)) % WS == 0
  {
  }

  /** Copying k bytes and then the next n is copying k + n, in a direction where the source of
      the second copy is still original. */
  lemma CopyMore(m: seq<Byte>, d: nat, s: nat, k: nat, n: nat)
    requires d + k + n <= |m| && s + k + n <= |m|
    requires d < s || s + k + n <= d
    ensures Copied(Copied(m, d, s, k), d + k, s + k, n) == Copied(m, d, s, k + n)
  {
    var c := Copied(m, d, s, k);
    forall i | s + k <= i < s + k + n
      ensures c[i] == m[i]
    {
    }
    assert c[s + k..s + k + n] == m[s + k..s + k + n];
    assert c[..d + k] == m[..d] + m[s..s + k];
    assert c[d + k + n..] == m[d + k + n..];
    assert m[s..s + k] + m[s + k..s + k + n] == m[s..s + k + n];
  }

  /** Copying downwards: the byte below the part already copied. */
  lemma CopyDown(m: seq<Byte>, d: nat, s: nat, k: nat)
    requires s < d && d + 1 + k <= |m|
    ensures Copied(Copied(m, d + 1, s + 1, k), d, s, 1) == Copied(m, d, s, k + 1)
  {
    var c := Copied(m, d + 1, s + 1, k);
    assert c[..d] == m[..d] && c[s..s + 1] == m[s..s + 1];
    assert c[d + 1..] == m[s + 1..s + 1 + k] + m[d + 1 + k..];
    assert m[s..s + 1] + m[s + 1..s + 1 + k] == m[s..s + 1 + k];
  }

  lemma FillMore(m: seq<Byte>, d: nat, k: nat, n: nat, value: Byte)
    requires d + k + n <= |m|
    ensures Filled(Filled(m, d, k, value), d + k, n, value) == Filled(m, d, k + n, value)
  {
  }

  lemma CopyNothing(m: seq<Byte>, d: nat, s: nat)
    requires d <= |m| && s <= |m|
    ensures Copied(m, d, s, 0) == m
  {
  }

  lemma CopySelf(m: seq<Byte>, d: nat, count: nat)
    requires d + count <= |m|
    ensures Copied(m, d, d, count) == m
  {
  }

  lemma FillNothing(m: seq<Byte>, d: nat, value: Byte)
    requires d <= |m|
    ensures Filled(m, d, 0, value) == m
  {
  }
}
