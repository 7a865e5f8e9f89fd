/**
 The printed hash of the password command: the bytes of a digest, permuted, taken three at a
 time as a 24-bit word, and written six bits per character, low bits first.
 */
module CryptTail {
  import opened Common

  /** cov_2char[]: "./", the digits, the capitals and the small letters. */
  function Itoa64(d: nat): (c: char)
    requires d < 64
    ensures InAlphabet(c) && Atoi64(c) == d
  {
    if d < 12 then (0x2E + d) as char
    else if d < 38 then (0x41 + d - 12) as char
    else (0x61 + d - 38) as char
  }

  predicate InAlphabet(c: char) {
    '.' <= c <= '9' || 'A' <= c <= 'Z' || 'a' <= c <= 'z'
  }

  function Atoi64(c: char): (d: nat)
    requires InAlphabet(c)
    ensures d < 64
  {
    if c <= '9' then c as int - 0x2E
    else if c <= 'Z' then c as int - 0x41 + 12
    else c as int - 0x61 + 38
  }

  function Pow64(n: nat): nat {
    if n == 0 then 1 else 64 * Pow64(n - 1)
  }

  /** The n characters of a word. */
  function Chars(w: nat, n: nat): (s: string)
    ensures |s| == n && forall c | c in s :: InAlphabet(c)
    decreases n
  {
    if n == 0 then "" else [Itoa64(w % 64)] + Chars(w / 64, n - 1)
  }

  /** The word written by some characters. */
  function Word(s: string): nat
    requires forall c | c in s :: InAlphabet(c)
  {
    if s == "" then 0 else Atoi64(s[0]) + 64 * Word(s[1..])
  }

  lemma {:induction false} WordOfChars(w: nat, n: nat)
    requires w < Pow64(n)
    ensures Word(Chars(w, n)) == w
    decreases n
  {
    if n > 0 {
      WordOfChars(w / 64, n - 1);
      assert Chars(w, n)[1..] == Chars(w / 64, n - 1);
    }
  }

  /** (B2 << 16) | (B1 << 8) | B0 on bytes. */
  function Join(b2: byte, b1: byte, b0: byte): (w: nat)
    ensures w < 0x100_0000
    ensures b2 == 0 ==> w < 0x1_0000
    ensures b2 == 0 && b1 == 0 ==> w < 0x100
    ensures w / 65536 == b2 && w / 256 % 256 == b1 && w % 256 == b0
  {
    var x: int, y: int, z: int := b2, b1, b0;
    assert (x * 65536 + y * 256 + z) / 256 == x * 256 + y;
    x * 65536 + y * 256 + z
  }

  /** b64_from_24bit() */
  method B64From24Bit(b2: byte, b1: byte, b0: byte, n: nat) returns (s: string)
    ensures s == Chars(Join(b2, b1, b0), n)
  {
    var w: nat, i := Join(b2, b1, b0), n;
    ghost var all := Chars(w, n);
    s := "";
    while i > 0
      invariant s + Chars(w, i) == all
    {
      i := i - 1;
      s := s + [Itoa64(w % 64)];
      w := w / 64;
    }
  }

  /** Which digest bytes go into each word, and into the shorter last one. */
  datatype Layout = Layout(size: nat, groups: seq<(nat, nat, nat)>, tail: seq<nat>)

  predicate ValidLayout(l: Layout) {
    && (forall i | 0 <= i < |l.groups| ::
          l.groups[i].0 < l.size && l.groups[i].1 < l.size && l.groups[i].2 < l.size)
    && 1 <= |l.tail| <= 2 && forall t | t in l.tail :: t < l.size
  }

  const SHA256_LAYOUT := Layout(32,
    [(0, 10, 20), (21, 1, 11), (12, 22, 2), (3, 13, 23), (24, 4, 14),
     (15, 25, 5), (6, 16, 26), (27, 7, 17), (18, 28, 8), (9, 19, 29)],
    [31, 30])

  const SHA512_LAYOUT := Layout(64,
    [(0, 21, 42), (22, 43, 1), (44, 2, 23), (3, 24, 45), (25, 46, 4), (47, 5, 26), (6, 27, 48),
     (28, 49, 7), (50, 8, 29), (9, 30, 51), (31, 52, 10), (53, 11, 32), (12, 33, 54), (34, 55, 13),
     (56, 14, 35), (15, 36, 57), (37, 58, 16), (59, 17, 38), (18, 39, 60), (40, 61, 19), (62, 20, 41)],
    [63])

  /** The order left by the permutation of md5crypt(). */
  const MD5_LAYOUT := Layout(16, [(0, 6, 12), (1, 7, 13), (2, 8, 14), (3, 9, 15), (4, 10, 5)], [11])

  function GroupWord(g: (nat, nat, nat), d: seq<byte>): (w: nat)
    requires g.0 < |d| && g.1 < |d| && g.2 < |d|
    ensures w < Pow64(4)
  {
    assert Pow64(4) == 0x100_0000;
    Join(d[g.0], d[g.1], d[g.2])
  }

  function TailWord(tail: seq<nat>, d: seq<byte>): (w: nat)
    requires 1 <= |tail| <= 2 && forall t | t in tail :: t < |d|
    ensures w < Pow64(|tail| + 1)
  {
    assert Pow64(2) == 4096 && Pow64(3) == 0x4_0000;
    assert tail[0] in tail;
    if |tail| == 1 then Join(0, 0, d[tail[0]])
    else assert tail[1] in tail; Join(0, d[tail[0]], d[tail[1]])
  }

  /** The characters of the first n words. */
  function EncodeGroups(l: Layout, d: seq<byte>, n: nat): (s: string)
    requires ValidLayout(l) && |d| == l.size && n <= |l.groups|
    ensures |s| == 4 * n && forall c | c in s :: InAlphabet(c)
  {
    if n == 0 then "" else EncodeGroups(l, d, n - 1) + Chars(GroupWord(l.groups[n - 1], d), 4)
  }

  /** The printed form of a digest: 43, 86 or 22 characters. */
  function EncodeDigest(l: Layout, d: seq<byte>): (s: string)
    requires ValidLayout(l) && |d| == l.size
    ensures |s| == 4 * |l.groups| + |l.tail| + 1 && forall c | c in s :: InAlphabet(c)
  {
    EncodeGroups(l, d, |l.groups|) + Chars(TailWord(l.tail, d), |l.tail| + 1)
  }

  method PrintDigest(l: Layout, d: seq<byte>) returns (s: string)
    requires ValidLayout(l) && |d| == l.size
    ensures s == EncodeDigest(l, d)
  {
    hide Chars, Join;
    s := "";
    for i := 0 to |l.groups|
      invariant s == EncodeGroups(l, d, i)
    {
      var g := l.groups[i];
      var part := B64From24Bit(d[g.0], d[g.1], d[g.2], 4);
      s := s + part;
    }
    var last: string;
    assert l.tail[0] in l.tail && l.tail[|l.tail| - 1] in l.tail;
    if |l.tail| == 1 {
      last := B64From24Bit(0, 0, d[l.tail[0]], 2);
    } else {
      last := B64From24Bit(0, d[l.tail[0]], d[l.tail[1]], 3);
    }
    s := s + last;
  }

  /** Which byte the permutation loop of md5crypt() puts at position k. */
  function PermIndex(k: nat): (i: nat)
    requires k < 16
    ensures i < 16
  {
    if k == 14 then 5 else if k == 15 then 11 else 6 * k % 17
  }

  lemma PermIsLayout(j: nat)
    requires j < 5
    ensures MD5_LAYOUT.groups[j] == (PermIndex(3 * j), PermIndex(3 * j + 1), PermIndex(3 * j + 2))
  {
  }

  lemma PermStep(k: nat)
    requires k < 14
    ensures 6 * k % 17 == PermIndex(k) && (6 * k % 17 + 6) % 17 == 6 * (k + 1) % 17
  {
    var q, r := 6 * k / 17, 6 * k % 17;
    assert 6 * (k + 1) == if r < 11 then 17 * q + (r + 6) else 17 * (q + 1) + (r - 11);
  }

  lemma PermEnds()
    ensures PermIndex(14) == 5 && PermIndex(15) == 11
  {
  }

  method PermuteMd5(buf: seq<byte>) returns (perm: array<byte>)
    requires |buf| == 16
    ensures fresh(perm) && perm.Length == 16
    ensures forall k: nat | k < 16 :: perm[k] == buf[PermIndex(k)]
  {
    hide PermIndex;
    PermEnds();
    perm := new byte[16];
    var dest: nat, source := 0, 0;
    while dest < 14
      invariant dest <= 14 && source == 6 * dest % 17
      invariant forall k: nat | k < dest :: perm[k] == buf[PermIndex(k)]
    {
      PermStep(dest);
      perm[dest] := buf[source];
      dest, source := dest + 1, (source + 6) % 17;
    }
    perm[14] := buf[5];
    perm[15] := buf[11];
  }

  /** The four characters of md5crypt() for three bytes, and the two for the last byte. */
  function FourChars(a: byte, b: byte, c: byte): string {
    [Itoa64(c % 64), Itoa64(b % 16 * 4 + c / 64), Itoa64(a % 4 * 16 + b / 16), Itoa64(a / 4)]
  }

  lemma FourCharsAreWord(a: byte, b: byte, c: byte)
    ensures FourChars(a, b, c) == Chars(Join(a, b, c), 4)
  {
    var w, w1, w2: nat := Join(a, b, c), a * 1024 + b * 4 + c / 64, a * 16 + b / 16;
    assert w == 64 * w1 + c % 64;
    assert w1 == 64 * w2 + (b % 16 * 4 + c / 64);
    assert w2 == 64 * (a / 4) + (a % 4 * 16 + b / 16);
    ThreeDivisions(w, w1, w2, a / 4);
  }

  lemma ThreeDivisions(w: nat, w1: nat, w2: nat, w3: nat)
    requires w / 64 == w1 && w1 / 64 == w2 && w2 / 64 == w3 && w3 < 64
    ensures Chars(w, 4) == [Itoa64(w % 64), Itoa64(w1 % 64), Itoa64(w2 % 64), Itoa64(w3)]
  {
    hide Itoa64, Atoi64, InAlphabet;
    assert Chars(w3, 1) == [Itoa64(w3)];
    assert Chars(w2, 2) == [Itoa64(w2 % 64)] + Chars(w3, 1);
    assert Chars(w1, 3) == [Itoa64(w1 % 64)] + Chars(w2, 2);
  }

  /** The output loop of md5crypt(). */
  method PrintMd5(buf: seq<byte>) returns (s: string)
    requires |buf| == 16
    ensures ValidLayout(MD5_LAYOUT) && s == EncodeDigest(MD5_LAYOUT, buf)
  {
    hide Chars, Join, FourChars, PermIndex, EncodeGroups;
    assert ValidLayout(MD5_LAYOUT);
    var permuted := PermuteMd5(buf);
    var perm := permuted[..];
    var i := 0;
    ghost var j := 0;
    s := "";
    NoGroups(MD5_LAYOUT, buf);
    while i < 15
      invariant 0 <= j <= 5 && i == 3 * j && s == EncodeGroups(MD5_LAYOUT, buf, j)
    {
      var part := FourChars(perm[i], perm[i + 1], perm[i + 2]);
      PermIsLayout(j);
      FourCharsAreWord(perm[i], perm[i + 1], perm[i + 2]);
      EncodeStep(MD5_LAYOUT, buf, j);
      s := s + part;
      i, j := i + 3, j + 1;
    }
    LastByte();
    LastChars(perm[15]);
    s := s + [Itoa64(perm[15] % 64), Itoa64(perm[15] / 64)];
  }

  lemma LastByte()
    ensures PermIndex(15) == MD5_LAYOUT.tail[0]
  {
  }

  lemma NoGroups(l: Layout, d: seq<byte>)
    requires ValidLayout(l) && |d| == l.size
    ensures EncodeGroups(l, d, 0) == ""
  {
  }

  lemma EncodeStep(l: Layout, d: seq<byte>, n: nat)
    requires ValidLayout(l) && |d| == l.size && n < |l.groups|
    ensures var g := l.groups[n];
            EncodeGroups(l, d, n + 1) == EncodeGroups(l, d, n) + Chars(Join(d[g.0], d[g.1], d[g.2]), 4)
  {
  }

  lemma LastChars(b: byte)
    ensures [Itoa64(b % 64), Itoa64(b / 64)] == Chars(Join(0, 0, b), 2)
  {
    assert Chars(b / 64 / 64, 0) == "";
  }

  // ----- the decoder

  function ByteOf(w: nat, slot: nat): byte
    requires slot < 3
  {
    if slot == 0 then w / 65536 % 256 else if slot == 1 then w / 256 % 256 else w % 256
  }

  function Component(g: (nat, nat, nat), slot: nat): nat
    requires slot < 3
  {
    if slot == 0 then g.0 else if slot == 1 then g.1 else g.2
  }

  /** Byte k of the digest was put into this word at this place. */
  predicate PlacedAt(l: Layout, k: nat, i: nat, slot: nat) {
    i < |l.groups| && slot < 3 && Component(l.groups[i], slot) == k
  }

  ghost predicate Placed(l: Layout, k: nat) {
    (exists i: nat, slot: nat :: PlacedAt(l, k, i, slot)) || k in l.tail
  }

  /** Byte k read back from the printed form. */
  ghost function DecodeByte(l: Layout, s: string, k: nat): byte
    requires ValidLayout(l) && |s| == 4 * |l.groups| + |l.tail| + 1
    requires (forall c | c in s :: InAlphabet(c)) && Placed(l, k)
  {
    if k in l.tail then
      var w := Word(s[4 * |l.groups|..]);
      if |l.tail| == 2 && l.tail[0] == k then w / 256 % 256 else w % 256
    else
      var i: nat, slot: nat :| PlacedAt(l, k, i, slot);
      ByteOf(Word(s[4 * i..4 * i + 4]), slot)
  }

  lemma {:induction false} GroupOf(l: Layout, d: seq<byte>, n: nat, i: nat)
    requires ValidLayout(l) && |d| == l.size && i < n <= |l.groups|
    ensures EncodeGroups(l, d, n)[4 * i..4 * i + 4] == Chars(GroupWord(l.groups[i], d), 4)
  {
    hide Chars, GroupWord;
    if i < n - 1 {
      GroupOf(l, d, n - 1, i);
      assert EncodeGroups(l, d, n)[4 * i..4 * i + 4] == EncodeGroups(l, d, n - 1)[4 * i..4 * i + 4];
    }
  }

  /** Every placed byte is recovered from the printed form. */
  lemma DecodeEncode(l: Layout, d: seq<byte>, k: nat)
    requires ValidLayout(l) && |d| == l.size && k < l.size && Placed(l, k)
    ensures DecodeByte(l, EncodeDigest(l, d), k) == d[k]
  {
    hide Chars, Word, EncodeGroups, Join;
    var s, n := EncodeDigest(l, d), |l.groups|;
    if k in l.tail {
      assert s[4 * n..] == Chars(TailWord(l.tail, d), |l.tail| + 1);
      WordOfChars(TailWord(l.tail, d), |l.tail| + 1);
    } else {
      forall i: nat, slot: nat | PlacedAt(l, k, i, slot)
        ensures ByteOf(Word(s[4 * i..4 * i + 4]), slot) == d[k]
      {
        var w := GroupWord(l.groups[i], d);
        GroupOf(l, d, n, i);
        assert s[4 * i..4 * i + 4] == EncodeGroups(l, d, n)[4 * i..4 * i + 4];
        WordOfChars(w, 4);
      }
    }
  }

  /** Row i of a layout holds i, i + n and i + 2n, rotated. */
  function Rotated(i: nat, n: nat, turn: nat): (nat, nat, nat) {
    if turn == 0 then (i, i + n, i + 2 * n)
    else if turn == 1 then (i + n, i + 2 * n, i)
    else (i + 2 * n, i, i + n)
  }

  lemma RotatedPlaces(l: Layout, i: nat, n: nat, turn: nat)
    requires i < n == |l.groups| && turn < 3 && l.groups[i] == Rotated(i, n, turn)
    ensures Placed(l, i) && Placed(l, i + n) && Placed(l, i + 2 * n)
  {
    assert turn == 0 ==> PlacedAt(l, i, i, 0) && PlacedAt(l, i + n, i, 1) && PlacedAt(l, i + 2 * n, i, 2);
    assert turn == 1 ==> PlacedAt(l, i, i, 2) && PlacedAt(l, i + n, i, 0) && PlacedAt(l, i + 2 * n, i, 1);
    assert turn == 2 ==> PlacedAt(l, i, i, 1) && PlacedAt(l, i + n, i, 2) && PlacedAt(l, i + 2 * n, i, 0);
  }

  lemma Sha256Row(i: nat)
    requires i < 10
    ensures SHA256_LAYOUT.groups[i] == Rotated(i, 10, 2 * i % 3)
  {
  }

  lemma Sha512Row(i: nat)
    requires i < 21
    ensures SHA512_LAYOUT.groups[i] == Rotated(i, 21, i % 3)
  {
    if i < 7 { Sha512Low(i); } else if i < 14 { Sha512Mid(i); } else { Sha512High(i); }
  }

  lemma Sha512Low(i: nat)
    requires i < 7
    ensures SHA512_LAYOUT.groups[i] == Rotated(i, 21, i % 3)
  {
  }

  lemma Sha512Mid(i: nat)
    requires 7 <= i < 14
    ensures SHA512_LAYOUT.groups[i] == Rotated(i, 21, i % 3)
  {
  }

  lemma Sha512High(i: nat)
    requires 14 <= i < 21
    ensures SHA512_LAYOUT.groups[i] == Rotated(i, 21, i % 3)
  {
  }

  lemma Sha256Places(k: nat)
    requires k < 32
    ensures Placed(SHA256_LAYOUT, k)
  {
    hide Placed, Rotated;
    if k < 30 {
      var i := if k < 10 then k else if k < 20 then k - 10 else k - 20;
      Sha256Row(i);
      RotatedPlaces(SHA256_LAYOUT, i, 10, 2 * i % 3);
    } else {
      TailPlaces(SHA256_LAYOUT, if k == 31 then 0 else 1);
    }
  }

  lemma Sha512Places(k: nat)
    requires k < 64
    ensures Placed(SHA512_LAYOUT, k)
  {
    hide Placed, Rotated;
    if k < 63 {
      var i := if k < 21 then k else if k < 42 then k - 21 else k - 42;
      Sha512Row(i);
      RotatedPlaces(SHA512_LAYOUT, i, 21, i % 3);
    } else {
      TailPlaces(SHA512_LAYOUT, 0);
    }
  }

  lemma TailPlaces(l: Layout, i: nat)
    requires i < |l.tail|
    ensures Placed(l, l.tail[i])
  {
  }

  lemma Md5Places(k: nat)
    requires k < 16
    ensures Placed(MD5_LAYOUT, k)
  {
    var l := MD5_LAYOUT;
    if k == 11 {
      TailPlaces(l, 0);
    } else if k == 5 {
      assert PlacedAt(l, k, 4, 2);
    } else if k < 5 {
      assert PlacedAt(l, k, k, 0);
    } else if k < 11 {
      assert PlacedAt(l, k, k - 6, 1);
    } else {
      assert PlacedAt(l, k, k - 12, 2);
    }
  }

  lemma Sha256Valid()
    ensures ValidLayout(SHA256_LAYOUT)
  {
    var l := SHA256_LAYOUT;
    forall i | 0 <= i < 10 ensures l.groups[i].0 < 32 && l.groups[i].1 < 32 && l.groups[i].2 < 32 {
      Sha256Row(i);
    }
  }

  lemma Sha512Valid()
    ensures ValidLayout(SHA512_LAYOUT)
  {
    var l := SHA512_LAYOUT;
    forall i | 0 <= i < 21 ensures l.groups[i].0 < 64 && l.groups[i].1 < 64 && l.groups[i].2 < 64 {
      Sha512Row(i);
    }
  }

  lemma LayoutsValid()
    ensures ValidLayout(SHA256_LAYOUT) && ValidLayout(SHA512_LAYOUT) && ValidLayout(MD5_LAYOUT)
  {
    assert ValidLayout(MD5_LAYOUT);
    Sha256Valid();
    Sha512Valid();
  }

  /** The printed form determines the digest, for each of the three encodings. */
  lemma PrintedDeterminesDigest(l: Layout, d: seq<byte>, e: seq<byte>)
    requires l in {SHA256_LAYOUT, SHA512_LAYOUT, MD5_LAYOUT} && |d| == |e| == l.size
    ensures ValidLayout(l)
    ensures EncodeDigest(l, d) == EncodeDigest(l, e) ==> d == e
  {
    hide EncodeDigest, DecodeByte, Placed;
    LayoutsValid();
    if EncodeDigest(l, d) == EncodeDigest(l, e) {
      forall k: nat | k < l.size ensures d[k] == e[k] {
        if l == SHA256_LAYOUT { Sha256Places(k); }
        else if l == SHA512_LAYOUT { Sha512Places(k); }
        else { Md5Places(k); }
        DecodeEncode(l, d, k);
        DecodeEncode(l, e, k);
      }
    }
  }

  /** The alphabet: dot, slash, the digits, the capitals, the small letters. */
  lemma Alphabet(d: nat)
    requires d < 64
    ensures Itoa64(d) ==
              if d < 2 then "./"[d]
              else if d < 12 then ('0' as int + d - 2) as char
              else if d < 38 then ('A' as int + d - 12) as char
              else ('a' as int + d - 38) as char
  {
  }

  /** The bytes outside the groups of three, and the order of the MD5 bytes. */
  lemma Remainders(k: nat)
    requires k < 16
    ensures SHA256_LAYOUT.tail == [31, 30] && SHA512_LAYOUT.tail == [63] && MD5_LAYOUT.tail == [11]
    ensures PermIndex(k) == [0, 6, 12, 1, 7, 13, 2, 8, 14, 3, 9, 15, 4, 10, 5, 11][k]
  {
  }
}
