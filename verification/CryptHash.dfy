/**
 The password hashes of the passwd command over an abstract digest: SHA-crypt (Drepper, "Unix
 crypt using SHA-256 and SHA-512", steps 1 to 21) and the MD5-based one.
 */
module CryptHash {
  import opened Common

  datatype Digest = Digest(size: nat, hash: seq<byte> -> seq<byte>)

  ghost predicate IsDigest(h: Digest) {
    h.size > 0 && forall m :: |h.hash(m)| == h.size
  }

  // ----- the definition

  /** n bytes taken from the endless repetition of d. */
  function Cyclic(d: seq<byte>, n: nat): (s: seq<byte>)
    requires |d| > 0
    ensures |s| == n
  {
    seq(n, k requires 0 <= k < n => d[k % |d|])
  }

  /** s written n times. */
  function Times(s: seq<byte>, n: nat): seq<byte> {
    if n == 0 then [] else Times(s, n - 1) + s
  }

  function Pow2(k: nat): nat {
    if k == 0 then 1 else 2 * Pow2(k - 1)
  }

  /** Bit k of n. */
  predicate Bit(n: nat, k: nat) {
    PowPositive(k);
    n / Pow2(k) % 2 == 1
  }

  lemma PowPositive(k: nat)
    ensures Pow2(k) > 0
  {
  }

  /** The number of bits needed to write n. */
  function BitLength(n: nat): nat {
    if n == 0 then 0 else 1 + BitLength(n / 2)
  }

  /** For each of the first k bits of n, lowest first: one text for a 1, another for a 0. */
  function BitText(n: nat, k: nat, ones: seq<byte>, zeros: seq<byte>): seq<byte> {
    if k == 0 then [] else BitText(n, k - 1, ones, zeros) + if Bit(n, k - 1) then ones else zeros
  }

  /** The text hashed in round i from the previous result c. */
  function RoundText(i: nat, c: seq<byte>, p: seq<byte>, s: seq<byte>): seq<byte> {
    (if i % 2 == 1 then p else c)
    + (if i % 3 != 0 then s else [])
    + (if i % 7 != 0 then p else [])
    + (if i % 2 == 1 then c else p)
  }

  /** The result after n rounds. */
  function Rounds(h: Digest, a: seq<byte>, p: seq<byte>, s: seq<byte>, n: nat): (c: seq<byte>)
    ensures IsDigest(h) && |a| == h.size ==> |c| == h.size
  {
    if n == 0 then a else h.hash(RoundText(n - 1, Rounds(h, a, p, s, n - 1), p, s))
  }

  /** Digest B: password, salt, password. */
  function DigestB(h: Digest, pw: seq<byte>, salt: seq<byte>): seq<byte> {
    h.hash(pw + salt + pw)
  }

  /** Steps 1 to 12: digest A of SHA-crypt. */
  function ShaDigestA(h: Digest, pw: seq<byte>, salt: seq<byte>): (a: seq<byte>)
    requires IsDigest(h)
    ensures |a| == h.size
  {
    var b := DigestB(h, pw, salt);
    h.hash(pw + salt + Cyclic(b, |pw|) + BitText(|pw|, BitLength(|pw|), b, pw))
  }

  /** Steps 13 to 16: sequence P. */
  function SequenceP(h: Digest, pw: seq<byte>): seq<byte>
    requires IsDigest(h)
  {
    Cyclic(h.hash(Times(pw, |pw|)), |pw|)
  }

  /** Steps 17 to 20: sequence S, which depends on the first byte of A. */
  function SequenceS(h: Digest, a: seq<byte>, salt: seq<byte>): seq<byte>
    requires IsDigest(h) && |a| > 0
  {
    Cyclic(h.hash(Times(salt, 16 + a[0] as int)), |salt|)
  }

  /** Steps 1 to 21. */
  function ShaCryptDigest(h: Digest, pw: seq<byte>, salt: seq<byte>, rounds: nat): (c: seq<byte>)
    requires IsDigest(h)
    ensures |c| == h.size
  {
    var a := ShaDigestA(h, pw, salt);
    Rounds(h, a, SequenceP(h, pw), SequenceS(h, a, salt), rounds)
  }

  /** The MD5 variant: a marker between password and salt, other bit texts, 1000 plain rounds. */
  function Md5CryptDigest(h: Digest, pw: seq<byte>, marker: seq<byte>, salt: seq<byte>): (c: seq<byte>)
    requires IsDigest(h)
    ensures |c| == h.size
  {
    var b := DigestB(h, pw, salt);
    var a := h.hash(pw + marker + salt + Cyclic(b, |pw|)
                    + BitText(|pw|, BitLength(|pw|), [0], if pw == [] then [] else [pw[0]]));
    Rounds(h, a, pw, salt, 1000)
  }

  // ----- the loops

  /** Feeding a digest block by block: whole blocks while more than one remains, then the rest. */
  method FeedBlocks(md: seq<byte>, buf: seq<byte>, len: nat) returns (r: seq<byte>)
    requires |buf| > 0
    ensures r == md + Cyclic(buf, len)
  {
    r := md;
    var n := len;
    ghost var blocks: nat := 0;
    while n > |buf|
      invariant 0 <= n <= len && len - n == blocks * |buf|
      invariant r == md + Cyclic(buf, len - n)
    {
      CyclicBlock(buf, blocks, len - n, |buf|);
      r := r + buf[..|buf|];
      assert (blocks + 1) * |buf| == blocks * |buf| + |buf|;
      n, blocks := n - |buf|, blocks + 1;
    }
    CyclicBlock(buf, blocks, len - n, n);
    r := r + buf[..n];
  }

  lemma CyclicBlock(d: seq<byte>, blocks: nat, at: nat, n: nat)
    requires |d| > 0 && at == blocks * |d| && n <= |d|
    ensures Cyclic(d, at + n) == Cyclic(d, at) + d[..n]
  {
    forall k: nat | k < n ensures Cyclic(d, at + n)[at + k] == d[k] {
      DivisionIs(at + k, |d|, blocks, k);
    }
  }

  /** The walk over the bits of the length. */
  method FeedBits(md: seq<byte>, len: nat, ones: seq<byte>, zeros: seq<byte>) returns (r: seq<byte>)
    ensures r == md + BitText(len, BitLength(len), ones, zeros)
  {
    hide BitText, Bit;
    BitNone(len, ones, zeros);
    r := md;
    var n := len;
    ghost var k := 0;
    while n > 0
      invariant k + BitLength(n) == BitLength(len) && Pow2(k) > 0 && n == len / Pow2(k)
      invariant r == md + BitText(len, k, ones, zeros)
    {
      BitStep(len, k, ones, zeros);
      r := r + if n % 2 == 1 then ones else zeros;
      HalvedAgain(len, k);
      n, k := n / 2, k + 1;
    }
  }

  lemma BitNone(len: nat, ones: seq<byte>, zeros: seq<byte>)
    ensures BitText(len, 0, ones, zeros) == [] && Pow2(0) == 1
  {
  }

  lemma BitStep(len: nat, k: nat, ones: seq<byte>, zeros: seq<byte>)
    ensures Pow2(k) > 0
    ensures BitText(len, k + 1, ones, zeros) ==
              BitText(len, k, ones, zeros) + if len / Pow2(k) % 2 == 1 then ones else zeros
  {
    PowPositive(k);
  }

  lemma HalvedAgain(len: nat, k: nat)
    ensures Pow2(k) > 0 && Pow2(k + 1) > 0 && len / Pow2(k) / 2 == len / Pow2(k + 1)
  {
    PowPositive(k);
    HalfQuotient(len, Pow2(k));
  }

  lemma HalfQuotient(n: nat, p: nat)
    requires p > 0
    ensures n / p / 2 == n / (2 * p)
  {
    var q, r := n / p, n % p;
    var a, b := q / 2, q % 2;
    var pb := if b == 0 then 0 else p;
    DoubleSplit(p, a, b);
    DivisionIs(n, 2 * p, a, pb + r);
  }

  lemma DoubleSplit(p: nat, a: nat, b: nat)
    requires b < 2
    ensures p * (2 * a + b) == 2 * p * a + if b == 0 then 0 else p
  {
    assert p * (2 * a + 1) == p * (2 * a) + p;
  }

  lemma DivisionIs(n: nat, d: nat, q: nat, r: nat)
    requires d > 0 && n == d * q + r && r < d
    ensures n / d == q && n % d == r
  {
    var q', r' := n / d, n % d;
    assert n == d * q' + r';
    if q' > q { AtLeast(d, q + 1, q'); assert false; }
    if q' < q { AtLeast(d, q' + 1, q); assert false; }
  }

  lemma AtLeast(d: nat, a: nat, b: nat)
    requires a <= b
    ensures d * a <= d * b
  {
  }

  method FeedTimes(s: seq<byte>, n: nat) returns (r: seq<byte>)
    ensures r == Times(s, n)
  {
    r := [];
    var i := n;
    while i > 0
      invariant 0 <= i <= n && r == Times(s, n - i)
    {
      r := r + s;
      i := i - 1;
    }
  }

  /** memcpy() of whole blocks and then of the rest into a fresh buffer. */
  method FillBlocks(src: seq<byte>, len: nat) returns (a: array<byte>)
    requires |src| > 0
    ensures fresh(a) && a[..] == Cyclic(src, len)
  {
    a := new byte[len](_ => 0);
    var cp: nat, n := 0, len;
    ghost var blocks: nat := 0;
    while n > |src|
      invariant cp + n == len && cp == blocks * |src| && n >= 0
      invariant a[..cp] == Cyclic(src, cp)
    {
      CyclicBlock(src, blocks, cp, |src|);
      Copy(a, cp, src, |src|);
      assert (blocks + 1) * |src| == blocks * |src| + |src|;
      n, cp, blocks := n - |src|, cp + |src|, blocks + 1;
    }
    CyclicBlock(src, blocks, cp, n);
    Copy(a, cp, src, n);
    assert a[..] == a[..len];
  }

  method Copy(a: array<byte>, at: nat, src: seq<byte>, n: nat)
    requires n <= |src| && at + n <= a.Length
    modifies a
    ensures a[..at + n] == old(a[..at]) + src[..n]
  {
    for i := 0 to n
      invariant a[..at] == old(a[..at]) && a[at..at + i] == src[..i]
    {
      a[at + i] := src[i];
    }
    assert a[..at + n] == a[..at] + a[at..at + n];
  }

  method RunRounds(h: Digest, a: seq<byte>, p: seq<byte>, s: seq<byte>, rounds: nat) returns (buf: seq<byte>)
    ensures buf == Rounds(h, a, p, s, rounds)
  {
    buf := a;
    for n := 0 to rounds
      invariant buf == Rounds(h, a, p, s, n)
    {
      var md2 := if n % 2 == 1 then p else buf;
      if n % 3 != 0 {
        md2 := md2 + s;
      }
      if n % 7 != 0 {
        md2 := md2 + p;
      }
      md2 := md2 + if n % 2 == 1 then buf else p;
      assert md2 == RoundText(n, buf, p, s);
      buf := h.hash(md2);
    }
  }

  /** The hashing part of shacrypt(). An empty password or salt makes an allocation of size zero, which fails. */
  method ShaCrypt(h: Digest, pw: seq<byte>, salt: seq<byte>, rounds: nat) returns (r: Option<seq<byte>>)
    requires IsDigest(h)
    ensures r == if pw == [] || salt == [] then None else Some(ShaCryptDigest(h, pw, salt, rounds))
  {
    var md := pw + salt;
    var buf := h.hash(pw + salt + pw);
    md := FeedBlocks(md, buf, |pw|);
    md := FeedBits(md, |pw|, buf, pw);
    var a := h.hash(md);
    assert a == ShaDigestA(h, pw, salt);
    var md2 := FeedTimes(pw, |pw|);
    if |pw| == 0 {
      return None;
    }
    var pBytes := FillBlocks(h.hash(md2), |pw|);
    md2 := FeedTimes(salt, 16 + a[0] as int);
    if |salt| == 0 {
      return None;
    }
    var sBytes := FillBlocks(h.hash(md2), |salt|);
    var c := RunRounds(h, a, pBytes[..], sBytes[..], rounds);
    r := Some(c);
  }

  /** The hashing part of md5crypt(). */
  method Md5Crypt(h: Digest, pw: seq<byte>, marker: seq<byte>, salt: seq<byte>) returns (buf: seq<byte>)
    requires IsDigest(h)
    ensures buf == Md5CryptDigest(h, pw, marker, salt)
  {
    var md := pw + marker + salt;
    buf := h.hash(pw + salt + pw);
    md := FeedBlocks(md, buf, |pw|);
    md := FeedBits(md, |pw|, [0], if pw == [] then [] else [pw[0]]);
    buf := h.hash(md);
    buf := RunRounds(h, buf, pw, salt, 1000);
  }

  // ----- what the schedule prescribes

  /** Step 21 case by case: what is hashed in round i. */
  lemma RoundSchedule(i: nat, c: seq<byte>, p: seq<byte>, s: seq<byte>)
    ensures RoundText(i, c, p, s) ==
              match (i % 2, i % 3 == 0, i % 7 == 0)
              case (0, true, true) => c + p
              case (0, true, false) => c + p + p
              case (0, false, true) => c + s + p
              case (0, false, false) => c + s + p + p
              case (_, true, true) => p + c
              case (_, true, false) => p + p + c
              case (_, false, true) => p + s + c
              case (_, false, false) => p + s + p + c
  {
  }

  /** The first three rounds. */
  lemma FirstRounds(h: Digest, a: seq<byte>, p: seq<byte>, s: seq<byte>)
    ensures Rounds(h, a, p, s, 1) == h.hash(a + p)
    ensures Rounds(h, a, p, s, 2) == h.hash(p + s + p + h.hash(a + p))
    ensures Rounds(h, a, p, s, 3) == h.hash(h.hash(p + s + p + h.hash(a + p)) + s + p + p)
  {
    RoundSchedule(0, a, p, s);
    assert Rounds(h, a, p, s, 1) == h.hash(RoundText(0, a, p, s));
    RoundSchedule(1, Rounds(h, a, p, s, 1), p, s);
    assert Rounds(h, a, p, s, 2) == h.hash(RoundText(1, Rounds(h, a, p, s, 1), p, s));
    RoundSchedule(2, Rounds(h, a, p, s, 2), p, s);
  }

  /** The lowest bit is fed first: the first text for a 1, the second for a 0. */
  lemma LowestBitFirst(n: nat, ones: seq<byte>, zeros: seq<byte>)
    requires n > 0
    ensures BitText(n, BitLength(n), ones, zeros) ==
              (if n % 2 == 1 then ones else zeros) + BitText(n / 2, BitLength(n / 2), ones, zeros)
  {
    BitsAbove(n, BitLength(n / 2), ones, zeros);
  }

  lemma {:induction false} BitsAbove(n: nat, k: nat, ones: seq<byte>, zeros: seq<byte>)
    ensures BitText(n, k + 1, ones, zeros) ==
              (if n % 2 == 1 then ones else zeros) + BitText(n / 2, k, ones, zeros)
  {
    hide BitText, Bit;
    if k == 0 {
      BitNone(n, ones, zeros);
      BitNone(n / 2, ones, zeros);
      BitStep(n, 0, ones, zeros);
    } else {
      BitsAbove(n, k - 1, ones, zeros);
      BitStep(n, k, ones, zeros);
      BitStep(n / 2, k - 1, ones, zeros);
      HalvedFirst(n, k - 1);
    }
  }

  lemma HalvedFirst(n: nat, k: nat)
    ensures Pow2(k) > 0 && Pow2(k + 1) > 0 && n / Pow2(k + 1) == n / 2 / Pow2(k)
  {
    PowPositive(k);
    HalfThenQuotient(n, Pow2(k));
  }

  lemma HalfThenQuotient(n: nat, p: nat)
    requires p > 0
    ensures n / (2 * p) == n / 2 / p
  {
    var q := n / 2;
    var a, r := q / p, q % p;
    DoubledSum(p, a, r);
    DivisionIs(n, 2 * p, a, 2 * r + n % 2);
  }

  lemma DoubledSum(p: nat, a: nat, r: nat)
    ensures 2 * (p * a + r) == 2 * p * a + 2 * r
  {
  }

  lemma {:induction false} TimesIsCyclic(s: seq<byte>, n: nat)
    requires |s| > 0
    ensures Times(s, n) == Cyclic(s, n * |s|)
  {
    if n > 0 {
      TimesIsCyclic(s, n - 1);
      CyclicBlock(s, n - 1, (n - 1) * |s|, |s|);
      assert (n - 1) * |s| + |s| == n * |s| && s[..|s|] == s;
    }
  }

  /**
   The start of the hash written out for short passwords: a byte of digest B per byte of the
   password, then for each bit of its length digest B for a 1 and the password for a 0.
   */
  lemma OneBytePassword(h: Digest, x: byte, salt: seq<byte>)
    requires IsDigest(h)
    ensures var b := h.hash([x] + salt + [x]);
            ShaDigestA(h, [x], salt) == h.hash([x] + salt + b[..1] + b)
  {
    hide BitText, BitLength;
    var b := h.hash([x] + salt + [x]);
    Bits(b, [x]);
    FirstBytes(b, 1);
  }

  lemma TwoBytePassword(h: Digest, x: byte, y: byte, salt: seq<byte>)
    requires IsDigest(h) && h.size >= 2
    ensures var pw := [x, y];
            var b := h.hash(pw + salt + pw);
            ShaDigestA(h, pw, salt) == h.hash(pw + salt + b[..2] + pw + b)
  {
    hide BitText, BitLength;
    var pw := [x, y];
    var b := h.hash(pw + salt + pw);
    Bits(b, pw);
    FirstBytes(b, 2);
    assert pw + salt + b[..2] + (pw + b) == pw + salt + b[..2] + pw + b;
  }

  lemma FirstBytes(d: seq<byte>, n: nat)
    requires 0 < n <= |d|
    ensures Cyclic(d, n) == d[..n]
  {
    CyclicBlock(d, 0, 0, n);
    assert Cyclic(d, 0) == [];
  }

  lemma Bits(ones: seq<byte>, zeros: seq<byte>)
    ensures BitText(1, BitLength(1), ones, zeros) == ones
    ensures BitText(2, BitLength(2), ones, zeros) == zeros + ones
  {
    hide BitText;
    LowestBitFirst(2, ones, zeros);
    LowestBitFirst(1, ones, zeros);
    BitNone(0, ones, zeros);
    assert ones + [] == ones && BitLength(0) == 0;
  }

  /** The same for md5crypt: a zero byte for a 1, the first byte of the password for a 0. */
  lemma ShortMd5(h: Digest, x: byte, y: byte, marker: seq<byte>, salt: seq<byte>)
    requires IsDigest(h) && h.size >= 2
    ensures Md5CryptDigest(h, [], marker, salt) == Rounds(h, h.hash(marker + salt), [], salt, 1000)
    ensures var pw := [x, y];
            var b := h.hash(pw + salt + pw);
            Md5CryptDigest(h, pw, marker, salt) ==
            Rounds(h, h.hash(pw + marker + salt + b[..2] + [x, 0]), pw, salt, 1000)
  {
    hide Rounds, BitText;
    var b0 := h.hash([] + salt + []);
    BitNone(0, [0], []);
    assert Cyclic(b0, 0) == [] && [] + marker + salt + [] + [] == marker + salt;
    var pw := [x, y];
    var b := h.hash(pw + salt + pw);
    Bits([0], [x]);
    FirstBytes(b, 2);
    assert [x] + [0] == [x, 0];
  }

  /** Steps 13 to 20: the password once per byte of it, the salt 16 times and once more per unit of A[0]. */
  lemma SequenceBytes(h: Digest, pw: seq<byte>, a: seq<byte>, salt: seq<byte>)
    requires IsDigest(h) && pw != [] && salt != [] && a != []
    ensures var p, dp := SequenceP(h, pw), h.hash(Cyclic(pw, |pw| * |pw|));
            |p| == |pw| && forall k | 0 <= k < |pw| :: p[k] == dp[k % h.size]
    ensures var s, ds := SequenceS(h, a, salt), h.hash(Cyclic(salt, (16 + a[0] as int) * |salt|));
            |s| == |salt| && forall k | 0 <= k < |salt| :: s[k] == ds[k % h.size]
  {
    TimesIsCyclic(pw, |pw|);
    TimesIsCyclic(salt, 16 + a[0] as int);
  }

  /** The whole hash with two rounds: which sequence goes where. */
  lemma TwoRounds(h: Digest, pw: seq<byte>, salt: seq<byte>)
    requires IsDigest(h)
    ensures var a, p := ShaDigestA(h, pw, salt), SequenceP(h, pw);
            ShaCryptDigest(h, pw, salt, 2) == h.hash(p + SequenceS(h, a, salt) + p + h.hash(a + p))
  {
    hide ShaDigestA, SequenceP, SequenceS, Rounds;
    FirstRounds(h, ShaDigestA(h, pw, salt), SequenceP(h, pw), SequenceS(h, ShaDigestA(h, pw, salt), salt));
  }
}
