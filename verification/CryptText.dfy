/** The text around the password hashes: salt specification, header, and the printed result. */
module CryptText {
  import opened Common
  import opened CNumbers
  import opened CryptTail
  import opened CryptHash

  const SALT_LEN_MAX := 16
  const ROUNDS_DEFAULT := 5000
  const ROUNDS_MIN := 1000
  const ROUNDS_MAX := 999999999

  /** The size of shacrypt()'s output buffer, with the terminating NUL. */
  const SHA_BUFFER := 3 + 17 + 17 + 86 + 1

  // ----- the salt specification

  function Clamp(n: nat): (r: nat)
    ensures ROUNDS_MIN <= r <= ROUNDS_MAX
    ensures ROUNDS_MIN <= n <= ROUNDS_MAX ==> r == n
  {
    if n > ROUNDS_MAX then ROUNDS_MAX else if n < ROUNDS_MIN then ROUNDS_MIN else n
  }

  function Truncate(s: string, n: nat): (t: string)
    ensures |t| <= n && t <= s && (|s| <= n ==> t == s)
  {
    if |s| <= n then s else s[..n]
  }

  datatype Spec = Spec(rounds: nat, custom: bool, salt: string)

  const ROUNDS_PREFIX := "rounds="

  /** "rounds=N$salt" or a plain salt; a rounds prefix without '$' after the number is an error. */
  function ParseSpec(text: string): Option<Spec> {
    if ROUNDS_PREFIX <= text then
      var num := text[|ROUNDS_PREFIX|..];
      var (n, end) := StrToUl(num);
      if end < |num| && num[end] == '$'
      then Some(Spec(Clamp(n), true, Truncate(num[end + 1..], SALT_LEN_MAX)))
      else None
    else Some(Spec(ROUNDS_DEFAULT, false, Truncate(text, SALT_LEN_MAX)))
  }

  /** The specification as the result prints it. */
  function SpecText(sp: Spec): string {
    (if sp.custom then ROUNDS_PREFIX + Decimal(sp.rounds) + "$" else "") + sp.salt
  }

  // ----- the commands

  datatype Hashes = Hashes(sha256: Digest, sha512: Digest, md5: Digest)

  ghost predicate ValidHashes(hs: Hashes) {
    && IsDigest(hs.sha256) && hs.sha256.size == 32
    && IsDigest(hs.sha512) && hs.sha512.size == 64
    && IsDigest(hs.md5) && hs.md5.size == 16
  }

  function ShaOf(hs: Hashes, magic: char): Digest {
    if magic == '5' then hs.sha256 else hs.sha512
  }

  function LayoutOf(magic: char): Layout {
    if magic == '5' then SHA256_LAYOUT else SHA512_LAYOUT
  }

  /** The number of characters of the printed hash. */
  function TailLength(magic: char): nat {
    if magic == '5' then 43 else 86
  }

  lemma LayoutFits(hs: Hashes, magic: char, pw: seq<byte>, salt: seq<byte>, rounds: nat)
    requires ValidHashes(hs)
    ensures ValidLayout(LayoutOf(magic)) && IsDigest(ShaOf(hs, magic))
    ensures |ShaCryptDigest(ShaOf(hs, magic), pw, salt, rounds)| == LayoutOf(magic).size
    ensures 4 * |LayoutOf(magic).groups| + |LayoutOf(magic).tail| + 1 == TailLength(magic)
  {
    LayoutsValid();
  }

  /** The printed hash of a password. */
  function ShaTail(hs: Hashes, magic: char, pw: string, sp: Spec): (s: string)
    requires ValidHashes(hs)
    ensures |s| == TailLength(magic)
  {
    LayoutFits(hs, magic, Octets(pw), Octets(sp.salt), sp.rounds);
    EncodeDigest(LayoutOf(magic), ShaCryptDigest(ShaOf(hs, magic), Octets(pw), Octets(sp.salt), sp.rounds))
  }

  /** What shacrypt() returns, and None for NULL. */
  function ShaCryptText(hs: Hashes, magic: string, pw: string, spec: string): Option<string>
    requires ValidHashes(hs)
  {
    if |magic| != 1 || magic[0] !in "56" then None
    else
      var sp := ParseSpec(spec);
      if sp.None? || pw == "" || sp.value.salt == "" then None
      else Some("$" + magic + "$" + SpecText(sp.value) + "$" + ShaTail(hs, magic[0], pw, sp.value))
  }

  method ShaCryptCommand(hs: Hashes, magic: string, pw: string, spec: string) returns (r: Option<string>)
    requires ValidHashes(hs)
    ensures r == ShaCryptText(hs, magic, pw, spec)
    ensures r.Some? ==> |r.value| + 1 <= SHA_BUFFER
  {
    hide ShaCryptDigest, EncodeDigest, DigitRun, StrToUl, ShaDigestA, SequenceP, SequenceS;
    if |magic| != 1 {
      return None;
    }
    if magic[0] != '5' && magic[0] != '6' {
      return None;
    }
    var sp := ParseSpec(spec);
    if sp.None? {
      return None;
    }
    var rounds, custom, salt := sp.value.rounds, sp.value.custom, sp.value.salt;
    var out := "$" + magic + "$";
    if custom {
      out := out + (ROUNDS_PREFIX + Decimal(rounds) + "$");
    }
    out := out + salt;
    HeaderFits(spec);
    assert out == "$" + magic + "$" + SpecText(sp.value);
    assert |out| <= 3 + (if custom then 17 else 0) + |salt|;  // the check before hashing
    LayoutFits(hs, magic[0], Octets(pw), Octets(salt), rounds);
    var d := CryptHash.ShaCrypt(ShaOf(hs, magic[0]), Octets(pw), Octets(salt), rounds);
    if d.None? {
      return None;
    }
    var tail := PrintDigest(LayoutOf(magic[0]), d.value);
    r := Some(out + "$" + tail);
  }

  /** What md5crypt() returns; an empty magic is the AIX form. */
  function Md5CryptText(hs: Hashes, magic: string, pw: string, salt: string): Option<string>
    requires ValidHashes(hs)
  {
    if |magic| > 4 then None
    else
      var marker := if magic == "" then "" else "$" + magic + "$";
      var short := Truncate(salt, 8);
      Md5Fits();
      Some(marker + short + "$"
           + EncodeDigest(MD5_LAYOUT, Md5CryptDigest(hs.md5, Octets(pw), Octets(marker), Octets(short))))
  }

  lemma Md5Fits()
    ensures ValidLayout(MD5_LAYOUT) && MD5_LAYOUT.size == 16
  {
    LayoutsValid();
  }

  method Md5CryptCommand(hs: Hashes, magic: string, pw: string, salt: string) returns (r: Option<string>)
    requires ValidHashes(hs)
    ensures r == Md5CryptText(hs, magic, pw, salt)
    ensures r.Some? ==> |r.value| + 1 <= 6 + 9 + 24 + 2
  {
    hide Md5CryptDigest, EncodeDigest;
    var marker := "";
    if |magic| > 0 {
      if |magic| > 4 {
        return None;
      }
      marker := "$" + magic + "$";
    }
    var short := Truncate(salt, 8);
    assert |marker + short| <= 6 + 8;
    Md5Fits();
    var buf := CryptHash.Md5Crypt(hs.md5, Octets(pw), Octets(marker), Octets(short));
    var tail := PrintMd5(buf);
    r := Some(marker + short + "$" + tail);
  }

  /** The salt made by do_passwd() from random bytes, in place. */
  method GenerateSalt(salt: array<byte>) returns (text: string)
    modifies salt
    ensures |text| == salt.Length && forall i | 0 <= i < |text| :: text[i] == Itoa64(old(salt[i]) % 64)
    ensures Octets(text) == salt[..]
  {
    text := "";
    for i := 0 to salt.Length
      invariant |text| == i && forall k | 0 <= k < i :: text[k] == Itoa64(old(salt[k]) % 64)
      invariant forall k | 0 <= k < i :: salt[k] == text[k] as int % 256
      invariant forall k | i <= k < salt.Length :: salt[k] == old(salt[k])
    {
      var c := Itoa64(salt[i] % 64);
      salt[i] := c as int % 256;
      text := text + [c];
    }
  }

  // ----- properties

  lemma {:induction false} DecimalLength(n: nat, k: nat)
    requires k >= 1 && n < Pow10(k)
    ensures |Decimal(n)| <= k
    decreases k
  {
    if n >= 10 { DecimalLength(n / 10, k - 1); }
  }

  function Pow10(k: nat): nat {
    if k == 0 then 1 else 10 * Pow10(k - 1)
  }

  /** The rounds header takes at most 17 characters, the salt at most 16. */
  lemma HeaderFits(spec: string)
    ensures ParseSpec(spec).Some? ==>
              var sp := ParseSpec(spec).value;
              && ROUNDS_MIN <= sp.rounds <= ROUNDS_MAX && |sp.salt| <= SALT_LEN_MAX
              && |SpecText(sp)| <= (if sp.custom then 17 else 0) + |sp.salt|
  {
    hide StrToUl;
    if ParseSpec(spec).Some? {
      var n := ParseSpec(spec).value.rounds;
      assert Pow10(9) == 1_000_000_000;
      DecimalLength(n, 9);
    }
  }

  /** Any decimal number of rounds may be asked for; what is used is that number clamped. */
  lemma RoundsRequested(n: nat, salt: string)
    ensures ParseSpec(ROUNDS_PREFIX + Decimal(n) + "$" + salt) ==
              Some(Spec(Clamp(n), true, Truncate(salt, SALT_LEN_MAX)))
  {
    hide StrToUl, Decimal, Truncate;
    var d := Decimal(n);
    var text, num := ROUNDS_PREFIX + d + "$" + salt, d + ("$" + salt);
    assert text == ROUNDS_PREFIX + num;
    assert text[|ROUNDS_PREFIX|..] == num;
    DigitsRead(n, "$" + salt);
    assert num[|d|] == '$' && num[|d| + 1..] == salt;
  }

  /** The limits in numbers. */
  lemma RoundsClamped(n: nat, salt: string)
    ensures var r := ParseSpec("rounds=" + Decimal(n) + "$" + salt);
            r.Some? && r.value.rounds == if n < 1000 then 1000 else if n > 999999999 then 999999999 else n
  {
    hide ParseSpec, Decimal;
    RoundsRequested(n, salt);
  }

  lemma CustomRead(rounds: nat, salt: string)
    requires ROUNDS_MIN <= rounds <= ROUNDS_MAX && |salt| <= SALT_LEN_MAX
    ensures ParseSpec(SpecText(Spec(rounds, true, salt))) == Some(Spec(rounds, true, salt))
  {
    hide ParseSpec;
    RoundsRequested(rounds, salt);
  }

  /** Reading the specification that a result prints gives the same rounds and salt. */
  lemma SpecRoundTrip(spec: string)
    requires ParseSpec(spec).Some?
    ensures ParseSpec(SpecText(ParseSpec(spec).value)) == ParseSpec(spec)
  {
    hide StrToUl, Decimal;
    var sp := ParseSpec(spec).value;
    if sp.custom {
      CustomRead(sp.rounds, sp.salt);
    } else {
      var text := SpecText(sp);
      assert text == sp.salt && text <= spec;
      assert ROUNDS_PREFIX <= text ==> ROUNDS_PREFIX <= spec;
    }
  }

  /** The part of a result that serves as salt specification. */
  function PrintedSpec(magic: char, text: string): string
    requires |text| >= TailLength(magic) + 4
  {
    text[3..|text| - TailLength(magic) - 1]
  }

  /** Hashing again under the printed specification gives the identical text. */
  lemma Rehash(hs: Hashes, magic: string, pw: string, spec: string)
    requires ValidHashes(hs) && ShaCryptText(hs, magic, pw, spec).Some?
    ensures var text := ShaCryptText(hs, magic, pw, spec).value;
            && |text| >= TailLength(magic[0]) + 4
            && ShaCryptText(hs, magic, pw, PrintedSpec(magic[0], text)) == Some(text)
  {
    hide ParseSpec, ShaTail;
    var sp := ParseSpec(spec).value;
    var text := ShaCryptText(hs, magic, pw, spec).value;
    SpecRoundTrip(spec);
    assert text[3..|text| - TailLength(magic[0]) - 1] == SpecText(sp);
  }

  /** The longest result fills the buffer exactly. */
  lemma ExactFit(hs: Hashes, pw: string, salt: string)
    requires ValidHashes(hs) && pw != "" && |salt| == 16
    ensures ShaCryptText(hs, "6", pw, "rounds=999999999$" + salt).Some?
    ensures |ShaCryptText(hs, "6", pw, "rounds=999999999$" + salt).value| + 1 == SHA_BUFFER
  {
    hide ParseSpec, ShaTail, SpecText;
    LongestSpec(salt);
    CustomRead(999999999, salt);
  }

  lemma LongestSpec(salt: string)
    ensures SpecText(Spec(999999999, true, salt)) == "rounds=999999999$" + salt
  {
    hide Decimal;
    NineNines();
  }

  lemma NineNines()
    ensures Decimal(999999999) == "999999999"
  {
    assert Decimal(999) == "999";
    assert Decimal(99999) == Decimal(9999) + "9";
    assert Decimal(999999) == Decimal(99999) + "9";
    assert Decimal(9999999) == Decimal(999999) + "9";
    assert Decimal(99999999) == Decimal(9999999) + "9";
  }

  /** A generated salt is taken literally: it cannot look like a rounds header. */
  lemma GeneratedSaltIsPlain(salt: string)
    requires |salt| <= SALT_LEN_MAX && forall c | c in salt :: InAlphabet(c)
    ensures ParseSpec(salt) == Some(Spec(ROUNDS_DEFAULT, false, salt))
  {
    assert ROUNDS_PREFIX[6] == '=' && !InAlphabet('=');
    if |salt| > 6 {
      assert salt[6] in salt;
    }
  }

  lemma TailDeterminesDigest(hs: Hashes, magic: char, pw: string, pw': string, sp: Spec)
    requires ValidHashes(hs) && magic in "56"
    requires ShaTail(hs, magic, pw, sp) == ShaTail(hs, magic, pw', sp)
    ensures ShaCryptDigest(ShaOf(hs, magic), Octets(pw), Octets(sp.salt), sp.rounds)
         == ShaCryptDigest(ShaOf(hs, magic), Octets(pw'), Octets(sp.salt), sp.rounds)
  {
    hide ShaCryptDigest, EncodeDigest;
    LayoutFits(hs, magic, Octets(pw), Octets(sp.salt), sp.rounds);
    LayoutFits(hs, magic, Octets(pw'), Octets(sp.salt), sp.rounds);
    PrintedDeterminesDigest(LayoutOf(magic),
      ShaCryptDigest(ShaOf(hs, magic), Octets(pw), Octets(sp.salt), sp.rounds),
      ShaCryptDigest(ShaOf(hs, magic), Octets(pw'), Octets(sp.salt), sp.rounds));
  }

  /** The parts of a result can be told apart by their places in it. */
  lemma PartsOfResult(hs: Hashes, magic: string, pw: string, spec: string)
    requires ValidHashes(hs) && ShaCryptText(hs, magic, pw, spec).Some?
    ensures ParseSpec(spec).Some? && |magic| == 1
    ensures var text, sp, n := ShaCryptText(hs, magic, pw, spec).value, ParseSpec(spec).value, TailLength(magic[0]);
            && |text| >= n + 4 && text[..3] == "$" + magic + "$" && text[|text| - n - 1] == '$'
            && PrintedSpec(magic[0], text) == SpecText(sp)
            && text[|text| - n..] == ShaTail(hs, magic[0], pw, sp)
  {
    hide ParseSpec, ShaTail, SpecText;
  }

  /**
   Two results are the same text only if they have the same variant, the same rounds and salt
   and the same digest.
   */
  lemma ResultDeterminesDigest(hs: Hashes, magic: string, pw: string, spec: string,
                               magic': string, pw': string, spec': string)
    requires ValidHashes(hs) && ShaCryptText(hs, magic, pw, spec).Some?
    requires ShaCryptText(hs, magic, pw, spec) == ShaCryptText(hs, magic', pw', spec')
    ensures magic == magic' && |magic| == 1 && ParseSpec(spec).Some? && ParseSpec(spec) == ParseSpec(spec')
    ensures var sp, h := ParseSpec(spec).value, ShaOf(hs, magic[0]);
            ShaCryptDigest(h, Octets(pw), Octets(sp.salt), sp.rounds) ==
            ShaCryptDigest(h, Octets(pw'), Octets(sp.salt), sp.rounds)
  {
    hide ParseSpec, ShaTail, SpecText, ShaCryptDigest;
    PartsOfResult(hs, magic, pw, spec);
    PartsOfResult(hs, magic', pw', spec');
    ghost var text := ShaCryptText(hs, magic, pw, spec).value;
    assert text[..3][1] == magic[0] && text[..3][1] == magic'[0];
    assert magic == magic';
    SpecRoundTrip(spec);
    SpecRoundTrip(spec');
    TailDeterminesDigest(hs, magic[0], pw, pw', ParseSpec(spec).value);
  }

  /** A rounds prefix is an error unless the number is followed by a dollar sign; any other text is a salt. */
  lemma SpecsRefused(n: nat, rest: string)
    requires rest == "" || (!IsDigit(rest[0]) && rest[0] != '$')
    ensures ParseSpec("rounds=" + Decimal(n) + rest).None?
  {
    hide StrToUl, Decimal;
    var text, num := "rounds=" + Decimal(n) + rest, Decimal(n) + rest;
    assert text[|ROUNDS_PREFIX|..] == num && ROUNDS_PREFIX <= text;
    DigitsRead(n, rest);
  }

  /** What is hashed at all: both variants, any password and salt but empty ones. */
  lemma ShaCryptAccepts(hs: Hashes, magic: string, pw: string, spec: string)
    requires ValidHashes(hs)
    ensures ShaCryptText(hs, magic, pw, spec).Some? <==>
              && (magic == "5" || magic == "6") && pw != ""
              && ParseSpec(spec).Some? && ParseSpec(spec).value.salt != ""
  {
    hide ParseSpec, ShaTail, SpecText;
    assert |magic| == 1 ==> magic == [magic[0]];
  }

  lemma PlainSalt(text: string)
    requires !("rounds=" <= text)
    ensures ParseSpec(text) == Some(Spec(5000, false, if |text| <= 16 then text else text[..16]))
  {
  }

  /** An md5crypt result: the marker if there is one, at most eight characters of salt, and 22 of hash. */
  lemma Md5Shape(hs: Hashes, magic: string, pw: string, salt: string)
    requires ValidHashes(hs)
    ensures Md5CryptText(hs, magic, pw, salt).Some? <==> |magic| <= 4
    ensures |magic| <= 4 ==>
              var text := Md5CryptText(hs, magic, pw, salt).value;
              var head := (if magic == "" then "" else "$" + magic + "$")
                          + (if |salt| <= 8 then salt else salt[..8]) + "$";
              |text| == |head| + 22 && head <= text
  {
    hide EncodeDigest, Md5CryptDigest;
    Md5Fits();
  }
}
