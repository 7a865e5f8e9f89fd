/** The enc command around its cipher: hexadecimal arguments, the salt header and the copy loop. */
module EncFraming {
  import opened Common
  import opened SerialHex

  // ----- hexadecimal arguments

  /** The number of digits that are used: excess digits are ignored. */
  function Used(text: string, size: nat): nat {
    if |text| > 2 * size then 2 * size else |text|
  }

  /** Digit i, or zero beyond the end of the text. */
  function Nibble(text: string, n: nat, i: nat): (v: nat)
    requires n <= |text| && forall k | 0 <= k < n :: IsHex(text[k])
    ensures v < 16
  {
    if i < n then DigitValue(text[i]) else 0
  }

  /** The bytes denoted by a hexadecimal text, padded with zeros or cut to size; None for a bad digit. */
  function HexBytes(text: string, size: nat): Option<seq<byte>> {
    var n := Used(text, size);
    if exists k | 0 <= k < n :: !IsHex(text[k]) then None
    else Some(seq(size, k requires 0 <= k < size => 16 * Nibble(text, n, 2 * k) + Nibble(text, n, 2 * k + 1)))
  }

  /** set_hex(): nibble by nibble into a cleared buffer. */
  method SetHex(text: string, out: array<byte>) returns (ok: bool)
    modifies out
    ensures ok <==> HexBytes(text, out.Length).Some?
    ensures ok ==> out[..] == HexBytes(text, out.Length).value
  {
    var n := Used(text, out.Length);
    for k := 0 to out.Length
      invariant forall j | 0 <= j < k :: out[j] == 0
    {
      out[k] := 0;
    }
    for i := 0 to n
      invariant forall k | 0 <= k < i :: IsHex(text[k])
      invariant forall k: nat | k < out.Length ::
                  out[k] == 16 * Nibble(text[..i], i, 2 * k) + Nibble(text[..i], i, 2 * k + 1)
    {
      if !IsHex(text[i]) {
        return false;
      }
      var j := DigitValue(text[i]);
      ghost var before := out[..];
      if i % 2 == 1 {
        out[i / 2] := out[i / 2] + j;
      } else {
        out[i / 2] := 16 * j;
      }
      forall k: nat | k < out.Length
        ensures out[k] == 16 * Nibble(text[..i + 1], i + 1, 2 * k) + Nibble(text[..i + 1], i + 1, 2 * k + 1)
      {
        assert before[k] == 16 * Nibble(text[..i], i, 2 * k) + Nibble(text[..i], i, 2 * k + 1);
      }
    }
    ok := true;
  }

  /** printf("%02X") for each byte. */
  function HexPrint(bytes: seq<byte>): (s: string)
    ensures |s| == 2 * |bytes| && AllUpperHex(s)
    ensures forall k | 0 <= k < |bytes| ::
              s[2 * k] == HexDigit(bytes[k] / 16) && s[2 * k + 1] == HexDigit(bytes[k] % 16)
  {
    if bytes == [] then ""
    else
      var n := |bytes| - 1;
      HexPrint(bytes[..n]) + [HexDigit(bytes[n] / 16), HexDigit(bytes[n] % 16)]
  }

  /** What -p prints, given back as -S, -K or -iv, restores the bytes. */
  lemma HexRoundTrip(bytes: seq<byte>)
    ensures HexBytes(HexPrint(bytes), |bytes|) == Some(bytes)
  {
    hide HexPrint, HexDigit, DigitValue, IsUpperHex;
    var s, n := HexPrint(bytes), |bytes|;
    assert Used(s, n) == 2 * n && forall k | 0 <= k < 2 * n :: IsHex(s[k]);
    var r := HexBytes(s, n).value;
    forall k: nat | k < n ensures r[k] == bytes[k] {
      assert s[2 * k] == HexDigit(bytes[k] / 16) && s[2 * k + 1] == HexDigit(bytes[k] % 16);
      assert r[k] == 16 * Nibble(s, 2 * n, 2 * k) + Nibble(s, 2 * n, 2 * k + 1);
    }
    assert r == bytes;
  }

  /** Missing digits are zeros, excess digits are ignored, and nothing else is forgiven. */
  lemma HexPadCut(text: string, size: nat)
    ensures |text| > 2 * size ==> HexBytes(text, size) == HexBytes(text[..2 * size], size)
    ensures |text| <= 2 * size ==>
              HexBytes(text, size) == HexBytes(text + seq(2 * size - |text|, _ => '0'), size)
    ensures HexBytes(text, size).Some? <==> forall k | 0 <= k < |text| && k < 2 * size :: IsHex(text[k])
  {
    if |text| <= 2 * size {
      SameNibbles(text, text + seq(2 * size - |text|, _ => '0'), size);
    } else {
      SameNibbles(text[..2 * size], text, size);
    }
  }

  lemma SameNibbles(a: string, b: string, size: nat)
    requires |a| <= 2 * size <= |b| && a <= b && forall k | |a| <= k < 2 * size :: b[k] == '0'
    ensures HexBytes(a, size) == HexBytes(b, size)
  {
    assert forall k | 0 <= k < |a| :: a[k] == b[k];
    if HexBytes(a, size).Some? {
      assert forall k | 0 <= k < 2 * size :: IsHex(b[k]);
      forall k: nat | k < 2 * size ensures Nibble(a, |a|, k) == Nibble(b, 2 * size, k) {}
      assert HexBytes(a, size).value == HexBytes(b, size).value;
    }
  }

  // ----- the copy loop

  /** A cipher at work: a state, what an update adds to the output, and the final block or a failure. */
  datatype Stream<!Key, !State> = Stream(
    init: Key -> State,
    update: (State, seq<byte>) -> (State, seq<byte>),
    final: State -> Option<seq<byte>>)

  /** Two updates in turn do what one update with both inputs does. */
  ghost predicate Incremental<Key, State(!new)>(t: Stream<Key, State>) {
    && (forall s :: t.update(s, []) == (s, []))
    && (forall s, a, b ::
          var (s1, out1) := t.update(s, a);
          var (s2, out2) := t.update(s1, b);
          t.update(s, a + b) == (s2, out1 + out2))
  }

  /** The whole output for an input given at once. */
  function Whole<Key, State>(t: Stream<Key, State>, key: Key, input: seq<byte>): Option<seq<byte>> {
    var (s, out) := t.update(t.init(key), input);
    var last := t.final(s);
    if last.None? then None else Some(out + last.value)
  }

  /**
   Input is read in pieces of at most bsize bytes, each as long as the source happens to
   deliver, and each piece goes through the cipher. A cipher that cannot stream must get
   everything in one piece.
   */
  method CopyLoop<Key, State(!new)>(t: Stream<Key, State>, s: State, input: seq<byte>, bsize: nat, streamable: bool,
                                    deliver: nat -> nat) returns (r: Option<(State, seq<byte>)>)
    requires bsize >= 1 && (forall n | n > 0 :: 1 <= deliver(n) <= n) && Incremental(t)
    ensures r == if streamable || |input| == Piece(bsize, deliver, |input|) then Some(t.update(s, input)) else None
  {
    var state, out: seq<byte>, rest := s, [], input;
    ghost var done: seq<byte> := [];
    while rest != []
      invariant done + rest == input && (!streamable ==> done == []) && (state, out) == t.update(s, done)
      decreases |rest|
    {
      var n := Piece(bsize, deliver, |rest|);
      var buff := rest[..n];
      if !streamable && rest[n..] != [] {
        return None;
      }
      assert done + rest == (done + buff) + rest[n..];
      var (state', more) := t.update(state, buff);
      assert t.update(s, done + buff) == (state', out + more);
      state, out, rest, done := state', out + more, rest[n..], done + buff;
      if !streamable {
        break;
      }
    }
    assert done + [] == done && rest == [];
    r := Some((state, out));
  }

  /** The copy loop and the flush after it, from a fresh cipher. */
  method Pump<Key, State(!new)>(t: Stream<Key, State>, key: Key, input: seq<byte>, bsize: nat, deliver: nat -> nat)
    returns (r: Option<seq<byte>>)
    requires bsize >= 1 && (forall n | n > 0 :: 1 <= deliver(n) <= n) && Incremental(t)
    ensures r == Whole(t, key, input)
  {
    var copied := CopyLoop(t, t.init(key), input, bsize, true, deliver);
    var (state, out) := copied.value;
    var last := t.final(state);
    r := if last.None? then None else Some(out + last.value);
  }

  /** The length of the next piece. */
  function Piece(bsize: nat, deliver: nat -> nat, left: nat): (n: nat)
    requires bsize >= 1 && forall n | n > 0 :: 1 <= deliver(n) <= n
    ensures left > 0 ==> 1 <= n <= left && n <= bsize
  {
    if left == 0 then 0 else if deliver(left) > bsize then bsize else deliver(left)
  }

  // ----- the salt header

  const MAGIC: seq<byte> := [0x53, 0x61, 0x6C, 0x74, 0x65, 0x64, 0x5F, 0x5F]  // "Salted__"

  /** Key derivation, the cipher in both directions, and the base64 or compression layer below it. */
  datatype Cipher<!Key, !State> = Cipher(
    derive: (string, Option<seq<byte>>) -> Key,
    encrypt: Stream<Key, State>,
    decrypt: Stream<Key, State>,
    encode: seq<byte> -> seq<byte>,
    decode: seq<byte> -> seq<byte>)

  /** What is encrypted under a key is decrypted under it, and what is encoded is decoded. */
  ghost predicate Inverse<Key(!new), State>(c: Cipher<Key, State>) {
    && (forall k, x | Whole(c.encrypt, k, x).Some? :: Whole(c.decrypt, k, Whole(c.encrypt, k, x).value) == Some(x))
    && (forall x :: c.decode(c.encode(x)) == x)
  }

  /** The options both sides share. */
  datatype Options = Options(pass: string, nosalt: bool, hsalt: Option<string>, saltLen: nat)

  predicate HasHeader(o: Options) {
    !o.nosalt && o.hsalt.None?
  }

  /** The salt of an encryption; None for a bad -S argument. */
  function EncryptSalt(o: Options, random: seq<byte>): Option<Option<seq<byte>>> {
    if o.nosalt then Some(None)
    else if o.hsalt.None? then Some(Some(random))
    else
      var s := HexBytes(o.hsalt.value, o.saltLen);
      if s.None? then None else Some(s)
  }

  /** The file written by an encryption; None for a bad -S argument or a failing final block. */
  function EncryptFile<Key, State>(c: Cipher<Key, State>, o: Options, random: seq<byte>, input: seq<byte>)
    : Option<seq<byte>>
  {
    var salt := EncryptSalt(o, random);
    if salt.None? then None
    else
      var body := Whole(c.encrypt, c.derive(o.pass, salt.value), input);
      var header := if HasHeader(o) then MAGIC + random else [];
      if body.None? then None else Some(c.encode(header + body.value))
  }

  /** Salt and body of a file, as a decryption finds them; None for a short file, a bad magic or a bad -S. */
  function SplitHeader(o: Options, data: seq<byte>): Option<(Option<seq<byte>>, seq<byte>)> {
    if o.nosalt then Some((None, data))
    else if o.hsalt.Some? then
      var s := HexBytes(o.hsalt.value, o.saltLen);
      if s.None? then None else Some((s, data))
    else if |data| < |MAGIC| || data[..|MAGIC|] != MAGIC || |data| < |MAGIC| + o.saltLen then None
    else Some((Some(data[|MAGIC|..|MAGIC| + o.saltLen]), data[|MAGIC| + o.saltLen..]))
  }

  function DecryptFile<Key, State>(c: Cipher<Key, State>, o: Options, file: seq<byte>)
    : Option<(Option<seq<byte>>, seq<byte>)>
  {
    var parts := SplitHeader(o, c.decode(file));
    if parts.None? then None
    else
      var plain := Whole(c.decrypt, c.derive(o.pass, parts.value.0), parts.value.1);
      if plain.None? then None else Some((parts.value.0, plain.value))
  }

  lemma MagicText()
    ensures Octets("Salted__") == MAGIC
  {
  }

  /** Reading the header from the input, piece by piece. */
  method ReadSalt(o: Options, data: seq<byte>) returns (r: Option<(Option<seq<byte>>, seq<byte>)>)
    ensures r == SplitHeader(o, data)
    ensures !o.nosalt && o.hsalt.None? ==>
              (r.Some? <==> |data| >= 8 + o.saltLen && data[..8] == Octets("Salted__"))
  {
    MagicText();
    if o.nosalt {
      return Some((None, data));
    }
    var salt := new byte[o.saltLen](_ => 0);
    if o.hsalt.Some? {
      var ok := SetHex(o.hsalt.value, salt);
      if !ok {
        return None;
      }
      return Some((Some(salt[..]), data));
    }
    if |data| < |MAGIC| {
      return None;
    }
    var mbuf, rest := data[..|MAGIC|], data[|MAGIC|..];
    if mbuf != MAGIC || |rest| < o.saltLen {
      return None;
    }
    assert rest[..o.saltLen] == data[|MAGIC|..|MAGIC| + o.saltLen];
    assert rest[o.saltLen..] == data[|MAGIC| + o.saltLen..];
    r := Some((Some(rest[..o.saltLen]), rest[o.saltLen..]));
  }

  /** An encryption: the salt, the header in front, and the input through the copy loop. */
  method EncryptRun<Key, State(!new)>(c: Cipher<Key, State>, o: Options, random: seq<byte>, input: seq<byte>,
                                      bsize: nat, deliver: nat -> nat) returns (file: Option<seq<byte>>)
    requires bsize >= 1 && (forall n | n > 0 :: 1 <= deliver(n) <= n) && Incremental(c.encrypt)
    ensures file == EncryptFile(c, o, random, input)
  {
    var salt: Option<seq<byte>>, wbio: seq<byte> := None, [];
    if !o.nosalt {
      if o.hsalt.Some? {
        var buf := new byte[o.saltLen](_ => 0);
        var ok := SetHex(o.hsalt.value, buf);
        if !ok {
          return None;
        }
        salt := Some(buf[..]);
      } else {
        salt, wbio := Some(random), MAGIC + random;
      }
    }
    var key := c.derive(o.pass, salt);
    var body := Pump(c.encrypt, key, input, bsize, deliver);
    file := if body.None? then None else Some(c.encode(wbio + body.value));
  }

  /** A decryption: the header taken off, and the rest through the copy loop. */
  method DecryptRun<Key, State(!new)>(c: Cipher<Key, State>, o: Options, file: seq<byte>,
                                      bsize: nat, deliver: nat -> nat)
    returns (r: Option<(Option<seq<byte>>, seq<byte>)>)
    requires bsize >= 1 && (forall n | n > 0 :: 1 <= deliver(n) <= n) && Incremental(c.decrypt)
    ensures r == DecryptFile(c, o, file)
  {
    hide SplitHeader;
    var parts := ReadSalt(o, c.decode(file));
    if parts.None? {
      return None;
    }
    var key := c.derive(o.pass, parts.value.0);
    var plain := Pump(c.decrypt, key, parts.value.1, bsize, deliver);
    r := if plain.None? then None else Some((parts.value.0, plain.value));
  }

  /**
   Whenever an encryption writes a file, a decryption with the same options recovers the salt
   and the input; it writes none only for a bad -S argument or when the cipher itself fails.
   */
  lemma EncryptDecrypt<Key(!new), State>(c: Cipher<Key, State>, o: Options, random: seq<byte>, input: seq<byte>)
    requires Inverse(c) && |random| == o.saltLen
    ensures EncryptFile(c, o, random, input).None? <==>
              || (!o.nosalt && o.hsalt.Some? && HexBytes(o.hsalt.value, o.saltLen).None?)
              || Whole(c.encrypt, c.derive(o.pass, EncryptSalt(o, random).value), input).None?
    ensures EncryptFile(c, o, random, input).Some? ==>
              DecryptFile(c, o, EncryptFile(c, o, random, input).value) == Some((EncryptSalt(o, random).value, input))
  {
    hide HexBytes, Whole;
    if EncryptFile(c, o, random, input).Some? {
      var body := Whole(c.encrypt, c.derive(o.pass, EncryptSalt(o, random).value), input).value;
      var header := if HasHeader(o) then MAGIC + random else [];
      var data := header + body;
      assert c.decode(c.encode(data)) == data;
      if HasHeader(o) {
        assert data[..|MAGIC|] == MAGIC;
        assert data[|MAGIC|..|MAGIC| + o.saltLen] == random;
        assert data[|MAGIC| + o.saltLen..] == body;
      } else {
        assert data == body;
      }
    }
  }
}
