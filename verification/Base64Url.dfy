/** base64.RawURLEncoding: sections 3.2 and 5 of RFC 4648, unpadded, with the
    leniency of Go's decoder (line breaks are skipped, trailing bits ignored).
    Text is related to sextets character by character, sextets to bytes in
    groups of four and three. */
module Base64Url {
  import opened Wrappers

  type Byte = n: nat | n < 256
  type Sextet = n: nat | n < 64

  // ---- Groups of bits ----

  /** Three bytes cut into four sextets. */
  function Cut(b0: Byte, b1: Byte, b2: Byte): (v: (Sextet, Sextet, Sextet, Sextet)) {
    (b0 / 4, b0 % 4 * 16 + b1 / 16, b1 % 16 * 4 + b2 / 64, b2 % 64)
  }

  /** Four sextets joined into three bytes. */
  function Join(v0: Sextet, v1: Sextet, v2: Sextet, v3: Sextet): (Byte, Byte, Byte) {
    ((v0 as int) * 4 + v1 / 16, (v1 % 16 as int) * 16 + v2 / 4, (v2 % 4 as int) * 64 + v3)
  }

  function ToSextets(b: seq<Byte>): seq<Sextet> {
    if b == [] then []
    else if |b| == 1 then var v := Cut(b[0], 0, 0); [v.0, v.1]
    else if |b| == 2 then var v := Cut(b[0], b[1], 0); [v.0, v.1, v.2]
    else var v := Cut(b[0], b[1], b[2]); [v.0, v.1, v.2, v.3] + ToSextets(b[3..])
  }

  /** The bytes of whole and partial quanta. A lone final sextet is corrupt; the
      bits of a partial quantum that fill no byte are dropped unread. */
  function FromSextets(v: seq<Sextet>): Option<seq<Byte>> {
    if v == [] then Some([])
    else if |v| == 1 then None
    else if |v| == 2 then Some([Join(v[0], v[1], 0, 0).0])
    else if |v| == 3 then var b := Join(v[0], v[1], v[2], 0); Some([b.0, b.1])
    else
      match FromSextets(v[4..])
      case None => None
      case Some(rest) => var b := Join(v[0], v[1], v[2], v[3]); Some([b.0, b.1, b.2] + rest)
  }

  // ---- Text ----

  predicate IsBytes(s: string) { forall i :: 0 <= i < |s| ==> s[i] as int < 256 }

  function Bytes(s: string): seq<Byte>
    requires IsBytes(s)
  {
    seq(|s|, i requires 0 <= i < |s| => s[i] as int)
  }

  function Text(b: seq<Byte>): string { seq(|b|, i requires 0 <= i < |b| => b[i] as char) }

  function SextetChar(n: Sextet): char {
    if n < 26 then ('A' as int + n) as char
    else if n < 52 then ('a' as int + n - 26) as char
    else if n < 62 then ('0' as int + n - 52) as char
    else if n == 62 then '-'
    else '_'
  }

  function SextetValue(c: char): Option<Sextet> {
    if 'A' <= c <= 'Z' then Some(c as int - 'A' as int)
    else if 'a' <= c <= 'z' then Some(c as int - 'a' as int + 26)
    else if '0' <= c <= '9' then Some(c as int - '0' as int + 52)
    else if c == '-' then Some(62)
    else if c == '_' then Some(63)
    else None
  }

  predicate InAlphabet(s: string) { forall i :: 0 <= i < |s| ==> SextetValue(s[i]).Some? }

  function Spell(v: seq<Sextet>): string { seq(|v|, i requires 0 <= i < |v| => SextetChar(v[i])) }

  function Unspell(s: string): seq<Sextet>
    requires InAlphabet(s)
  {
    seq(|s|, i requires 0 <= i < |s| => SextetValue(s[i]).value)
  }

  function SkipLineBreaks(s: string): string {
    if s == "" then ""
    else
      var front, last := SkipLineBreaks(s[..|s| - 1]), s[|s| - 1];
      if last == '\r' || last == '\n' then front else front + [last]
  }

  /** RawURLEncoding.EncodeToString. */
  function Encode(s: string): string
    requires IsBytes(s)
  {
    Spell(ToSextets(Bytes(s)))
  }

  /** RawURLEncoding.DecodeString. */
  function Decode(s: string): Option<string> {
    var kept := SkipLineBreaks(s);
    if !InAlphabet(kept) then None
    else
      match FromSextets(Unspell(kept))
      case None => None
      case Some(bytes) => Some(Text(bytes))
  }

  /** The bits of a partial quantum that fill no byte are all zero. */
  predicate ZeroTail(v: seq<Sextet>) {
    && (|v| % 4 == 2 ==> v[|v| - 1] % 16 == 0)
    && (|v| % 4 == 3 ==> v[|v| - 1] % 4 == 0)
  }

  /** Only alphabet characters, so no line break, and a zero tail. */
  predicate Canonical(s: string) { InAlphabet(s) && ZeroTail(Unspell(s)) }

  // ---- Laws ----

  lemma JoinCut(b0: Byte, b1: Byte, b2: Byte)
    ensures var v := Cut(b0, b1, b2); Join(v.0, v.1, v.2, v.3) == (b0, b1, b2)
  {
    var v := Cut(b0, b1, b2);
    assert v.1 / 16 == b0 % 4 && v.1 % 16 == b1 / 16;
    assert v.2 / 4 == b1 % 16 && v.2 % 4 == b2 / 64;
  }

  lemma CutTail(b0: Byte, b1: Byte)
    ensures var v := Cut(b0, b1, 0);
            v.2 % 4 == 0 && v.3 == 0 && (b1 == 0 ==> v.1 % 16 == 0 && v.2 == 0)
  {
  }

  lemma CutJoin(v0: Sextet, v1: Sextet, v2: Sextet, v3: Sextet)
    ensures var b := Join(v0, v1, v2, v3); Cut(b.0, b.1, b.2) == (v0, v1, v2, v3)
  {
    var b := Join(v0, v1, v2, v3);
    assert b.0 / 4 == v0 && b.0 % 4 == v1 / 16;
    assert b.1 / 16 == v1 % 16 && b.1 % 16 == v2 / 4;
    assert b.2 / 64 == v2 % 4 && b.2 % 64 == v3;
  }

  lemma {:induction false} FromToSextets(b: seq<Byte>)
    ensures FromSextets(ToSextets(b)) == Some(b) && ZeroTail(ToSextets(b))
    ensures b != [] ==> ToSextets(b) != []
  {
    hide Cut, Join;
    if |b| >= 3 {
      FromToSextets(b[3..]);
      JoinCut(b[0], b[1], b[2]);
      assert b == [b[0], b[1], b[2]] + b[3..];
      ToSextetsPrefix(b[0], b[1], b[2], b[3..]);
      assert ToSextets(b)[4..] == ToSextets(b[3..]);
      ZeroTailSuffix(ToSextets(b));
    } else if |b| == 2 {
      JoinCut(b[0], b[1], 0);
      CutTail(b[0], b[1]);
      assert b == [b[0], b[1]];
    } else if |b| == 1 {
      JoinCut(b[0], 0, 0);
      CutTail(b[0], 0);
      assert b == [b[0]];
    }
  }

  lemma {:induction false} ToFromSextets(v: seq<Sextet>)
    requires FromSextets(v).Some?
    ensures ToSextets(FromSextets(v).value) == v <==> ZeroTail(v)
  {
    hide Cut, Join;
    if |v| >= 4 {
      ToFromSextets(v[4..]);
      CutJoin(v[0], v[1], v[2], v[3]);
      var b := Join(v[0], v[1], v[2], v[3]);
      var rest := FromSextets(v[4..]).value;
      ToSextetsPrefix(b.0, b.1, b.2, rest);
      assert v == [v[0], v[1], v[2], v[3]] + v[4..];
      ZeroTailSuffix(v);
    } else if |v| == 3 {
      ToFromTail(v[0], v[1], v[2]);
      assert v == [v[0], v[1], v[2]];
    } else if |v| == 2 {
      ToFromTail(v[0], v[1], 0);
      assert v == [v[0], v[1]];
    }
  }

  lemma ToSextetsPrefix(b0: Byte, b1: Byte, b2: Byte, rest: seq<Byte>)
    ensures var v := Cut(b0, b1, b2);
            ToSextets([b0, b1, b2] + rest) == [v.0, v.1, v.2, v.3] + ToSextets(rest)
  {
    hide Cut;
    assert ([b0, b1, b2] + rest)[3..] == rest;
  }

  lemma ZeroTailSuffix(v: seq<Sextet>)
    requires |v| >= 4
    ensures ZeroTail(v) <==> ZeroTail(v[4..])
  {
  }

  lemma ToFromTail(v0: Sextet, v1: Sextet, v2: Sextet)
    ensures var b := Join(v0, v1, v2, 0);
            && (var w := Cut(b.0, b.1, 0); w.0 == v0 && w.1 == v1 && w.2 == v2 / 4 * 4)
            && (var w := Cut(b.0, 0, 0); w.0 == v0 && w.1 == v1 / 16 * 16)
  {
  }

  lemma SextetInverse(n: Sextet)
    ensures SextetValue(SextetChar(n)) == Some(n)
  {
  }

  lemma CharInverse(c: char)
    requires SextetValue(c).Some?
    ensures SextetChar(SextetValue(c).value) == c && c != '\r' && c != '\n'
  {
  }

  lemma UnspellSpell(v: seq<Sextet>)
    ensures InAlphabet(Spell(v)) && Unspell(Spell(v)) == v
  {
    forall i | 0 <= i < |v|
      ensures SextetValue(Spell(v)[i]) == Some(v[i])
    {
      SextetInverse(v[i]);
    }
  }

  lemma SpellUnspell(s: string)
    requires InAlphabet(s)
    ensures Spell(Unspell(s)) == s
  {
    forall i | 0 <= i < |s|
      ensures Spell(Unspell(s))[i] == s[i]
    {
      CharInverse(s[i]);
    }
  }

  lemma TextBytes(s: string)
    requires IsBytes(s)
    ensures Text(Bytes(s)) == s
  {
  }

  lemma BytesText(b: seq<Byte>)
    ensures IsBytes(Text(b)) && Bytes(Text(b)) == b
  {
  }

  lemma {:induction false} SkipKeepsAlphabet(s: string)
    requires InAlphabet(s)
    ensures SkipLineBreaks(s) == s
  {
    if s != "" {
      CharInverse(s[|s| - 1]);
      SkipKeepsAlphabet(s[..|s| - 1]);
      assert s == s[..|s| - 1] + [s[|s| - 1]];
    }
  }

  /** A line break added to a text leaves what it decodes to unchanged. */
  lemma DecodeIgnoresLineBreak(s: string)
    ensures Decode(s + "\n") == Decode(s)
  {
    assert (s + "\n")[..|s|] == s;
  }

  /** The encoding uses only the URL alphabet, is canonical, and decodes to its
      input, whichever of the three residues the length leaves. */
  lemma DecodeEncode(s: string)
    requires IsBytes(s)
    ensures Canonical(Encode(s)) && (s != "" ==> Encode(s) != "")
    ensures Decode(Encode(s)) == Some(s)
  {
    FromToSextets(Bytes(s));
    UnspellSpell(ToSextets(Bytes(s)));
    SkipKeepsAlphabet(Encode(s));
    TextBytes(s);
  }

  /** The decoder accepts more than the encoder emits: a text it accepts is the
      encoding of what it decodes to exactly when the text is canonical. */
  lemma EncodeDecodeExactly(s: string)
    requires Decode(s).Some?
    ensures IsBytes(Decode(s).value)
    ensures Encode(Decode(s).value) == s <==> Canonical(s)
  {
    var kept := SkipLineBreaks(s);
    var sextets := Unspell(kept);
    BytesText(FromSextets(sextets).value);
    if Canonical(s) {
      SkipKeepsAlphabet(s);
      ToFromSextets(sextets);
      SpellUnspell(s);
    } else if Encode(Decode(s).value) == s {
      DecodeEncode(Decode(s).value);
    }
  }

  // ---- The encoding, said character by character ----

  /** Character number n of A-Z a-z 0-9 - _, by code point. */
  predicate AlphabetAt(n: int, c: char) {
    && 0 <= n < 64
    && (n < 26 ==> c as int == 65 + n) && (26 <= n < 52 ==> c as int == 71 + n) && (52 <= n < 62 ==> c as int == n - 4)
    && (n == 62 ==> c as int == 45) && (n == 63 ==> c as int == 95)
  }

  /** The 24 bits of the three bytes of a string from a position on, where bytes
      beyond its end are zero. */
  function Bits(s: string, at: nat): int { ByteAt(s, at) * 65536 + ByteAt(s, at + 1) * 256 + ByteAt(s, at + 2) }

  function ByteAt(s: string, at: nat): int { if at < |s| then s[at] as int else 0 }

  lemma AlphabetChar(n: Sextet)
    ensures AlphabetAt(n, SextetChar(n))
  {
  }

  /** The six bits of a group of 24 at a place from 0 to 3. */
  function SixBits(bits: int, place: int): int {
    if place == 0 then bits / 64 / 64 / 64 else if place == 1 then bits / 64 / 64 % 64
    else if place == 2 then bits / 64 % 64 else bits % 64
  }

  lemma LastDigit(q: int, r: int)
    requires 0 <= r < 64
    ensures (q * 64 + r) / 64 == q && (q * 64 + r) % 64 == r
  {
  }

  lemma CutBits(b0: Byte, b1: Byte, b2: Byte)
    ensures var v, bits := Cut(b0, b1, b2), (b0 as int) * 65536 + b1 * 256 + b2;
            v.0 == SixBits(bits, 0) && v.1 == SixBits(bits, 1) && v.2 == SixBits(bits, 2) && v.3 == SixBits(bits, 3)
  {
    var v := Cut(b0, b1, b2);
    CutSum(b0, b1, b2);
    var v0: int, v1: int, v2: int, v3: int := v.0, v.1, v.2, v.3;
    hide Cut;
    LastDigit((v0 * 64 + v1) * 64 + v2, v3);
    LastDigit(v0 * 64 + v1, v2);
    LastDigit(v0, v1);
  }

  lemma CutSum(b0: Byte, b1: Byte, b2: Byte)
    ensures var v := Cut(b0, b1, b2);
            (((v.0 as int) * 64 + v.1) * 64 + v.2) * 64 + v.3 == (b0 as int) * 65536 + b1 * 256 + b2
  {
  }

  lemma BytesBelow(s: string, at: nat)
    requires IsBytes(s)
    ensures 0 <= ByteAt(s, at) < 256
  {
  }

  lemma FirstSextets(s: string, k: nat)
    requires IsBytes(s) && k < 4 && k < |ToSextets(Bytes(s))|
    ensures ToSextets(Bytes(s))[k] == SixBits(Bits(s, 0), k)
  {
    hide Cut;
    BytesBelow(s, 0);
    BytesBelow(s, 1);
    BytesBelow(s, 2);
    CutBits(ByteAt(s, 0), ByteAt(s, 1), ByteAt(s, 2));
  }

  lemma NextGroups(s: string)
    requires IsBytes(s) && |s| > 3
    ensures |ToSextets(Bytes(s))| == 4 + |ToSextets(Bytes(s[3..]))| > 4
    ensures forall k :: 4 <= k < |ToSextets(Bytes(s))| ==> ToSextets(Bytes(s))[k] == ToSextets(Bytes(s[3..]))[k - 4]
  {
    hide Cut;
    assert Bytes(s)[3..] == Bytes(s[3..]);
  }

  lemma LaterBits(s: string, at: nat)
    requires |s| > 3
    ensures Bits(s[3..], at) == Bits(s, at + 3)
  {
  }

  lemma {:induction false} SextetAt(s: string, k: nat)
    requires IsBytes(s) && k < |ToSextets(Bytes(s))|
    ensures |ToSextets(Bytes(s))| == (4 * |s| + 2) / 3
    ensures ToSextets(Bytes(s))[k] == SixBits(Bits(s, k / 4 * 3), k % 4)
    decreases |s|
  {
    hide SixBits, Bits, ToSextets, Bytes;
    if k < 4 {
      FirstSextets(s, k);
    }
    if |s| > 3 {
      NextGroups(s);
      SextetAt(s[3..], if k >= 4 then k - 4 else 0);
      if k >= 4 {
        LaterBits(s, (k - 4) / 4 * 3);
      }
    } else {
      ShortLength(s);
    }
  }

  lemma ShortLength(s: string)
    requires IsBytes(s) && |s| <= 3
    ensures |ToSextets(Bytes(s))| == (4 * |s| + 2) / 3
  {
  }

  /** Section 5 of RFC 4648: four characters for each three bytes, six bits to the
      character, first bits first, with zero bits added at the end and no padding. */
  lemma EncodedCharacter(s: string, k: nat)
    requires IsBytes(s) && k < |Encode(s)|
    ensures |Encode(s)| == (4 * |s| + 2) / 3
    ensures AlphabetAt(SixBits(Bits(s, k / 4 * 3), k % 4), Encode(s)[k])
  {
    hide SextetChar;
    SextetAt(s, k);
    AlphabetChar(ToSextets(Bytes(s))[k]);
  }
}
