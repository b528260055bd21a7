/** Request correlation IDs: an acceptable inbound value is kept, anything else
    is replaced by a generated one. */
module RequestId {
  import Base64Url

  type Byte = Base64Url.Byte

  const MAXIMUM_REQUEST_ID_LENGTH := 64
  const GENERATED_REQUEST_ID_BYTES := 16

  predicate Permitted(c: char) {
    'a' <= c <= 'z' || 'A' <= c <= 'Z' || '0' <= c <= '9' || c == '-' || c == '_' || c == '.'
  }

  /** A value a client may propagate. */
  predicate Acceptable(value: string) {
    1 <= |value| <= MAXIMUM_REQUEST_ID_LENGTH && forall i :: 0 <= i < |value| ==> Permitted(value[i])
  }

  /** The value itself when it is acceptable, otherwise the empty string. */
  method AcceptableRequestID(value: string) returns (id: string)
    ensures id == if Acceptable(value) then value else ""
  {
    if value == "" || |value| > MAXIMUM_REQUEST_ID_LENGTH {
      return "";
    }
    for index := 0 to |value|
      invariant forall i :: 0 <= i < index ==> Permitted(value[i])
    {
      if !Permitted(value[index]) {
        return "";
      }
    }
    id := value;
  }

  function HexDigit(n: nat): char
    requires n < 16
  {
    if n < 10 then ('0' as int + n) as char else ('a' as int + n - 10) as char
  }

  /** hex.EncodeToString. */
  function Hex(bytes: seq<Byte>): string {
    if bytes == [] then "" else [HexDigit(bytes[0] / 16), HexDigit(bytes[0] % 16)] + Hex(bytes[1..])
  }

  /** The ID a server uses for a request, given the bytes it would draw. */
  function Resolve(inbound: string, random: seq<Byte>): string { if Acceptable(inbound) then inbound else Hex(random) }

  method ResolveRequestID(inbound: string, random: seq<Byte>) returns (id: string)
    requires |random| == GENERATED_REQUEST_ID_BYTES
    ensures id == Resolve(inbound, random)
    ensures if Acceptable(inbound) then id == inbound else |id| == 32 && Unhex(id) == random
  {
    id := AcceptableRequestID(inbound);
    if id == "" {
      ResolveGenerated(inbound, random, random);
      id := Hex(random);
    }
  }

  /** The ID that reaches the end of a chain of servers. */
  function Forward(inbound: string, draws: seq<seq<Byte>>): string
    decreases |draws|
  {
    if draws == [] then inbound else Forward(Resolve(inbound, draws[0]), draws[1..])
  }

  // ---- Laws ----

  lemma {:induction false} HexForm(bytes: seq<Byte>)
    ensures |Hex(bytes)| == 2 * |bytes| && forall i :: 0 <= i < |Hex(bytes)| ==> Permitted(Hex(bytes)[i])
  {
    if bytes != [] {
      HexForm(bytes[1..]);
      assert forall i :: 2 <= i < |Hex(bytes)| ==> Hex(bytes)[i] == Hex(bytes[1..])[i - 2];
    }
  }

  function HexValue(c: char): nat { if '0' <= c <= '9' then c as int - '0' as int else if 'a' <= c <= 'f' then c as int - 'a' as int + 10 else 0 }

  /** Reading hexadecimal pairs, high digit first. */
  function Unhex(s: string): seq<int> {
    if |s| < 2 then [] else [16 * HexValue(s[0]) + HexValue(s[1])] + Unhex(s[2..])
  }

  lemma {:induction false} UnhexHex(bytes: seq<Byte>)
    ensures Unhex(Hex(bytes)) == bytes
  {
    if bytes != [] {
      UnhexHex(bytes[1..]);
      assert Hex(bytes)[2..] == Hex(bytes[1..]);
      assert bytes == [bytes[0]] + bytes[1..];
    }
  }

  /** Different draws give different IDs. */
  lemma HexInjective(a: seq<Byte>, b: seq<Byte>)
    requires Hex(a) == Hex(b)
    ensures a == b
  {
    UnhexHex(a);
    UnhexHex(b);
  }

  /** Whatever comes in, the chosen ID is one every server accepts; and it is
      the inbound value exactly when that has 1 to 64 permitted bytes. */
  lemma ResolveAcceptable(inbound: string, random: seq<Byte>)
    requires |random| == GENERATED_REQUEST_ID_BYTES
    ensures Acceptable(Resolve(inbound, random)) && 1 <= |Resolve(inbound, random)| <= 64
    ensures forall c :: c in Resolve(inbound, random) ==>
              'a' <= c <= 'z' || 'A' <= c <= 'Z' || '0' <= c <= '9' || c in "-_."
    ensures Resolve(inbound, random) == inbound <==>
            && 1 <= |inbound| <= 64
            && forall i :: 0 <= i < |inbound| ==>
                 || 'a' <= inbound[i] <= 'z' || 'A' <= inbound[i] <= 'Z' || '0' <= inbound[i] <= '9' || inbound[i] in "-_."
  {
    HexForm(random);
  }

  /** In place of an unacceptable value comes the draw itself, 32 hexadecimal
      characters that read back to it, so different draws give different IDs. */
  lemma ResolveGenerated(inbound: string, random: seq<Byte>, other: seq<Byte>)
    requires |random| == |other| == GENERATED_REQUEST_ID_BYTES && !Acceptable(inbound)
    ensures |Resolve(inbound, random)| == 32 && Unhex(Resolve(inbound, random)) == random
    ensures Resolve(inbound, random) == Resolve(inbound, other) ==> random == other
  {
    HexForm(random);
    UnhexHex(random);
    UnhexHex(other);
  }

  /** Propagation is a fixed point: past the first server an ID never changes. */
  lemma {:induction false} ForwardFixedPoint(inbound: string, draws: seq<seq<Byte>>)
    requires draws != [] && forall i :: 0 <= i < |draws| ==> |draws[i]| == GENERATED_REQUEST_ID_BYTES
    ensures Forward(inbound, draws) == Resolve(inbound, draws[0])
    decreases |draws|
  {
    ResolveAcceptable(inbound, draws[0]);
    if |draws| > 1 {
      var id := Resolve(inbound, draws[0]);
      ForwardFixedPoint(id, draws[1..]);
      assert Resolve(id, draws[1..][0]) == id;
    }
  }
}
