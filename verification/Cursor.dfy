/** The opaque continuation cursor: a timestamp and an identifier as text,
    wrapped in base64url. */
module Cursor {
  import opened Wrappers
  import opened Calendar
  import Base64Url
  import Decimal
  import Rfc3339

  /** The position after the last widget of a page. The identifier is an int64. */
  datatype ListCursor = ListCursor(createdAt: Instant, id: int)

  datatype DecodeError = BadEncoding | NoSeparator | BadTimestamp | BadIdentifier

  const MAX_INT64: int := 0x7fff_ffff_ffff_ffff

  /** Go's general layout parser, which time.Parse falls back to when a text is
      not an RFC 3339 timestamp. Nothing is known of what else it accepts. */
  type GeneralParser = string -> Option<Instant>

  function Payload(cursor: ListCursor): string {
    Rfc3339.Format(cursor.createdAt) + "|" + Decimal.FormatInt(cursor.id)
  }

  function EncodeListCursor(cursor: ListCursor): string {
    PayloadBytes(cursor);
    Base64Url.Encode(Payload(cursor))
  }

  /** strings.Cut at the first separator. */
  function CutAt(s: string, sep: char): Option<(string, string)> {
    if s == "" then None
    else if s[0] == sep then Some(("", s[1..]))
    else
      match CutAt(s[1..], sep)
      case None => None
      case Some(parts) => Some(([s[0]] + parts.0, parts.1))
  }

  function ParseTime(s: string, general: GeneralParser): Option<Instant> {
    match Rfc3339.Parse(s)
    case Some(i) => Some(i)
    case None => general(s)
  }

  function DecodePayload(payload: string, general: GeneralParser): Result<ListCursor, DecodeError> {
    match CutAt(payload, '|')
    case None => Err(NoSeparator)
    case Some(parts) =>
      match ParseTime(parts.0, general)
      case None => Err(BadTimestamp)
      case Some(createdAt) =>
        match Decimal.ParseInt(parts.1, 64)
        case None => Err(BadIdentifier)
        case Some(id) => if id < 1 then Err(BadIdentifier) else Ok(ListCursor(createdAt, id))
  }

  /** An absent cursor is the empty string. */
  function DecodeListCursor(value: string, general: GeneralParser): Result<Option<ListCursor>, DecodeError> {
    if value == "" then Ok(None)
    else
      match Base64Url.Decode(value)
      case None => Err(BadEncoding)
      case Some(payload) =>
        match DecodePayload(payload, general)
        case Err(e) => Err(e)
        case Ok(cursor) => Ok(Some(cursor))
  }

  /** Cursors this server can emit and read back: an identifier that a row can
      have and a UTC year that RFC 3339 can write. */
  predicate Representable(cursor: ListCursor) {
    1 <= cursor.id <= MAX_INT64 && FourDigitYear(cursor.createdAt)
  }

  /** The fallback parser, too, insists on a year of four digits. */
  ghost predicate RefusesLongYears(general: GeneralParser) {
    forall i :: !FourDigitYear(i) ==> general(Rfc3339.Format(i)) == None
  }

  // ---- Laws ----

  lemma PayloadBytes(cursor: ListCursor)
    ensures Base64Url.IsBytes(Payload(cursor)) && Payload(cursor) != ""
  {
    hide Rfc3339.Format, Rfc3339.StampChar, Decimal.FormatInt;
    Rfc3339.FormatChars(cursor.createdAt);
    Rfc3339.Punctuation();
    FormatIntBytes(cursor.id);
  }

  lemma FormatIntBytes(i: int)
    ensures Base64Url.IsBytes(Decimal.FormatInt(i))
  {
    Decimal.FormatUintValue(if i < 0 then -i else i);
  }

  lemma {:induction false} CutAtFirst(before: string, sep: char, after: string)
    requires sep !in before
    ensures CutAt(before + [sep] + after, sep) == Some((before, after))
  {
    var s := before + [sep] + after;
    if before == "" {
      assert s[1..] == after;
    } else {
      CutAtFirst(before[1..], sep, after);
      assert s[1..] == before[1..] + [sep] + after;
      assert before == [before[0]] + before[1..];
    }
  }

  lemma Int64Width(n: int)
    ensures Decimal.InSigned(n, 64) <==> -MAX_INT64 - 1 <= n <= MAX_INT64
  {
    assert Decimal.Pow2(7) == 0x80 && Decimal.Pow2(8) == 0x100;
    hide Decimal.Pow2;
    Pow2Sum(8, 7);
    assert Decimal.Pow2(15) == 0x8000;
    Pow2Sum(8, 8);
    assert Decimal.Pow2(16) == 0x1_0000;
    Pow2Sum(16, 15);
    assert Decimal.Pow2(31) == 0x8000_0000;
    Pow2Sum(16, 16);
    Pow2Sum(32, 31);
    assert Decimal.Pow2(63) == MAX_INT64 + 1;
  }

  lemma {:induction false} Pow2Sum(j: nat, k: nat)
    ensures Decimal.Pow2(j + k) == Decimal.Pow2(j) * Decimal.Pow2(k)
  {
    if j > 0 {
      Pow2Sum(j - 1, k);
    }
  }

  lemma PayloadCut(cursor: ListCursor)
    ensures CutAt(Payload(cursor), '|') == Some((Rfc3339.Format(cursor.createdAt), Decimal.FormatInt(cursor.id)))
  {
    hide Rfc3339.Format, Rfc3339.StampChar, Decimal.FormatInt, CutAt;
    Rfc3339.FormatChars(cursor.createdAt);
    Rfc3339.Punctuation();
    CutAtFirst(Rfc3339.Format(cursor.createdAt), '|', Decimal.FormatInt(cursor.id));
  }

  /** The cursor round trip: whatever the fallback parser does, decoding an
      encoded representable cursor gives that cursor back. */
  lemma DecodeEncode(cursor: ListCursor, general: GeneralParser)
    requires Representable(cursor)
    ensures DecodeListCursor(EncodeListCursor(cursor), general) == Ok(Some(cursor))
  {
    hide Rfc3339.Format, Rfc3339.Parse, Decimal.FormatInt, Decimal.ParseInt, CutAt, Payload, Base64Url.Encode, Base64Url.Decode;
    PayloadBytes(cursor);
    Base64Url.DecodeEncode(Payload(cursor));
    PayloadCut(cursor);
    Rfc3339.ParseFormat(cursor.createdAt);
    Int64Width(cursor.id);
    Decimal.ParseFormatInt(cursor.id, 64);
  }

  lemma DecodeEncodeOutcome(cursor: ListCursor, general: GeneralParser)
    requires 1 <= cursor.id <= MAX_INT64
    requires RefusesLongYears(general)
    ensures DecodeListCursor(EncodeListCursor(cursor), general)
            == if FourDigitYear(cursor.createdAt) then Ok(Some(cursor)) else Err(BadTimestamp)
  {
    if FourDigitYear(cursor.createdAt) {
      DecodeEncode(cursor, general);
    } else {
      hide Rfc3339.Format, Rfc3339.Parse, Decimal.FormatInt, Decimal.ParseInt, CutAt, Payload, Base64Url.Encode, Base64Url.Decode;
      PayloadBytes(cursor);
      Base64Url.DecodeEncode(Payload(cursor));
      PayloadCut(cursor);
      Rfc3339.ParseFormatWide(cursor.createdAt);
    }
  }

  /** The bound on years is exact: where the fallback parser also insists on
      four-digit years, a stored identifier's cursor survives the round trip
      if and only if its UTC year is one of 0 to 9999. */
  lemma DecodeEncodeExactly(cursor: ListCursor, general: GeneralParser)
    requires 1 <= cursor.id <= MAX_INT64
    requires RefusesLongYears(general)
    ensures DecodeListCursor(EncodeListCursor(cursor), general) == Ok(Some(cursor))
            <==> FourDigitYear(cursor.createdAt)
  {
    DecodeEncodeOutcome(cursor, general);
  }

  /** A cursor is a non-empty string of the characters A-Z a-z 0-9 - _ only. */
  lemma EncodedForm(cursor: ListCursor)
    ensures EncodeListCursor(cursor) != "" && Base64Url.InAlphabet(EncodeListCursor(cursor))
  {
    hide Base64Url.Encode, Payload;
    PayloadBytes(cursor);
    Base64Url.DecodeEncode(Payload(cursor));
  }

  /** A decoded cursor always names a possible row. */
  lemma DecodedIdentifier(value: string, general: GeneralParser)
    requires DecodeListCursor(value, general).Ok? && DecodeListCursor(value, general).value.Some?
    ensures 1 <= DecodeListCursor(value, general).value.value.id <= MAX_INT64
  {
    hide Rfc3339.Parse, CutAt, Base64Url.Decode;
    var payload := Base64Url.Decode(value).value;
    var id := Decimal.ParseInt(CutAt(payload, '|').value.1, 64).value;
    Int64Width(id);
  }

  /** The reverse law fails for every cursor: a second text, which no encoding
      produces, decodes to the same cursor. */
  lemma DecodeNotInjective(cursor: ListCursor, general: GeneralParser)
    requires Representable(cursor)
    ensures var other := EncodeListCursor(cursor) + "\n";
            && DecodeListCursor(other, general) == Ok(Some(cursor))
            && forall c :: EncodeListCursor(c) != other
  {
    hide Base64Url.Decode, Payload, Base64Url.Encode, DecodePayload;
    var value := EncodeListCursor(cursor);
    EncodedForm(cursor);
    DecodeEncode(cursor, general);
    Base64Url.DecodeIgnoresLineBreak(value);
    forall c
      ensures EncodeListCursor(c) != value + "\n"
    {
      EncodedForm(c);
      assert (value + "\n")[|value|] == '\n';
    }
  }

  /** A payload as this server writes it: a canonical timestamp in UTC, and an
      identifier without a sign or a leading zero. */
  predicate CanonicalPayload(payload: string) {
    match CutAt(payload, '|')
    case None => false
    case Some(parts) => Rfc3339.CanonicalTime(parts.0) && Decimal.CanonicalPositive(parts.1)
  }

  lemma {:induction false} CutJoins(s: string, sep: char)
    requires CutAt(s, sep).Some?
    ensures var parts := CutAt(s, sep).value;
            s == parts.0 + [sep] + parts.1
  {
    if s[0] != sep {
      CutJoins(s[1..], sep);
    }
    assert s == [s[0]] + s[1..];
  }

  /** What is decoded from a canonical payload is written as that payload, so no
      text reaches the fallback parser and comes back unchanged. */
  lemma CanonicalPayloadWritten(payload: string, general: GeneralParser)
    requires DecodePayload(payload, general).Ok? && CanonicalPayload(payload)
    ensures Payload(DecodePayload(payload, general).value) == payload
  {
    hide Rfc3339.Parse, Rfc3339.Format, Rfc3339.CanonicalTime, Decimal.ParseInt, Decimal.FormatInt, Decimal.CanonicalPositive, CutAt;
    var parts := CutAt(payload, '|').value;
    CutJoins(payload, '|');
    Rfc3339.FormatParse(parts.0);
    Decimal.FormatParseIntExactly(parts.1, 64);
  }

  lemma WrittenPayloadCanonical(cursor: ListCursor)
    requires Representable(cursor)
    ensures CanonicalPayload(Payload(cursor))
  {
    hide Rfc3339.Parse, Rfc3339.Format, Rfc3339.CanonicalTime, Decimal.ParseInt, Decimal.FormatInt, CutAt, Payload;
    PayloadCut(cursor);
    Rfc3339.FormatCanonical(cursor.createdAt);
    Int64Width(cursor.id);
    Decimal.ParseFormatInt(cursor.id, 64);
    Decimal.FormatParseIntExactly(Decimal.FormatInt(cursor.id), 64);
  }

  /** The reverse law holds exactly for canonical texts: a text that decodes to a
      cursor is what that cursor is encoded as if and only if its base64 has no
      line break and zero trailing bits, its timestamp ends in Z behind a fraction
      of at most nine digits, the last not zero, or behind none, and its identifier
      has neither a sign nor a leading zero. */
  lemma EncodeDecodeExactly(value: string, general: GeneralParser)
    requires RefusesLongYears(general)
    requires DecodeListCursor(value, general).Ok? && DecodeListCursor(value, general).value.Some?
    ensures Base64Url.Decode(value).Some?
    ensures EncodeListCursor(DecodeListCursor(value, general).value.value) == value
            <==> Base64Url.Canonical(value) && CanonicalPayload(Base64Url.Decode(value).value)
  {
    hide DecodePayload, Payload, CanonicalPayload, Base64Url.Encode, Base64Url.Decode, Base64Url.Canonical, RefusesLongYears, FourDigitYear;
    var payload := Base64Url.Decode(value).value;
    var cursor := DecodeListCursor(value, general).value.value;
    Base64Url.EncodeDecodeExactly(value);
    PayloadBytes(cursor);
    if EncodeListCursor(cursor) == value {
      Base64Url.DecodeEncode(Payload(cursor));
      DecodedIdentifier(value, general);
      DecodeEncodeOutcome(cursor, general);
      WrittenPayloadCanonical(cursor);
    }
    if Base64Url.Canonical(value) && CanonicalPayload(payload) {
      CanonicalPayloadWritten(payload, general);
    }
  }

  /** What a cursor carries: the base64url of its time, a bar, and its identifier. */
  lemma EncodedPayload(cursor: ListCursor)
    ensures Base64Url.Decode(EncodeListCursor(cursor))
            == Some(Rfc3339.Format(cursor.createdAt) + "|" + Decimal.FormatInt(cursor.id))
    ensures var payload := Rfc3339.Format(cursor.createdAt) + "|" + Decimal.FormatInt(cursor.id);
            Base64Url.IsBytes(payload) && EncodeListCursor(cursor) == Base64Url.Encode(payload)
  {
    PayloadBytes(cursor);
    hide Base64Url.Encode, Base64Url.Decode, Rfc3339.Format, Decimal.FormatInt;
    Base64Url.DecodeEncode(Payload(cursor));
  }
}
