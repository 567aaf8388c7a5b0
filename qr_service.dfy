/** The check-in credential: the JSON payload a QR code carries, its decoder
    and its validator. The PNG rendering is not modelled; a QR code is
    identified with the text it encodes. */
module QrService {
  import opened Wrappers
  import opened JsonValues

  const CheckinType := "rsvp_checkin"

  datatype QrError = NonPositiveId

  /** The `data:image/png;base64,...` URL, standing for the image of `text`. */
  datatype QrCode = PngDataUrl(text: string)

  // ---------------------------------------------------------------------------
  // The payload and its compact JSON text.

  /** The dictionary built for an RSVP check-in. */
  function Payload(userId: int, eventId: int): map<string, Json>
  {
    map["user_id" := JInt(userId), "event_id" := JInt(eventId), "type" := JStr(CheckinType)]
  }

  predicate IsDigits(s: string)
  {
    forall i :: 0 <= i < |s| ==> '0' <= s[i] <= '9'
  }

  /** Decimal text of a natural number, as `json.dumps` writes it. */
  function DecimalText(n: nat): (s: string)
    ensures |s| > 0 && IsDigits(s)
    decreases n
  {
    if n < 10 then [('0' as int + n) as char] else DecimalText(n / 10) + [('0' as int + n % 10) as char]
  }

  /** The value of a string of decimal digits. */
  function DecimalValue(s: string): nat
    requires IsDigits(s)
    decreases |s|
  {
    if s == [] then 0 else 10 * DecimalValue(s[..|s| - 1]) + (s[|s| - 1] as int - '0' as int)
  }

  lemma {:induction false} DecimalRoundTrip(n: nat)
    ensures DecimalValue(DecimalText(n)) == n
    decreases n
  {
    var s := DecimalText(n);
    if n >= 10 {
      DecimalRoundTrip(n / 10);
      assert s[..|s| - 1] == DecimalText(n / 10);
    }
  }

  const Head := "{\"user_id\":"
  const Mid := ",\"event_id\":"
  const Tail := ",\"type\":\"rsvp_checkin\"}"

  /** `json.dumps(payload, separators=(",", ":"))`, keys in insertion order. */
  function PayloadText(userId: nat, eventId: nat): string
  {
    Head + (DecimalText(userId) + (Mid + (DecimalText(eventId) + Tail)))
  }

  lemma DropCommonPrefix(p: string, x: string, y: string)
    requires p + x == p + y
    ensures x == y
  {
    assert x == (p + x)[|p|..] && y == (p + y)[|p|..];
  }

  /** Two texts that each start with digits followed by a comma split at the
      same place. */
  lemma SplitAtComma(a: string, b: string, c: string, d: string)
    requires IsDigits(a) && IsDigits(c)
    requires |b| > 0 && b[0] == ',' && |d| > 0 && d[0] == ','
    requires a + b == c + d
    ensures a == c && b == d
  {
    assert a == (a + b)[..|a|] && c == (c + d)[..|c|];
    assert b == (a + b)[|a|..] && d == (c + d)[|c|..];
  }

  /** The encoded text determines both ids: distinct RSVPs get distinct codes. */
  lemma PayloadTextInjective(u1: nat, e1: nat, u2: nat, e2: nat)
    requires PayloadText(u1, e1) == PayloadText(u2, e2)
    ensures u1 == u2 && e1 == e2
  {
    DropCommonPrefix(Head, DecimalText(u1) + (Mid + (DecimalText(e1) + Tail)), DecimalText(u2) + (Mid + (DecimalText(e2) + Tail)));
    SplitAtComma(DecimalText(u1), Mid + (DecimalText(e1) + Tail), DecimalText(u2), Mid + (DecimalText(e2) + Tail));
    DropCommonPrefix(Mid, DecimalText(e1) + Tail, DecimalText(e2) + Tail);
    SplitAtComma(DecimalText(e1), Tail, DecimalText(e2), Tail);
    DecimalRoundTrip(u1);
    DecimalRoundTrip(u2);
    DecimalRoundTrip(e1);
    DecimalRoundTrip(e2);
  }

  // ---------------------------------------------------------------------------
  // The three operations.

  /** `QRGenerator.generate_rsvp_qr`. */
  function GenerateRsvpQr(userId: int, eventId: int): (r: Result<QrCode, QrError>)
    ensures r.Failure? <==> userId <= 0 || eventId <= 0
    ensures r.Success? ==> userId > 0 && eventId > 0 && r.value.text == PayloadText(userId, eventId)
  {
    if userId <= 0 || eventId <= 0 then Failure(NonPositiveId)
    else Success(PngDataUrl(PayloadText(userId, eventId)))
  }

  /** `QRGenerator.decode_qr_data`; `loads` is `json.loads`, `None` standing for
      a `JSONDecodeError`. */
  function DecodeQrData(raw: string, loads: string -> Option<Json>): (r: map<string, Json>)
    ensures r == map[] || "type" in r
    ensures r != map[] <==> raw != "" && loads(raw).Some? && loads(raw).value.JObject? && "type" in loads(raw).value.fields
    ensures r != map[] ==> r == loads(raw).value.fields
  {
    if raw == "" then map[]
    else match loads(raw)
      case Some(JObject(fields)) => if "type" in fields then fields else map[]
      case _ => map[]
  }

  /** `isinstance(v, int) and v > 0`, where `True` counts as the integer 1. */
  predicate IsPositiveInt(v: Json)
  {
    AsPythonInt(v).Some? && AsPythonInt(v).value > 0
  }

  /** `QRGenerator.validate_rsvp_qr_data`. */
  predicate ValidateRsvpQrData(d: Json)
  {
    && d.JObject?
    && "user_id" in d.fields && "event_id" in d.fields && "type" in d.fields
    && d.fields["type"] == JStr(CheckinType)
    && IsPositiveInt(d.fields["user_id"])
    && IsPositiveInt(d.fields["event_id"])
  }

  // ---------------------------------------------------------------------------
  // How they fit together.

  /** A payload built by the generator passes the validator exactly when both
      ids are positive, that is exactly when the generator does not raise. */
  lemma PayloadValidatesIffGenerated(userId: int, eventId: int)
    ensures ValidateRsvpQrData(JObject(Payload(userId, eventId))) <==> GenerateRsvpQr(userId, eventId).Success?
  {
    var d := Payload(userId, eventId);
    assert d["user_id"] == JInt(userId) && d["event_id"] == JInt(eventId);
    assert d["type"] == JStr(CheckinType);
  }

  /** Scanning a generated code gives back its payload, provided `json.loads`
      parses the compact text of the payload into that dictionary. */
  lemma DecodeGenerated(userId: int, eventId: int, loads: string -> Option<Json>)
    requires GenerateRsvpQr(userId, eventId).Success?
    requires loads(GenerateRsvpQr(userId, eventId).value.text) == Some(JObject(Payload(userId, eventId)))
    ensures DecodeQrData(GenerateRsvpQr(userId, eventId).value.text, loads) == Payload(userId, eventId)
    ensures ValidateRsvpQrData(JObject(DecodeQrData(GenerateRsvpQr(userId, eventId).value.text, loads)))
  {
    assert "type" in Payload(userId, eventId);
    PayloadValidatesIffGenerated(userId, eventId);
  }

  /** The validator takes JSON `true` as the id 1, since `bool` is an `int`. */
  lemma BooleanIdsAccepted()
    ensures ValidateRsvpQrData(JObject(map["user_id" := JBool(true), "event_id" := JBool(true), "type" := JStr(CheckinType)]))
    ensures !ValidateRsvpQrData(JObject(map["user_id" := JBool(false), "event_id" := JInt(1), "type" := JStr(CheckinType)]))
  {
  }

  /** Decoding never yields a dictionary without "type", and anything the
      validator accepts was a decodable dictionary. */
  lemma ValidatedDecodeIsParsedObject(raw: string, loads: string -> Option<Json>)
    requires ValidateRsvpQrData(JObject(DecodeQrData(raw, loads)))
    ensures raw != "" && loads(raw) == Some(JObject(DecodeQrData(raw, loads)))
  {
  }
}
