/**
 The decision `addServer` takes once the registration service has answered:
 the HTTP status and the response body decide between success, "already
 imported" and "failed with code N". Building and sending the request and
 reading the body are I/O and stay outside the model; an error from any of
 them reaches the caller unchanged and is represented by Transport.
 */
module Registration {
  import opened Text

  /** http.StatusCreated */
  const StatusCreated: int := 201
  /** http.StatusBadRequest */
  const StatusBadRequest: int := 400
  /** The phrase the service puts in the body of a 400 for a known proxy. */
  const AlreadyImportedMarker: string := "This proxy was already imported"

  /** The errors `addServer` returns. */
  datatype AddError =
    | AlreadyImported
    | RequestFailed(code: int)
    | Transport(message: string)

  /** A nil error is Added. */
  datatype AddOutcome = Added | Failed(err: AddError)

  predicate OccursAt(hay: string, needle: string, k: int) {
    0 <= k && k + |needle| <= |hay| && hay[k..k + |needle|] == needle
  }

  /** `bytes.Contains`: needle occurs somewhere in hay. */
  predicate Contains(hay: string, needle: string) {
    exists k :: 0 <= k <= |hay| - |needle| && OccursAt(hay, needle, k)
  }

  /** The outcome for a response with the given status and body. */
  function Classify(status: int, body: string): (r: AddOutcome)
    ensures r == Added <==> status == StatusCreated
    ensures r == Failed(AlreadyImported) <==>
      status == StatusBadRequest && Contains(body, AlreadyImportedMarker)
    ensures r == Failed(RequestFailed(status)) <==>
      status != StatusCreated && !(status == StatusBadRequest && Contains(body, AlreadyImportedMarker))
    ensures r.Failed? ==> r.err.AlreadyImported? || r.err == RequestFailed(status)
  {
    if status == StatusBadRequest && Contains(body, AlreadyImportedMarker) then
      Failed(AlreadyImported)
    else if status != StatusCreated then
      Failed(RequestFailed(status))
    else
      Added
  }

  /** The body is read only to tell an already imported proxy from other 400s. */
  lemma BodyMattersOnlyForBadRequest(status: int, body1: string, body2: string)
    requires status != StatusBadRequest
    ensures Classify(status, body1) == Classify(status, body2)
    ensures Classify(status, body1).Failed? ==> Classify(status, body1).err == RequestFailed(status)
  {
  }

  // ---------------------------------------------------------------------------
  // Error texts, as `%v` prints them.

  const RequestFailedPrefix: string := "request failed with code "

  function ErrorText(e: AddError): string {
    match e
    case AlreadyImported => "proxy already imported"
    case RequestFailed(code) => RequestFailedPrefix + IntToDecimal(code)
    case Transport(message) => message
  }

  function DigitChar(d: int): (c: char)
    requires 0 <= d < 10
    ensures IsDigit(c) && c as int - '0' as int == d
  {
    ('0' as int + d) as char
  }

  /** Decimal digits of n, most significant first, without leading zeros. */
  function NatToDecimal(n: nat): (r: string)
    ensures |r| > 0 && AllDigits(r, 0, |r|)
    ensures r[0] == '0' ==> n == 0
    decreases n
  {
    if n < 10 then [DigitChar(n)] else NatToDecimal(n / 10) + [DigitChar(n % 10)]
  }

  /** `%d` of an int. */
  function IntToDecimal(n: int): string {
    if n < 0 then "-" + NatToDecimal(-n) else NatToDecimal(n)
  }

  /** The value of a string of decimal digits. */
  function DecimalValue(r: string): nat
    requires AllDigits(r, 0, |r|)
    decreases |r|
  {
    if r == [] then 0
    else DecimalValue(r[..|r| - 1]) * 10 + (r[|r| - 1] as int - '0' as int)
  }

  /** Digits, optionally after a minus sign. */
  predicate IsDecimalText(r: string) {
    (|r| > 0 && r[0] == '-' && AllDigits(r[1..], 0, |r| - 1)) || AllDigits(r, 0, |r|)
  }

  /** Reads back what IntToDecimal writes. */
  function ParseDecimal(r: string): int
    requires IsDecimalText(r)
  {
    if |r| > 0 && r[0] == '-' then 0 - DecimalValue(r[1..]) else DecimalValue(r)
  }

  lemma {:induction false} NatToDecimalRoundTrip(n: nat)
    ensures DecimalValue(NatToDecimal(n)) == n
    decreases n
  {
    if n >= 10 {
      NatToDecimalRoundTrip(n / 10);
      var r := NatToDecimal(n);
      assert r[..|r| - 1] == NatToDecimal(n / 10);
    }
  }

  lemma IntToDecimalRoundTrip(n: int)
    ensures IsDecimalText(IntToDecimal(n)) && ParseDecimal(IntToDecimal(n)) == n
  {
    var r := IntToDecimal(n);
    if n < 0 {
      NatToDecimalRoundTrip(-n);
      assert r[1..] == NatToDecimal(-n);
    } else {
      NatToDecimalRoundTrip(n);
    }
  }

  /**
   The message for a rejected request carries the status code, which can be
   read back from it; it is never the "already imported" message.
   */
  lemma RequestFailedTextCarriesStatus(status: int)
    ensures var t := ErrorText(RequestFailed(status));
      |t| > |RequestFailedPrefix| && t[..|RequestFailedPrefix|] == RequestFailedPrefix &&
      var digits := t[|RequestFailedPrefix|..];
      IsDecimalText(digits) && ParseDecimal(digits) == status
    ensures ErrorText(RequestFailed(status)) != ErrorText(AlreadyImported)
  {
    var t := ErrorText(RequestFailed(status));
    IntToDecimalRoundTrip(status);
    assert t[|RequestFailedPrefix|..] == IntToDecimal(status);
    assert t[0] != ErrorText(AlreadyImported)[0];
  }

  /** Only a transport error can bring a line feed into the reply. */
  lemma ServiceErrorTextsAreOneLine(e: AddError)
    requires !e.Transport?
    ensures NoNewline(ErrorText(e), 0, |ErrorText(e)|)
  {
    if e.RequestFailed? {
      var d := IntToDecimal(e.code);
      var t := ErrorText(e);
      forall k | 0 <= k < |t| ensures t[k] != '\n' {
        if k >= |RequestFailedPrefix| {
          assert t[k] == d[k - |RequestFailedPrefix|];
        }
      }
    }
  }
}
