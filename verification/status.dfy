/** Translation of a transport error into the driver's message:
    `getIOTAStatusMessage` and the catch block of `_sendCommand`. */
module Status {

  import opened Wrappers

  /** A transport-level error: its `id`, its `statusCode` (0 when it has none)
      and the transport's own `message`. */
  datatype TransportError = TransportError(id: string, statusCode: nat, message: string)

  const TIMEOUT_ID: string := "U2F_5"
  const TIMEOUT_MESSAGE: string :=
    "Ledger device timeout. Ensure Ledger is plugged in and IOTA app is running"
  const DEVICE_PREFIX: string := "Ledger device: "

  /** The status words the IOTA app answers with. */
  const KNOWN_STATUS_WORDS: set<int> := {
    0x9000, 0x6700, 0x6982, 0x6c00, 0x6d00, 0x6e00, 0x6984, 0x6985, 0x6986, 0x6987,
    0x6991, 0x6992, 0x6993, 0x6994, 0x69a1, 0x69a2, 0x69a3, 0x69a4, 0x69a5 }

  /** The fixed message of a known status word. */
  function StatusText(code: int): Option<string>
  {
    match code
    case 0x9000 => Some("Success")
    case 0x6700 => Some("Incorrect input length")
    case 0x6982 => Some("Security not satisfied (Denied by user)")
    case 0x6c00 => Some("Incorrect length specified in header")
    case 0x6d00 => Some("Invalid INS command")
    case 0x6e00 => Some("Incorrect CLA (Wrong application opened)")
    case 0x6984 => Some("Invalid input data")
    case 0x6985 => Some("Invalid ledger state (Command out of order(?))")
    case 0x6986 => Some("App has not been initialized by user")
    case 0x6987 => Some("Invalid seed")
    case 0x6991 => Some("Invalid transaction index")
    case 0x6992 => Some("Invalid transaction order (Output, Inputs, Change)")
    case 0x6993 => Some("Invalid meta transaction")
    case 0x6994 => Some("Invalid output transaction (Output must come first)")
    case 0x69a1 => Some("Insecure hash")
    case 0x69a2 => Some("Non zero balance")
    case 0x69a3 => Some("Invalid meta transaction")
    case 0x69a4 => Some("Invalid input address/index pair(s)")
    case 0x69a5 => Some("Address reused")
    case _ => None
  }

  /** `getIOTAStatusMessage(error)`. */
  function StatusMessage(e: TransportError): string
  {
    if e.id == TIMEOUT_ID then TIMEOUT_MESSAGE
    else match StatusText(e.statusCode)
      case Some(m) => m
      case None => e.message
  }

  lemma TimeoutWinsOverStatusCode(e: TransportError, code: nat)
    requires e.id == TIMEOUT_ID
    ensures StatusMessage(e) == StatusMessage(e.(statusCode := code)) == TIMEOUT_MESSAGE
  {
  }

  /** A status word has a fixed message exactly when it is one of the app's
      known words; every other word falls back to the transport's message. */
  lemma StatusTextDefinedExactlyOnKnownWords(code: int)
    ensures StatusText(code).Some? <==> code in KNOWN_STATUS_WORDS
  {
  }

  lemma UnknownWordKeepsTransportMessage(e: TransportError)
    requires e.id != TIMEOUT_ID && e.statusCode !in KNOWN_STATUS_WORDS
    ensures StatusMessage(e) == e.message
  {
  }

  lemma KnownWordIgnoresTransportMessage(e: TransportError, other: string)
    requires e.id != TIMEOUT_ID && e.statusCode in KNOWN_STATUS_WORDS
    ensures StatusMessage(e) == StatusMessage(e.(message := other))
    ensures StatusMessage(e) == StatusText(e.statusCode).value
  {
  }

  // ---- Number.prototype.toString(16) ----

  const HEX_DIGITS: string := "0123456789abcdef"

  function HexDigit(d: nat): char
    requires d < 16
  {
    HEX_DIGITS[d]
  }

  function HexValue(c: char): nat
  {
    if '0' <= c <= '9' then c as int - '0' as int
    else if 'a' <= c <= 'f' then c as int - 'a' as int + 10
    else 0
  }

  /** Lower-case hexadecimal without leading zeros. */
  function Hex(n: nat): (s: string)
    ensures 1 <= |s|
    decreases n
  {
    if n < 16 then [HexDigit(n)] else Hex(n / 16) + [HexDigit(n % 16)]
  }

  function ParseHex(s: string): nat
  {
    if s == [] then 0 else 16 * ParseHex(s[..|s| - 1]) + HexValue(s[|s| - 1])
  }

  lemma {:induction false} HexRoundTrip(n: nat)
    ensures ParseHex(Hex(n)) == n
    decreases n
  {
    if n >= 16 {
      HexRoundTrip(n / 16);
      HexDigitValue(n % 16);
      var s := Hex(n);
      assert s[..|s| - 1] == Hex(n / 16);
      assert ParseHex(s) == 16 * (n / 16) + n % 16;
    } else {
      HexDigitValue(n);
      assert Hex(n)[..0] == [];
    }
  }

  lemma HexDigitValue(d: nat)
    requires d < 16
    ensures HexValue(HexDigit(d)) == d
  {
  }

  /** Every character is a lower-case hexadecimal digit, and there is no
      leading zero. */
  lemma {:induction false} HexDigitsOnly(n: nat)
    ensures forall k :: 0 <= k < |Hex(n)| ==> Hex(n)[k] in HEX_DIGITS
    ensures n > 0 ==> Hex(n)[0] != '0'
    decreases n
  {
    if n >= 16 {
      HexDigitsOnly(n / 16);
      var s := Hex(n);
      forall k | 0 <= k < |s| ensures s[k] in HEX_DIGITS {
        if k < |s| - 1 {
          assert s[k] == Hex(n / 16)[k];
        }
      }
    }
  }

  /** The message `_sendCommand` puts on a transport error before re-throwing it. */
  function DeviceErrorMessage(e: TransportError): string
  {
    var base := DEVICE_PREFIX + StatusMessage(e);
    if e.statusCode != 0 then base + " (0x" + Hex(e.statusCode) + ")" else base
  }

  /** The decorated message starts with the prefix and the translated text; the
      rest is empty exactly when there is no status code, and otherwise is a
      parenthesised hexadecimal number that reads back as the status code. */
  lemma DeviceErrorMessageCarriesStatusCode(e: TransportError)
    ensures var m := DeviceErrorMessage(e);
      var head := |DEVICE_PREFIX| + |StatusMessage(e)|;
      head <= |m|
      && m[..|DEVICE_PREFIX|] == DEVICE_PREFIX
      && m[|DEVICE_PREFIX|..head] == StatusMessage(e)
      && (e.statusCode == 0 <==> |m| == head)
      && (e.statusCode != 0 ==>
            |m| >= head + 5 && m[head..head + 4] == " (0x" && m[|m| - 1] == ')'
            && ParseHex(m[head + 4..|m| - 1]) == e.statusCode)
  {
    var m := DeviceErrorMessage(e);
    var head := |DEVICE_PREFIX| + |StatusMessage(e)|;
    if e.statusCode != 0 {
      HexRoundTrip(e.statusCode);
      assert m[head + 4..|m| - 1] == Hex(e.statusCode);
    }
  }
}
