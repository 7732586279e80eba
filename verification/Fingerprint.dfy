/** internal/tls/fingerprint.go: the browser profiles and the GREASE table (section 2 of RFC 8701). */
module Fingerprint {
  import opened Bytes

  const GREASE_VALUES: seq<u16> := [
    0x0A0A, 0x1A1A, 0x2A2A, 0x3A3A, 0x4A4A, 0x5A5A, 0x6A6A, 0x7A7A,
    0x8A8A, 0x9A9A, 0xAAAA, 0xBABA, 0xCACA, 0xDADA, 0xEAEA, 0xFAFA]

  /** isGREASE: both bytes are equal and end in the nibble 0xA. */
  predicate IsGrease(v: u16)
  {
    v / 0x100 % 0x10 == 0xA && v % 0x10 == 0xA && v / 0x100 == v % 0x100
  }

  /** The masks and shifts of the source are that test, on every 16-bit pattern. */
  lemma MaskTestIsNibbleTest(w: bv16)
    ensures (w & 0x0F0F == 0x0A0A && w >> 8 == w & 0xFF)
            <==> (w / 0x100 % 0x10 == 0xA && w % 0x10 == 0xA && w / 0x100 == w % 0x100)
  {
  }

  lemma GreaseForm(k: nat)
    requires k < 0x10
    ensures |GREASE_VALUES| == 0x10 && GREASE_VALUES[k] == 0x1010 * k + 0x0A0A && IsGrease(GREASE_VALUES[k])
  {
    assert GREASE_VALUES[k] == 0x1010 * k + 0x0A0A;
    var b := 0x10 * k + 0xA;
    assert GREASE_VALUES[k] / 0x100 == b && GREASE_VALUES[k] % 0x100 == b;
  }

  /** The test holds exactly on the sixteen values of the table. */
  lemma GreaseIsTable(v: u16)
    ensures IsGrease(v) <==> v in GREASE_VALUES
  {
    if IsGrease(v) {
      var b := v / 0x100;
      var k := b / 0x10;
      assert b == 0x10 * k + 0xA && v == 0x100 * b + b;
      GreaseForm(k);
    } else {
      hide IsGrease;
      if v in GREASE_VALUES {
        var k :| 0 <= k < |GREASE_VALUES| && GREASE_VALUES[k] == v;
        GreaseForm(k);
      }
    }
  }

  datatype Profile = Profile(cipherSuites: seq<u16>, groups: seq<u16>, sigAlgs: seq<u16>, alpn: seq<bytes>,
                             versions: seq<u16>, pskModes: bytes, compressCert: Option<bytes>, useGrease: bool,
                             order: seq<u16>)

  const SNI: u16 := 0x0000
  const STATUS_REQUEST: u16 := 0x0005
  const SUPPORTED_GROUPS: u16 := 0x000A
  const EC_POINT_FORMATS: u16 := 0x000B
  const SIG_ALGS: u16 := 0x000D
  const ALPN: u16 := 0x0010
  const SIGNED_CERT_TS: u16 := 0x0012
  const PADDING: u16 := 0x0015
  const EXTENDED_MASTER_SEC: u16 := 0x0017
  const COMPRESS_CERT: u16 := 0x001B
  const SESSION_TICKET: u16 := 0x0023
  const SUPPORTED_VERSIONS: u16 := 0x002B
  const PSK_KEY_EXCH_MODES: u16 := 0x002D
  const KEY_SHARE: u16 := 0x0033
  const RENEGOTIATION_INFO: u16 := 0xFF01

  // "h2" and "http/1.1"
  const WEB_PROTOCOLS: seq<bytes> := [[104, 50], [104, 116, 116, 112, 47, 49, 46, 49]]

  const CHROME_CIPHERS: seq<u16> := [
    0x1301, 0x1302, 0x1303, 0xC02B, 0xC02F, 0xC02C, 0xC030, 0xCCA9, 0xCCA8, 0xC013, 0xC014,
    0x009C, 0x009D, 0x002F, 0x0035]

  const CHROME_SIG_ALGS: seq<u16> := [
    0x0403, 0x0804, 0x0401, 0x0503, 0x0805, 0x0501, 0x0806, 0x0601, 0x0201]

  const CHROME124 := Profile(
    CHROME_CIPHERS, [0x001D, 0x0017, 0x0018, 0x0019], CHROME_SIG_ALGS,
    WEB_PROTOCOLS, [0x0304, 0x0303], [0x01], Some([0x00, 0x02, 0x00, 0x02]), true,
    [SNI, EXTENDED_MASTER_SEC, RENEGOTIATION_INFO, SUPPORTED_GROUPS, EC_POINT_FORMATS, SESSION_TICKET, ALPN,
     STATUS_REQUEST, SIGNED_CERT_TS, KEY_SHARE, SUPPORTED_VERSIONS, COMPRESS_CERT, PSK_KEY_EXCH_MODES, PADDING])

  const FIREFOX125 := Profile(
    [0x1301, 0x1303, 0x1302, 0xC02B, 0xC02F, 0xCCA9, 0xCCA8, 0xC02C, 0xC030, 0xC00A, 0xC009, 0xC013, 0xC014,
     0x0033, 0x0039, 0x002F, 0x0035],
    [0x001D, 0x0017, 0x0018, 0x0019],
    [0x0403, 0x0503, 0x0603, 0x0804, 0x0805, 0x0806, 0x0401, 0x0501, 0x0601, 0x0203, 0x0201, 0x0303, 0x0301],
    WEB_PROTOCOLS, [0x0304, 0x0303], [0x01], None, false,
    [SNI, EXTENDED_MASTER_SEC, SUPPORTED_GROUPS, EC_POINT_FORMATS, SESSION_TICKET, STATUS_REQUEST, ALPN, SIG_ALGS,
     KEY_SHARE, SUPPORTED_VERSIONS, PSK_KEY_EXCH_MODES, PADDING])

  const SAFARI17 := Profile(
    [0xC02C, 0xC02B, 0xC030, 0xC02F, 0x1302, 0x1303, 0x1301, 0xCCA9, 0xCCA8, 0xC014, 0xC013, 0x009D, 0x009C,
     0x0035, 0x002F],
    [0x001D, 0x0017, 0x0018],
    [0x0403, 0x0804, 0x0401, 0x0503, 0x0805, 0x0501, 0x0806, 0x0601],
    WEB_PROTOCOLS, [0x0304, 0x0303], [0x01], None, false,
    [SNI, EXTENDED_MASTER_SEC, SUPPORTED_GROUPS, EC_POINT_FORMATS, SESSION_TICKET, ALPN, STATUS_REQUEST, SIG_ALGS,
     KEY_SHARE, SUPPORTED_VERSIONS, PSK_KEY_EXCH_MODES, PADDING])

  const EDGE124 := CHROME124.(groups := [0x001D, 0x0017, 0x0018, 0x0019, 0x0100])

  const CHROME120 := CHROME124.(
    groups := [0x001D, 0x0017, 0x0018], compressCert := None,
    order := [SNI, EXTENDED_MASTER_SEC, RENEGOTIATION_INFO, SUPPORTED_GROUPS, EC_POINT_FORMATS, SESSION_TICKET, ALPN,
              STATUS_REQUEST, SIGNED_CERT_TS, KEY_SHARE, SUPPORTED_VERSIONS, PSK_KEY_EXCH_MODES, PADDING])

  /** GetProfile; `pick` is the random index into the list of all five profiles. */
  function GetProfile(name: string, pick: nat): Profile
    requires pick < 5
  {
    if name == "random" || name == "" then [CHROME124, FIREFOX125, SAFARI17, EDGE124, CHROME120][pick]
    else if name == "chrome" then CHROME124
    else if name == "firefox" then FIREFOX125
    else if name == "safari" then SAFARI17
    else if name == "edge" then EDGE124
    else CHROME124
  }
}
