/**
 * The event identifier of the game state contract: the player's 32 address
 * bytes as 64 lowercase hex characters (high nibble first), an underscore,
 * and the ledger timestamp in decimal. The decoders are the partners that
 * show the encoding loses nothing.
 */
module EventId {
  import opened Common

  // ---------------------------------------------------------------------
  // Hex
  // ---------------------------------------------------------------------

  /** One nibble as a lowercase hex digit: `'0' + n` below 10, `'a' + (n - 10)` from 10. */
  function HexDigit(n: nat): (c: char)
    requires n < 16
    ensures '0' <= c <= '9' || 'a' <= c <= 'f'
    ensures c <= '9' <==> n < 10
  {
    if n < 10 then ('0' as int + n) as char else ('a' as int + (n - 10)) as char
  }

  /** The value of a lowercase hex digit; none for any other character. */
  function HexValue(c: char): (r: Option<nat>)
    ensures r.Some? <==> '0' <= c <= '9' || 'a' <= c <= 'f'
    ensures r.Some? ==> r.value < 16
  {
    if '0' <= c <= '9' then Some(c as int - '0' as int)
    else if 'a' <= c <= 'f' then Some(c as int - 'a' as int + 10)
    else None
  }

  lemma HexDigitRoundTrip(n: nat)
    requires n < 16
    ensures HexValue(HexDigit(n)) == Some(n)
  {
  }

  /** One byte as two hex digits, high nibble (`b >> 4`) then low nibble (`b & 0xF`). */
  function HexByte(b: byte): string {
    [HexDigit(b as int / 16), HexDigit(b as int % 16)]
  }

  /** Bytes as hex, two characters per byte in order. */
  function Hex(bytes: seq<byte>): (s: string)
    ensures |s| == 2 * |bytes|
    ensures forall k :: 0 <= k < |s| ==> '0' <= s[k] <= '9' || 'a' <= s[k] <= 'f'
  {
    if |bytes| == 0 then [] else HexByte(bytes[0]) + Hex(bytes[1..])
  }

  /** Hex digit pairs back to bytes; none for an odd length or a non-hex character. */
  function DecodeHex(s: string): (r: Option<seq<byte>>)
    ensures r.Some? ==> 2 * |r.value| == |s|
    decreases |s|
  {
    if |s| == 0 then Some([])
    else if |s| == 1 then None
    else
      match (HexValue(s[0]), HexValue(s[1]))
      case (Some(hi), Some(lo)) =>
        (match DecodeHex(s[2..])
         case Some(rest) => Some([(hi * 16 + lo) as byte] + rest)
         case None => None)
      case _ => None
  }

  /** Decoding the hex of any byte string gives the byte string back. */
  lemma {:induction false} HexRoundTrip(bytes: seq<byte>)
    ensures DecodeHex(Hex(bytes)) == Some(bytes)
  {
    if |bytes| > 0 {
      var s := Hex(bytes);
      var b := bytes[0] as int;
      assert s[..2] == HexByte(bytes[0]);
      assert s[2..] == Hex(bytes[1..]);
      HexDigitRoundTrip(b / 16);
      HexDigitRoundTrip(b % 16);
      HexRoundTrip(bytes[1..]);
      assert (b / 16 * 16 + b % 16) as byte == bytes[0];
      assert [bytes[0]] + bytes[1..] == bytes;
    }
  }

  // ---------------------------------------------------------------------
  // Decimal
  // ---------------------------------------------------------------------

  function DigitChar(d: nat): (c: char)
    requires d < 10
    ensures '0' <= c <= '9'
  {
    ('0' as int + d) as char
  }

  predicate AllDigits(s: string) {
    forall k :: 0 <= k < |s| ==> '0' <= s[k] <= '9'
  }

  /**
   * `u64::to_string`: the decimal digits of `n` with no leading zero
   * (just `"0"` for zero).
   */
  function Decimal(n: nat): (s: string)
    ensures |s| >= 1 && AllDigits(s)
    ensures s[0] == '0' <==> n == 0
    ensures n == 0 ==> s == "0"
    decreases n
  {
    if n < 10 then [DigitChar(n)] else Decimal(n / 10) + [DigitChar(n % 10)]
  }

  /** The number a digit string denotes, most significant digit first. */
  function DigitsValue(s: string): nat
    requires AllDigits(s)
    decreases |s|
  {
    if |s| == 0 then 0
    else DigitsValue(s[..|s| - 1]) * 10 + (s[|s| - 1] as int - '0' as int)
  }

  lemma {:induction false} DecimalRoundTrip(n: nat)
    ensures DigitsValue(Decimal(n)) == n
    decreases n
  {
    if n >= 10 {
      var s := Decimal(n);
      DecimalRoundTrip(n / 10);
      assert s[..|s| - 1] == Decimal(n / 10);
    }
  }

  // ---------------------------------------------------------------------
  // Event ids
  // ---------------------------------------------------------------------

  /** The id `log_event` builds from the player's address bytes and the ledger time. */
  function MakeEventId(addr: Bytes32, timestamp: nat): (id: string)
    ensures |id| == 65 + |Decimal(timestamp)|
    ensures forall k :: 0 <= k < 64 ==> '0' <= id[k] <= '9' || 'a' <= id[k] <= 'f'
    ensures id[64] == '_'
    ensures AllDigits(id[65..])
  {
    var id := Hex(addr) + "_" + Decimal(timestamp);
    assert id[65..] == Decimal(timestamp);
    id
  }

  /** Reads an event id back into address bytes and timestamp. */
  function ParseEventId(id: string): Option<(seq<byte>, nat)> {
    if |id| < 66 || id[64] != '_' || !AllDigits(id[65..]) then None
    else
      match DecodeHex(id[..64])
      case Some(bytes) => Some((bytes, DigitsValue(id[65..])))
      case None => None
  }

  /**
   * Event ids lose nothing: the address bytes and the timestamp can be read
   * back from the id, so ids built from different address bytes or
   * different times differ.
   */
  lemma EventIdRoundTrip(addr: Bytes32, timestamp: nat)
    ensures ParseEventId(MakeEventId(addr, timestamp)) == Some((addr, timestamp))
  {
    var id := MakeEventId(addr, timestamp);
    assert id[..64] == Hex(addr);
    assert id[65..] == Decimal(timestamp);
    HexRoundTrip(addr);
    DecimalRoundTrip(timestamp);
  }

  lemma EventIdInjective(a1: Bytes32, t1: nat, a2: Bytes32, t2: nat)
    requires MakeEventId(a1, t1) == MakeEventId(a2, t2)
    ensures a1 == a2 && t1 == t2
  {
    EventIdRoundTrip(a1, t1);
    EventIdRoundTrip(a2, t2);
  }
}
