/** cftypes.cpp: the hex rendering of CFData, the GUID dash layout and the
    conversion of a CoreFoundation reference-date interval to Unix time. */
module CFTypes {
  import opened Wrappers

  newtype byte = x: int | 0 <= x < 256

  /** Seconds from the Unix epoch to the CoreFoundation reference date
      (2001-01-01 00:00:00 UTC). */
  const NUM_SECONDS_REF_TIME_FROM_EPOCH: nat := 978307200
  const UINT64_MODULUS: nat := 0x1_0000_0000_0000_0000

  // ---------------------------------------------------------------------------
  // CFDataToStr

  /** The lowercase hexadecimal digit of a value below 16 (std::hex). */
  function HexDigit(n: nat): (c: char)
    requires n < 16
    ensures IsHexDigit(c)
  {
    if n < 10 then ('0' as int + n) as char else ('a' as int + n - 10) as char
  }

  predicate IsHexDigit(c: char) {
    '0' <= c <= '9' || 'a' <= c <= 'f'
  }

  function HexValue(c: char): nat
    requires IsHexDigit(c)
  {
    if c <= '9' then c as int - '0' as int else c as int - 'a' as int + 10
  }

  /** One byte as setw(2), setfill('0') and std::hex print it. */
  function HexByte(b: byte): string {
    [HexDigit(b as nat / 16), HexDigit(b as nat % 16)]
  }

  /** The rendering of a byte string: each byte, in order, as two digits. */
  function HexString(data: seq<byte>): (s: string)
    ensures |s| == 2 * |data|
    ensures forall i :: 0 <= i < |s| ==> IsHexDigit(s[i])
  {
    if data == [] then [] else HexByte(data[0]) + HexString(data[1..])
  }

  /** Reading the digit pairs back; None for a string that is not one. */
  function HexDecode(s: string): Option<seq<byte>>
    decreases |s|
  {
    if s == [] then Some([])
    else if |s| == 1 || !IsHexDigit(s[0]) || !IsHexDigit(s[1]) then None
    else match HexDecode(s[2..])
      case None => None
      case Some(rest) => Some([(HexValue(s[0]) * 16 + HexValue(s[1])) as byte] + rest)
  }

  /** Decoding the rendering gives back the bytes. */
  lemma {:induction false} HexRoundTrip(data: seq<byte>)
    ensures HexDecode(HexString(data)) == Some(data)
  {
    if data != [] {
      var s := HexString(data);
      assert s[2..] == HexString(data[1..]);
      HexRoundTrip(data[1..]);
      assert s[0] == HexDigit(data[0] as nat / 16) && s[1] == HexDigit(data[0] as nat % 16);
      assert data == [data[0]] + data[1..];
    }
  }

  /** The rendering is injective: distinct byte strings print differently. */
  lemma HexStringInjective(a: seq<byte>, b: seq<byte>)
    requires HexString(a) == HexString(b)
    ensures a == b
  {
    HexRoundTrip(a);
    HexRoundTrip(b);
  }

  /** CFDataToStr: the stringstream loop over the bytes. */
  method CFDataToStr(data: seq<byte>) returns (s: string)
    ensures s == HexString(data)
  {
    s := "";
    for i := 0 to |data|
      invariant s + HexString(data[i..]) == HexString(data)
    {
      assert data[i..][1..] == data[i + 1..];
      s := s + HexByte(data[i]);
    }
  }

  // ---------------------------------------------------------------------------
  // formatStringAsGUID

  /** std::string::substr: out_of_range (None) when pos is past the end;
      otherwise at most count characters. */
  function Substr(s: string, pos: nat, count: nat): Option<string> {
    if pos > |s| then None
    else Some(s[pos..if pos + count <= |s| then pos + count else |s|])
  }

  /** formatStringAsGUID: groups of 8, 4, 4, 4 and 12 characters joined by
      dashes; None stands for the out_of_range exception. */
  function FormatStringAsGUID(input: string): Option<string> {
    var g1 := Substr(input, 0, 8);
    var g2 := Substr(input, 8, 4);
    var g3 := Substr(input, 12, 4);
    var g4 := Substr(input, 16, 4);
    var g5 := Substr(input, 20, 12);
    if g1.None? || g2.None? || g3.None? || g4.None? || g5.None? then None
    else Some(g1.value + "-" + g2.value + "-" + g3.value + "-" + g4.value + "-" + g5.value)
  }

  /** The input with the four layout dashes cut out. */
  function CutDashes(g: string): string
    requires |g| >= 24
  {
    g[..8] + g[9..13] + g[14..18] + g[19..23] + g[24..]
  }

  /** formatStringAsGUID throws exactly on inputs shorter than 20 characters;
      otherwise it puts dashes at 8, 13, 18 and 23, and cutting them out gives
      back the input up to its 32nd character (the last group is shorter for
      20 to 31 characters and drops whatever follows the 32nd). */
  lemma GuidLayout(input: string)
    ensures FormatStringAsGUID(input).None? <==> |input| < 20
    ensures |input| >= 20 ==>
              var g := FormatStringAsGUID(input).value;
              var n := if |input| <= 32 then |input| else 32;
              && |g| == n + 4
              && g[8] == '-' && g[13] == '-' && g[18] == '-' && g[23] == '-'
              && CutDashes(g) == input[..n]
  {
    if |input| >= 20 {
      var n := if |input| <= 32 then |input| else 32;
      var g := FormatStringAsGUID(input).value;
      assert g == input[..8] + "-" + input[8..12] + "-" + input[12..16] + "-" + input[16..20] + "-" + input[20..n];
      assert CutDashes(g) == input[..8] + input[8..12] + input[12..16] + input[16..20] + input[20..n];
      assert input[..n] == input[..20] + input[20..n];
      assert input[..20] == input[..16] + input[16..20];
      assert input[..16] == input[..12] + input[12..16];
      assert input[..12] == input[..8] + input[8..12];
    }
  }

  /** The device GUID: a 16-byte value renders as the 36-character form, every
      character a lowercase hex digit except the four dashes. */
  lemma DeviceGuidForm(data: seq<byte>)
    requires |data| == 16
    ensures var g := FormatStringAsGUID(HexString(data));
      && g.Some? && |g.value| == 36
      && (forall i :: 0 <= i < 36 ==> (g.value[i] == '-' <==> i in {8, 13, 18, 23}))
      && CutDashes(g.value) == HexString(data)
  {
    var s := HexString(data);
    GuidLayout(s);
    var g := FormatStringAsGUID(s).value;
    assert g == s[..8] + "-" + s[8..12] + "-" + s[12..16] + "-" + s[16..20] + "-" + s[20..32];
    forall i | 0 <= i < 36
      ensures g[i] == '-' <==> i in {8, 13, 18, 23}
    {
      if i < 8 { assert g[i] == s[i]; }
      else if 8 < i < 13 { assert g[i] == s[i - 1]; }
      else if 13 < i < 18 { assert g[i] == s[i - 2]; }
      else if 18 < i < 23 { assert g[i] == s[i - 3]; }
      else if 23 < i { assert g[i] == s[i - 4]; }
    }
    assert s[..32] == s;
  }

  // ---------------------------------------------------------------------------
  // CFTimeIntervalToEpoch

  /** static_cast<uint64_t>(timeRef) + NUM_SECONDS_REF_TIME_FROM_EPOCH in
      unsigned 64-bit arithmetic. The cast truncates toward zero and is defined
      only for values that truncate into the uint64_t range. */
  function TimeIntervalToEpoch(timeRef: real): (t: nat)
    requires -1.0 < timeRef < UINT64_MODULUS as real
    ensures t < UINT64_MODULUS
  {
    var truncated := if timeRef >= 0.0 then timeRef.Floor else 0;
    (truncated + NUM_SECONDS_REF_TIME_FROM_EPOCH) % UINT64_MODULUS
  }

  /** Below the wrap-around the result is the whole seconds of the interval
      shifted by the reference date: it counts the seconds the interval
      completed, and a whole number of seconds converts exactly. */
  lemma TimeIntervalShift(timeRef: real)
    requires 0.0 <= timeRef < (UINT64_MODULUS - NUM_SECONDS_REF_TIME_FROM_EPOCH) as real
    ensures var t := TimeIntervalToEpoch(timeRef);
      && t >= NUM_SECONDS_REF_TIME_FROM_EPOCH
      && (t - NUM_SECONDS_REF_TIME_FROM_EPOCH) as real <= timeRef < (t - NUM_SECONDS_REF_TIME_FROM_EPOCH + 1) as real
      && (timeRef == timeRef.Floor as real ==> t as real == timeRef + NUM_SECONDS_REF_TIME_FROM_EPOCH as real)
  {
  }

  /** Above it, the sum wraps modulo 2^64. */
  lemma TimeIntervalWraps(timeRef: real)
    requires (UINT64_MODULUS - NUM_SECONDS_REF_TIME_FROM_EPOCH) as real <= timeRef < UINT64_MODULUS as real
    ensures TimeIntervalToEpoch(timeRef) == timeRef.Floor + NUM_SECONDS_REF_TIME_FROM_EPOCH - UINT64_MODULUS
  {
  }
}
