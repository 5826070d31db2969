/** The client's shared helpers: the validators of the mode options, the
    option-string to mode mappings of the mount, attach and arbitrate
    commands, the size humaniser used by the lister and the widening of a
    byte string into a wide string. */
module Common {
  import opened Strings
  import opened DiskTypes

  // ---------------------------------------------------------------------------
  // Mode validators (common.cpp) and their use by the commands

  /** validateMountMode: the mode names the mount and attach commands accept. */
  predicate ValidateMountMode(mode: string) {
    mode == "ro" || mode == "rw" || mode == "nomount"
  }

  /** validateArbitrationMode: the mode names the arbitrate command accepts. */
  predicate ValidateArbitrationMode(mode: string) {
    mode == "block" || mode == "ro" || mode == "off"
  }

  /** The three accepted mount mode names and nothing else. */
  lemma MountModeAccepts(mode: string)
    ensures ValidateMountMode(mode) <==> mode in ["ro", "rw", "nomount"]
  {
  }

  /** The three accepted arbitration mode names and nothing else. */
  lemma ArbitrationModeAccepts(mode: string)
    ensures ValidateArbitrationMode(mode) <==> mode in ["block", "ro", "off"]
  {
  }

  /** The mount command: read-only unless "rw" was asked for. */
  function MountCommandMode(modeStr: string): (m: MountMode)
    ensures m == MountRdwr <==> modeStr == "rw"
    ensures m != MountNone
  {
    if modeStr == "rw" then MountRdwr else MountRdonly
  }

  /** The attach command: no mount unless "ro" or "rw" was asked for. */
  function AttachCommandMode(modeStr: string): (m: MountMode)
    ensures m == MountRdonly <==> modeStr == "ro"
    ensures m == MountRdwr <==> modeStr == "rw"
  {
    if modeStr == "ro" then MountRdonly
    else if modeStr == "rw" then MountRdwr
    else MountNone
  }

  /** The arbitrate command: blocking unless "ro" or "off" was asked for. */
  function ArbitrateCommandMode(modeStr: string): (m: ArbitrationMode)
    ensures m == ArbitratorRdonly <==> modeStr == "ro"
    ensures m == ArbitratorNone <==> modeStr == "off"
  {
    if modeStr == "ro" then ArbitratorRdonly
    else if modeStr == "off" then ArbitratorNone
    else ArbitratorBlock
  }

  /** The name of each arbitration mode on the command line. */
  function ArbitrationModeName(m: ArbitrationMode): (s: string)
    ensures ValidateArbitrationMode(s)
  {
    match m
    case ArbitratorBlock => "block"
    case ArbitratorRdonly => "ro"
    case ArbitratorNone => "off"
  }

  /** On validated input the arbitrate command's mapping is a bijection:
      every mode is reachable, from exactly one accepted name. */
  lemma ArbitrateModeBijective(modeStr: string, m: ArbitrationMode)
    requires ValidateArbitrationMode(modeStr)
    ensures ArbitrateCommandMode(modeStr) == m <==> modeStr == ArbitrationModeName(m)
  {
  }

  /** On validated input the attach command's mapping is a bijection between
      {"nomount", "ro", "rw"} and the three mount modes. */
  lemma AttachModeBijective(modeStr: string, other: string)
    requires ValidateMountMode(modeStr) && ValidateMountMode(other)
    ensures AttachCommandMode(modeStr) == AttachCommandMode(other) <==> modeStr == other
    ensures AttachCommandMode(modeStr) == MountNone <==> modeStr == "nomount"
  {
  }

  /** The mount command accepts "nomount" but mounts read-only for it, the
      same as for "ro". */
  lemma MountCommandNoMountIsReadOnly()
    ensures ValidateMountMode("nomount")
    ensures MountCommandMode("nomount") == MountCommandMode("ro") == MountRdonly
  {
  }

  // ---------------------------------------------------------------------------
  // sizeToHuman (common.cpp)

  const UINT64_LIMIT: nat := 0x1_0000_0000_0000_0000

  /** A size in bytes as the lister shows it: whole decimal units, truncated,
      with the suffix of the largest unit (K, M, G, T = 10^3 .. 10^12, no
      larger unit) that does not exceed the size, or the bare number below
      1000. The comparisons against 1e3 .. 1e12 are exact: each bound is below
      2^53, so no uint64 below it is rounded when it is compared as a double. */
  function SizeToHuman(size: nat): (r: string)
    requires size < UINT64_LIMIT
    ensures |r| >= 1
  {
    if 1000 <= size < 1000000 then NatToString(size / 1000) + "K"
    else if 1000000 <= size < 1000000000 then NatToString(size / 1000000) + "M"
    else if 1000000000 <= size < 1000000000000 then NatToString(size / 1000000000) + "G"
    else if size >= 1000000000000 then NatToString(size / 1000000000000) + "T"
    else NatToString(size)
  }

  /** The unit a humanised size's last character stands for. */
  function SuffixScale(c: char): (k: nat)
    ensures k >= 1
  {
    match c
    case 'K' => 1000
    case 'M' => 1000000
    case 'G' => 1000000000
    case 'T' => 1000000000000
    case _ => 1
  }

  /** The numeral of a humanised size: everything but a trailing unit letter. */
  function Numeral(r: string): string {
    if |r| > 0 && !IsDigit(r[|r| - 1]) then r[..|r| - 1] else r
  }

  /** The unit of a humanised size (1 when there is no suffix). */
  function Scale(r: string): nat {
    if |r| > 0 then SuffixScale(r[|r| - 1]) else 1
  }

  lemma NumeralOfSuffixed(n: nat, suffix: char)
    requires !IsDigit(suffix)
    ensures Numeral(NatToString(n) + [suffix]) == NatToString(n)
    ensures Scale(NatToString(n) + [suffix]) == SuffixScale(suffix)
    ensures ParseDecimal(NatToString(n)) == n
  {
    var r := NatToString(n) + [suffix];
    assert r[..|r| - 1] == NatToString(n);
    NatToStringRoundTrip(n);
  }

  /** How a humanised size r reads back against the size it came from: its
      numeral n and unit k bracket the size, n * k <= size < (n + 1) * k, so
      the printed value is the size truncated to whole units. A suffix is used
      exactly from 1000 on; with one of K, M and G the numeral lies in 1..999,
      and with T it is at least 1 and grows without bound. */
  predicate ReadsBack(size: nat, r: string) {
    (forall i :: 0 <= i < |Numeral(r)| ==> IsDigit(Numeral(r)[i])) &&
    var n := ParseDecimal(Numeral(r));
    var k := Scale(r);
    n * k <= size < (n + 1) * k &&
    (k == 1 <==> size < 1000) &&
    (k == 1 ==> r == Numeral(r)) &&
    (1 < k < 1000000000000 ==> 1 <= n <= 999) &&
    (k == 1000000000000 ==> 1 <= n && size >= 1000000000000)
  }

  /** One suffixed band of sizeToHuman: numeral n in unit k. */
  lemma SuffixedReadsBack(size: nat, n: nat, unit: nat, suffix: char)
    requires unit == SuffixScale(suffix) && !IsDigit(suffix) && unit > 1
    requires n * unit <= size < (n + 1) * unit && 1 <= n
    requires unit < 1000000000000 ==> n <= 999
    requires unit == 1000000000000 ==> size >= 1000000000000
    ensures ReadsBack(size, NatToString(n) + [suffix])
  {
    NumeralOfSuffixed(n, suffix);
  }

  /** sizeToHuman reads back to the size it was given. */
  lemma SizeToHumanReadsBack(size: nat)
    requires size < UINT64_LIMIT
    ensures ReadsBack(size, SizeToHuman(size))
  {
    if 1000 <= size < 1000000 {
      SuffixedReadsBack(size, size / 1000, 1000, 'K');
    } else if 1000000 <= size < 1000000000 {
      SuffixedReadsBack(size, size / 1000000, 1000000, 'M');
    } else if 1000000000 <= size < 1000000000000 {
      SuffixedReadsBack(size, size / 1000000000, 1000000000, 'G');
    } else if size >= 1000000000000 {
      SuffixedReadsBack(size, size / 1000000000000, 1000000000000, 'T');
    } else {
      var r := SizeToHuman(size);
      NatToStringRoundTrip(size);
      assert IsDigit(r[|r| - 1]);
    }
  }

  /** A larger size never gets a smaller unit. */
  lemma SizeToHumanMonotoneUnit(a: nat, b: nat)
    requires a <= b < UINT64_LIMIT
    ensures Scale(SizeToHuman(a)) <= Scale(SizeToHuman(b))
  {
    SizeToHumanReadsBack(a);
    SizeToHumanReadsBack(b);
  }

  // ---------------------------------------------------------------------------
  // strToWstr (common.cpp)

  /** A wide string: wchar_t is a 32-bit signed integer on the target. */
  type WString = seq<int>

  /** std::string holds bytes. */
  predicate IsByteString(s: string) {
    forall i :: 0 <= i < |s| ==> s[i] as int < 256
  }

  /** A char converted to wchar_t: char is signed on the target, so a byte of
      128 or more sign-extends to a negative value. */
  function WidenChar(c: char): (w: int)
    requires c as int < 256
    ensures -128 <= w < 128
    ensures c as int < 128 ==> w == c as int
    ensures c as int >= 128 ==> w < 0
  {
    if c as int >= 128 then c as int - 256 else c as int
  }

  /** The byte a wide character of -128..127 came from. */
  function NarrowChar(w: int): (c: char)
    requires -128 <= w < 128
  {
    if w < 0 then (w + 256) as char else w as char
  }

  /** strToWstr: the wide string built from the byte range, one wide
      character per byte. */
  function StrToWstr(s: string): (r: WString)
    requires IsByteString(s)
    ensures |r| == |s|
    ensures forall i :: 0 <= i < |s| ==> -128 <= r[i] < 128
  {
    if s == [] then [] else [WidenChar(s[0])] + StrToWstr(s[1..])
  }

  /** The bytes a wide string of -128..127 values came from. */
  function WstrToStr(w: WString): (s: string)
    requires forall i :: 0 <= i < |w| ==> -128 <= w[i] < 128
    ensures |s| == |w|
  {
    if w == [] then [] else [NarrowChar(w[0])] + WstrToStr(w[1..])
  }

  /** strToWstr keeps each character in place: position i of the wide string
      is the widened byte i. */
  lemma {:induction false} StrToWstrAt(s: string, i: nat)
    requires IsByteString(s) && i < |s|
    ensures StrToWstr(s)[i] == WidenChar(s[i])
    decreases i
  {
    if i > 0 {
      StrToWstrAt(s[1..], i - 1);
    }
  }

  /** strToWstr loses nothing: the bytes can be recovered from it. */
  lemma {:induction false} StrToWstrRoundTrip(s: string)
    requires IsByteString(s)
    ensures WstrToStr(StrToWstr(s)) == s
  {
    if s != [] {
      StrToWstrRoundTrip(s[1..]);
    }
  }

  /** An ASCII string widens to the same code points. */
  lemma StrToWstrAscii(s: string, i: nat)
    requires forall j :: 0 <= j < |s| ==> s[j] as int < 128
    requires i < |s|
    ensures StrToWstr(s)[i] == s[i] as int
  {
    StrToWstrAt(s, i);
  }
}
