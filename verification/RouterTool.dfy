/** The operator's command line tool: text in, configuration messages out. Where the tool
    panics the model has `Err`. */
module RouterTool {
  import opened Wrappers
  import opened Words
  import opened MapCells
  import opened BpfActor

  // -------------------------------------------------- Splitting

  /** `str::split` on one character. */
  function Split(s: string, sep: char): (parts: seq<string>)
    ensures |parts| >= 1
  {
    if s == "" then [""]
    else
      var rest := Split(s[1..], sep);
      if s[0] == sep then [""] + rest else [[s[0]] + rest[0]] + rest[1..]
  }

  function Join(parts: seq<string>, sep: char): string
    requires |parts| >= 1
  {
    if |parts| == 1 then parts[0] else parts[0] + [sep] + Join(parts[1..], sep)
  }

  lemma {:induction false} SplitOff(part: string, sep: char, rest: string)
    requires sep !in part
    ensures Split(part, sep) == [part]
    ensures Split(part + [sep] + rest, sep) == [part] + Split(rest, sep)
  {
    if part == "" {
      assert part + [sep] + rest == [sep] + rest;
      assert ([sep] + rest)[1..] == rest;
    } else {
      SplitOff(part[1..], sep, rest);
      var s := part + [sep] + rest;
      assert s[1..] == part[1..] + [sep] + rest;
      assert Split(s[1..], sep) == [part[1..]] + Split(rest, sep);
      assert [part[0]] + part[1..] == part;
    }
  }

  lemma {:induction false} SplitJoin(parts: seq<string>, sep: char)
    requires |parts| >= 1 && forall p :: p in parts ==> sep !in p
    ensures Split(Join(parts, sep), sep) == parts
  {
    if |parts| == 1 {
      SplitOff(parts[0], sep, "");
    } else {
      SplitJoin(parts[1..], sep);
      SplitOff(parts[0], sep, Join(parts[1..], sep));
    }
  }

  lemma {:induction false} JoinSplit(s: string, sep: char)
    ensures Join(Split(s, sep), sep) == s
  {
    if s != "" {
      var rest := Split(s[1..], sep);
      JoinSplit(s[1..], sep);
      if s[0] == sep {
        assert Split(s, sep)[1..] == rest;
      } else if |rest| > 1 {
        assert Split(s, sep)[1..] == rest[1..];
      }
    }
  }

  // -------------------------------------------------- Numbers

  function DigitValue(c: char): nat {
    if '0' <= c <= '9' then c as int - '0' as int
    else if 'a' <= c <= 'z' then c as int - 'a' as int + 10
    else if 'A' <= c <= 'Z' then c as int - 'A' as int + 10
    else 36
  }

  datatype Radix = Decimal | Hexadecimal

  function Base(radix: Radix): nat {
    if radix.Decimal? then 10 else 16
  }

  predicate AllDigits(s: string, radix: Radix) {
    forall c :: c in s ==> DigitValue(c) < Base(radix)
  }

  function NumberOf(s: string, radix: Radix): nat {
    if s == "" then 0
    else
      var front := NumberOf(s[..|s| - 1], radix);
      (if radix.Decimal? then 10 * front else 16 * front) + DigitValue(s[|s| - 1])
  }

  /** `from_str_radix` of an unsigned type with values below `bound`: an optional plus sign,
      then at least one digit, the number not overflowing. */
  function FromStrRadix(s: string, radix: Radix, bound: nat): (r: Result<nat>)
    ensures r.Ok? ==> r.value < bound
  {
    var digits := if s != "" && s[0] == '+' then s[1..] else s;
    if digits != "" && AllDigits(digits, radix) && NumberOf(digits, radix) < bound
    then Ok(NumberOf(digits, radix))
    else Err
  }

  predicate IsDigitChar(c: char) {
    '0' <= c <= '9' || 'a' <= c <= 'z'
  }

  function DigitChar(d: nat): (c: char)
    requires d < 16
    ensures DigitValue(c) == d && IsDigitChar(c)
  {
    if d < 10 then ('0' as int + d) as char else ('a' as int + (d - 10)) as char
  }

  /** A number written out in decimal, without superfluous zeros. */
  function Digits(n: nat): (s: string)
    ensures |s| >= 1
  {
    if n < 10 then [DigitChar(n)] else Digits(n / 10) + [DigitChar(n % 10)]
  }

  /** One more digit at the end. */
  lemma {:induction false} Extend(s: string, d: nat, radix: Radix)
    requires d < Base(radix) && AllDigits(s, radix) && forall c :: c in s ==> IsDigitChar(c)
    ensures var t := s + [DigitChar(d)];
      && NumberOf(t, radix) == (if radix.Decimal? then 10 * NumberOf(s, radix) else 16 * NumberOf(s, radix)) + d
      && AllDigits(t, radix) && forall c :: c in t ==> IsDigitChar(c)
  {
    assert (s + [DigitChar(d)])[..|s|] == s;
  }

  lemma {:induction false} DigitsRead(n: nat)
    ensures NumberOf(Digits(n), Decimal) == n
    ensures AllDigits(Digits(n), Decimal)
    ensures forall c :: c in Digits(n) ==> IsDigitChar(c)
  {
    if n < 10 {
      Extend("", n, Decimal);
    } else {
      DigitsRead(n / 10);
      Extend(Digits(n / 10), n % 10, Decimal);
    }
  }

  /** Reading back a written number yields it, unless it is out of range. */
  lemma {:induction false} NumberRoundTrip(n: nat, bound: nat)
    ensures FromStrRadix(Digits(n), Decimal, bound) == if n < bound then Ok(n) else Err
  {
    DigitsRead(n);
    assert Digits(n)[0] in Digits(n);
  }

  // -------------------------------------------------- Which texts write which numbers

  /** The character writes the digit, in either case. */
  predicate WritesDigit(c: char, d: nat, radix: Radix) {
    && d < (if radix.Decimal? then 10 else 16)
    && (c == "0123456789abcdef"[d] || c == "0123456789ABCDEF"[d])
  }

  function Power(radix: Radix, k: nat): nat {
    if k == 0 then 1 else if radix.Decimal? then 10 * Power(radix, k - 1) else 16 * Power(radix, k - 1)
  }

  /** Digits by place value, the first one the most significant. */
  function PlaceValue(ds: seq<nat>, radix: Radix): nat {
    if ds == [] then 0 else ds[0] * Power(radix, |ds| - 1) + PlaceValue(ds[1..], radix)
  }

  ghost predicate WritesDigits(s: string, ds: seq<nat>, radix: Radix) {
    |ds| == |s| && forall i :: 0 <= i < |s| ==> WritesDigit(s[i], ds[i], radix)
  }

  /** One digit or more, with the place value n. */
  ghost predicate DigitsText(s: string, radix: Radix, n: nat) {
    s != "" && exists ds :: WritesDigits(s, ds, radix) && PlaceValue(ds, radix) == n
  }

  /** A text that writes the number: its digits, upper or lower case, with any number of
      leading zeros and perhaps a plus sign. */
  ghost predicate NumberText(s: string, radix: Radix, n: nat) {
    DigitsText(s, radix, n) || (s != "" && s[0] == '+' && DigitsText(s[1..], radix, n))
  }

  lemma {:induction false} DigitMeaning(c: char, d: nat, radix: Radix)
    ensures WritesDigit(c, d, radix) <==> DigitValue(c) == d && d < Base(radix)
  {
    if d < 16 {
      Alphabets(d);
    }
  }

  lemma {:induction false} Alphabets(d: nat)
    requires d < 16
    ensures "0123456789abcdef"[d] == if d < 10 then ('0' as int + d) as char else ('a' as int + (d - 10)) as char
    ensures "0123456789ABCDEF"[d] == if d < 10 then ('0' as int + d) as char else ('A' as int + (d - 10)) as char
  {
  }

  lemma {:induction false} PlaceValueSnoc(ds: seq<nat>, d: nat, radix: Radix)
    ensures PlaceValue(ds + [d], radix) ==
      (if radix.Decimal? then 10 * PlaceValue(ds, radix) else 16 * PlaceValue(ds, radix)) + d
  {
    if ds == [] {
      assert ds + [d] == [d] && [d][1..] == [];
    } else {
      assert (ds + [d])[1..] == ds[1..] + [d];
      PlaceValueSnoc(ds[1..], d, radix);
      Shifted(ds[0], Power(radix, |ds| - 1), Base(radix));
    }
  }

  lemma {:induction false} Shifted(d: nat, power: nat, base: nat)
    ensures d * (base * power) == base * (d * power)
  {
  }

  lemma {:induction false} NumberIsPlaceValue(s: string, ds: seq<nat>, radix: Radix)
    requires WritesDigits(s, ds, radix)
    ensures AllDigits(s, radix) && NumberOf(s, radix) == PlaceValue(ds, radix)
  {
    if s != "" {
      var n := |s| - 1;
      NumberIsPlaceValue(s[..n], ds[..n], radix);
      DigitMeaning(s[n], ds[n], radix);
      PlaceValueSnoc(ds[..n], ds[n], radix);
      assert ds == ds[..n] + [ds[n]] && s == s[..n] + [s[n]];
    }
  }

  lemma {:induction false} DigitsTextMeaning(s: string, radix: Radix, n: nat)
    ensures DigitsText(s, radix, n) <==> s != "" && AllDigits(s, radix) && NumberOf(s, radix) == n
  {
    forall ds | WritesDigits(s, ds, radix)
      ensures AllDigits(s, radix) && NumberOf(s, radix) == PlaceValue(ds, radix)
    {
      NumberIsPlaceValue(s, ds, radix);
    }
    if AllDigits(s, radix) {
      var ds := seq(|s|, i requires 0 <= i < |s| => DigitValue(s[i]));
      forall i | 0 <= i < |s|
        ensures WritesDigit(s[i], ds[i], radix)
      {
        DigitMeaning(s[i], ds[i], radix);
      }
      assert WritesDigits(s, ds, radix);
    }
  }

  /** A number is read from exactly the texts that write it. */
  lemma {:induction false} NumberTextMeaning(s: string, radix: Radix, bound: nat, n: nat)
    ensures FromStrRadix(s, radix, bound) == Ok(n) <==> NumberText(s, radix, n) && n < bound
  {
    DigitsTextMeaning(s, radix, n);
    if s != "" && s[0] == '+' {
      DigitsTextMeaning(s[1..], radix, n);
      assert DigitValue(s[0]) == 36;
      assert s[0] in s;
    }
  }

  lemma {:induction false} NumberTextAvoids(s: string, radix: Radix, n: nat, c: char)
    requires NumberText(s, radix, n) && c != '+' && DigitValue(c) == 36
    ensures c !in s
  {
    DigitsTextMeaning(s, radix, n);
    if s[0] == '+' {
      DigitsTextMeaning(s[1..], radix, n);
      assert s == ['+'] + s[1..];
    }
  }

  // -------------------------------------------------- MAC addresses

  /** A text that writes six octets: as many hexadecimal numbers, colons between them. */
  ghost predicate MacText(s: string, octets: seq<u8>) {
    && |octets| == 6
    && exists parts: seq<string> ::
         && |parts| == 6 && Join(parts, ':') == s
         && forall i :: 0 <= i < 6 ==> NumberText(parts[i], Hexadecimal, octets[i])
  }

  /** Octets are read from exactly the texts that write them. */
  lemma {:induction false} MacTextMeaning(s: string, octets: seq<u8>)
    ensures MacOctets(s) == Ok(octets) <==> MacText(s, octets)
  {
    if MacOctets(s) == Ok(octets) {
      MacTextWritten(s);
    }
    if MacText(s, octets) {
      MacTextRead(s, octets);
    }
  }

  lemma {:induction false} MacTextWritten(s: string)
    requires MacOctets(s).Ok?
    ensures MacText(s, MacOctets(s).value)
  {
    var parts := Split(s, ':');
    JoinSplit(s, ':');
    forall i | 0 <= i < 6
      ensures NumberText(parts[i], Hexadecimal, MacOctets(s).value[i])
    {
      NumberTextMeaning(parts[i], Hexadecimal, 0x100, MacOctets(s).value[i]);
    }
  }

  lemma {:induction false} MacTextExists(s: string)
    ensures MacOctets(s).Ok? <==> IsMacText(s)
    ensures MacOctets(s).Ok? ==> MacText(s, MacOctets(s).value)
  {
    if MacOctets(s).Ok? {
      MacTextWritten(s);
    }
    forall octets | MacText(s, octets)
      ensures MacOctets(s).Ok?
    {
      MacTextRead(s, octets);
    }
  }

  lemma {:induction false} MacTextRead(s: string, octets: seq<u8>)
    requires MacText(s, octets)
    ensures MacOctets(s) == Ok(octets)
  {
    var parts: seq<string> :|
      |parts| == 6 && Join(parts, ':') == s && forall i :: 0 <= i < 6 ==> NumberText(parts[i], Hexadecimal, octets[i]);
    forall i | 0 <= i < 6
      ensures ':' !in parts[i] && FromStrRadix(parts[i], Hexadecimal, 0x100) == Ok(octets[i])
    {
      NumberTextMeaning(parts[i], Hexadecimal, 0x100, octets[i]);
      NumberTextAvoids(parts[i], Hexadecimal, octets[i], ':');
    }
    SplitJoin(parts, ':');
    assert Octets(parts) == octets;
  }

  /** The octets of a text of six colon-separated hexadecimal octets. */
  function MacOctets(s: string): (r: Result<seq<u8>>)
    ensures r.Ok? ==> |r.value| == 6
  {
    var parts := Split(s, ':');
    if |parts| == 6 && forall i :: 0 <= i < 6 ==> FromStrRadix(parts[i], Hexadecimal, 0x100).Ok?
    then Ok(Octets(parts))
    else Err
  }

  function Octets(parts: seq<string>): (octets: seq<u8>)
    requires |parts| == 6
    ensures |octets| == 6
  {
    seq(6, i requires 0 <= i < 6 => Octet(parts[i]))
  }

  function Octet(p: string): u8 {
    var r := FromStrRadix(p, Hexadecimal, 0x100);
    if r.Ok? then r.value else 0
  }

  function BeValue(bs: seq<u8>): nat {
    if bs == [] then 0 else BeValue(bs[..|bs| - 1]) * 0x100 + bs[|bs| - 1]
  }

  function Pow256(n: nat): nat {
    if n == 0 then 1 else 0x100 * Pow256(n - 1)
  }

  lemma {:induction false} BeValueBound(bs: seq<u8>, n: nat)
    requires |bs| <= n
    ensures BeValue(bs) < Pow256(n)
    decreases n
  {
    if bs != [] {
      BeValueBound(bs[..|bs| - 1], n - 1);
    } else if n > 0 {
      BeValueBound(bs, n - 1);
    }
  }

  lemma {:induction false} BeValueStep(bs: seq<u8>, i: nat)
    requires i < |bs|
    ensures BeValue(bs[..i + 1]) == BeValue(bs[..i]) * 0x100 + bs[i]
  {
    assert bs[..i + 1][..i] == bs[..i];
  }

  lemma {:induction false} BeValueOfSix(bs: seq<u8>)
    requires |bs| == 6
    ensures BeValue(bs) == Be16(bs[..2]) as int * 0x1_0000_0000 + Be32(bs[2..])
  {
    BeValueStep(bs, 0);
    BeValueStep(bs, 1);
    BeValueStep(bs, 2);
    BeValueStep(bs, 3);
    BeValueStep(bs, 4);
    BeValueStep(bs, 5);
    assert bs[..0] == [] && bs[..6] == bs;
  }

  lemma {:induction false} MacBytesOfValue(bs: seq<u8>)
    requires |bs| == 6
    ensures BeValue(bs) < 0x1_0000_0000_0000
    ensures MacBytes(BeValue(bs)) == bs
  {
    var hi, lo := Be16(bs[..2]), Be32(bs[2..]);
    BeValueOfSix(bs);
    DivModUnique(BeValue(bs), 0x1_0000_0000, hi, lo);
    BytesOfBe32(bs[2..]);
    BytesOfBe32([0, 0] + bs[..2]);
    assert Be32([0, 0] + bs[..2]) == hi;
    assert ToBeBytes64(BeValue(bs)) == [0, 0] + bs[..2] + bs[2..];
  }

  /** Some six octets are written by the text. */
  ghost predicate IsMacText(s: string) {
    exists octets :: MacText(s, octets)
  }

  /** A text is accepted exactly if it writes six octets; the value then stays below 2^48 and its
      bytes, as the XDP program will take it apart, are those octets in order. */
  method ParseMacAddress(s: string) returns (r: Result<u64>)
    ensures r.Ok? <==> IsMacText(s)
    ensures r.Ok? ==> r.value < 0x1_0000_0000_0000 && MacText(s, MacBytes(r.value))
    ensures r.Ok? ==> r.value == BeValueOf(MacBytes(r.value))
  {
    MacTextExists(s);
    var parts := Split(s, ':');
    if |parts| != 6 {
      return Err;
    }
    r := ShiftInOctets(parts);
    if r.Ok? {
      MacBytesOfValue(Octets(parts));
    }
  }

  /** Shift in one octet after another. */
  method ShiftInOctets(parts: seq<string>) returns (r: Result<u64>)
    requires |parts| == 6
    ensures r.Ok? <==> forall i :: 0 <= i < 6 ==> FromStrRadix(parts[i], Hexadecimal, 0x100).Ok?
    ensures r.Ok? ==> r.value == BeValueOf(Octets(parts))
  {
    ghost var octets := Octets(parts);
    var res: u64 := 0;
    for i := 0 to 6
      invariant forall j :: 0 <= j < i ==> FromStrRadix(parts[j], Hexadecimal, 0x100).Ok?
      invariant res == BeValue(octets[..i])
    {
      var byte := FromStrRadix(parts[i], Hexadecimal, 0x100);
      if byte.Err? {
        r := Err;
        return;
      }
      ShiftInNext(octets, i, res, byte.value);
      res := ShiftInOctet(res, byte.value);
    }
    assert octets[..6] == octets;
    r := Ok(res);
  }

  /** `(res << 8) | byte as u64` */
  function ShiftInOctet(res: u64, byte: u8): (r: u64)
    ensures r == res % 0x100_0000_0000_0000 * 0x100 + byte
  {
    var kept := res % 0x100_0000_0000_0000;
    assert Pow2(8) == 0x100;
    assert Shl(res, 8) % 0x1_0000_0000_0000_0000 == Shl(kept, 8);
    OrVacant(kept, 8, byte);
    BitOr(Shl(res, 8) % 0x1_0000_0000_0000_0000, byte)
  }

  lemma {:induction false} ShiftInNext(octets: seq<u8>, i: nat, res: u64, byte: u8)
    requires i < |octets| <= 6 && res == BeValue(octets[..i]) && byte == octets[i]
    ensures ShiftInOctet(res, byte) == BeValue(octets[..i + 1])
  {
    ShiftIn(octets, i);
  }

  lemma {:induction false} ShiftIn(octets: seq<u8>, i: nat)
    requires i < |octets| <= 6
    ensures BeValue(octets[..i]) < 0x100_0000_0000_0000
    ensures ShiftInOctet(BeValue(octets[..i]), octets[i]) == BeValue(octets[..i + 1])
  {
    assert Pow256(5) == 0x100_0000_0000;
    BeValueBound(octets[..i], 5);
    assert octets[..i + 1][..i] == octets[..i];
  }

  function HexOctet(b: u8): string {
    [DigitChar(b / 16), DigitChar(b % 16)]
  }

  function HexOctets(octets: seq<u8>): (parts: seq<string>)
    ensures |parts| == |octets|
  {
    seq(|octets|, i requires 0 <= i < |octets| => HexOctet(octets[i]))
  }

  function FormatMac(octets: seq<u8>): string
    requires |octets| == 6
  {
    Join(HexOctets(octets), ':')
  }

  lemma {:induction false} HexOctetRead(b: u8)
    ensures FromStrRadix(HexOctet(b), Hexadecimal, 0x100) == Ok(b)
    ensures ':' !in HexOctet(b)
  {
    Extend("", b / 16, Hexadecimal);
    Extend([DigitChar(b / 16)], b % 16, Hexadecimal);
    assert HexOctet(b) == [DigitChar(b / 16)] + [DigitChar(b % 16)];
  }

  /** The usual notation for a MAC address is read as the address. */
  lemma {:induction false} MacRoundTrip(octets: seq<u8>)
    requires |octets| == 6
    ensures MacOctets(FormatMac(octets)) == Ok(octets)
  {
    var parts := HexOctets(octets);
    forall i | 0 <= i < 6
      ensures ':' !in parts[i] && FromStrRadix(parts[i], Hexadecimal, 0x100) == Ok(octets[i])
    {
      HexOctetRead(octets[i]);
    }
    SplitJoin(parts, ':');
    assert MacOctets(FormatMac(octets)).value == octets;
  }

  // -------------------------------------------------- Networks

  /** Overflow is checked in the development profile and wraps in the release profile. */
  datatype Profile = Dev | Release

  /** `x << k` for a 32-bit x and an in-range k. */
  function Shl32(x: u32, k: nat): u32 {
    Shl(x, k) % 0x1_0000_0000
  }

  /** `0xffffffff_u32 << (32 - p)` */
  function MaskOfLength(profile: Profile, p: u32): Result<u32> {
    if profile.Dev? then
      if p > 32 || 32 - p >= 32 then Err else Ok(Shl32(0xffff_ffff, 32 - p))
    else
      Ok(Shl32(0xffff_ffff, (32 - p) % 0x1_0000_0000 % 32))
  }

  lemma {:induction false} ShiftedOnes(k: nat)
    requires k < 32
    ensures Shl32(0xffff_ffff, k) == PrefixMask(32 - k)
  {
    Powers();
    Pow2Monotone(k, 31);
    assert Shl(0xffff_ffff, k) == 0x1_0000_0000 * (Pow2(k) - 1) + (0x1_0000_0000 - Pow2(k));
    DivModUnique(Shl(0xffff_ffff, k), 0x1_0000_0000, Pow2(k) - 1, 0x1_0000_0000 - Pow2(k));
  }

  /** The mask a prefix length stands for: its p leading bits. */
  function IntendedMask(p: nat): u32
    requires p <= 32
  {
    if p == 0 then 0 else PrefixMask(p)
  }

  /** Of the lengths a prefix can have, all but zero give the intended mask, in either
      profile: zero panics or, in a release build, gives the mask of a single host. */
  lemma {:induction false} MaskIntendedIffLengthPositive(profile: Profile, p: u32)
    requires p <= 32
    ensures MaskOfLength(profile, p) == Ok(IntendedMask(p)) <==> p >= 1
    ensures MaskOfLength(Dev, 0) == Err && MaskOfLength(Release, 0) == Ok(PrefixMask(32))
  {
    ZeroLengthMasks();
    if p >= 1 {
      MaskInRange(profile, p);
    }
  }

  lemma {:induction false} MaskInRange(profile: Profile, p: u32)
    requires 1 <= p <= 32
    ensures MaskOfLength(profile, p) == Ok(PrefixMask(p))
  {
    ShiftedOnes(32 - p);
    assert (32 - p) % 0x1_0000_0000 % 32 == 32 - p;
  }

  lemma {:induction false} ZeroLengthMasks()
    ensures MaskOfLength(Dev, 0) == Err && MaskOfLength(Release, 0) == Ok(PrefixMask(32))
    ensures PrefixMask(32) == 0xffff_ffff
  {
    ShiftedOnes(0);
    assert PrefixMask(32) == 0x1_0000_0000 - Pow2(0);
    assert (32 - 0) % 0x1_0000_0000 == 32;
  }

  /** A length beyond 32 panics in a development build and wraps round in a release one. */
  lemma {:induction false} LongPrefixes(p: u32)
    requires p > 32
    ensures MaskOfLength(Dev, p) == Err
    ensures MaskOfLength(Release, p) == Ok(PrefixMask((p - 1) % 32 + 1))
  {
    var k := (32 - p) % 0x1_0000_0000 % 32;
    var q, r := (p - 1) / 32, (p - 1) % 32;
    assert 32 - p == -0x1_0000_0000 + (0x1_0000_0000 + 32 - p);
    DivModUnique(32 - p, 0x1_0000_0000, -1, 0x1_0000_0000 + 32 - p);
    assert 0x1_0000_0000 + 32 - p == 32 * (0x800_0000 - q) + (31 - r);
    DivModUnique(0x1_0000_0000 + 32 - p, 32, 0x800_0000 - q, 31 - r);
    ShiftedOnes(31 - r);
  }

  /** The length whose mask the shift gives, for any number given as length: the number itself
      from 1 to 32, and beyond these what it wraps round to. */
  function EffectiveLength(p: u32): (r: nat)
    ensures 1 <= r <= 32
  {
    (p - 1) % 32 + 1
  }

  lemma {:induction false} MaskOfAnyLength(profile: Profile, p: u32)
    ensures MaskOfLength(profile, p) ==
      if profile.Dev? && !(1 <= p <= 32) then Err else Ok(PrefixMask(EffectiveLength(p)))
    ensures 1 <= p <= 32 ==> EffectiveLength(p) == p
  {
    if p == 0 {
      DivModUnique(-1, 32, -1, 31);
      ZeroLengthMasks();
    } else if p <= 32 {
      DivModUnique(p - 1, 32, 0, p - 1);
      MaskInRange(profile, p);
    } else {
      LongPrefixes(p);
    }
  }

  /** One decimal octet of a dotted address: one to three digits, no leading zero. */
  function DecimalOctet(t: string): (r: Result<u8>) {
    if 1 <= |t| <= 3 && AllDigits(t, Decimal) && (t[0] == '0' ==> |t| == 1) && NumberOf(t, Decimal) < 0x100
    then Ok(NumberOf(t, Decimal))
    else Err
  }

  function ParseIpv4(t: string): Result<u32> {
    var parts := Split(t, '.');
    if |parts| != 4 then Err
    else
      var o0 :- DecimalOctet(parts[0]);
      var o1 :- DecimalOctet(parts[1]);
      var o2 :- DecimalOctet(parts[2]);
      var o3 :- DecimalOctet(parts[3]);
      Ok(Be32([o0, o1, o2, o3]))
  }

  function ParseIpMask(profile: Profile, s: string): Result<(u32, u32)> {
    if s == "" then Ok((0, 0xffff_ffff))
    else
      var parts := Split(s, '/');
      if |parts| != 2 then Err
      else
        ParseNetParts(profile, parts[0], parts[1])
  }

  function ParseNetParts(profile: Profile, address: string, length: string): Result<(u32, u32)> {
    var net :- ParseIpv4(address);
    var p :- FromStrRadix(length, Decimal, 0x1_0000_0000);
    var mask :- MaskOfLength(profile, p);
    Ok((net, mask))
  }

  function DecimalOctets(octets: seq<u8>): (parts: seq<string>)
    ensures |parts| == |octets|
  {
    seq(|octets|, i requires 0 <= i < |octets| => Digits(octets[i]))
  }

  function FormatIpv4(octets: seq<u8>): string
    requires |octets| == 4
  {
    Join(DecimalOctets(octets), '.')
  }

  function FormatNet(octets: seq<u8>, p: nat): string
    requires |octets| == 4
  {
    FormatIpv4(octets) + ['/'] + Digits(p)
  }

  lemma {:induction false} DecimalOctetRead(b: u8)
    ensures DecimalOctet(Digits(b)) == Ok(b)
    ensures '.' !in Digits(b) && '/' !in Digits(b)
  {
    DigitsRead(b);
    DigitsOfOctet(b);
  }

  lemma {:induction false} DigitsOfOctet(b: u8)
    ensures Digits(b) ==
      if b < 10 then [DigitChar(b)]
      else if b < 100 then [DigitChar(b / 10), DigitChar(b % 10)]
      else [DigitChar(b / 100), DigitChar(b / 10 % 10), DigitChar(b % 10)]
  {
    if b >= 100 {
      assert b / 10 / 10 == b / 100 < 10;
      assert Digits(b / 10) == Digits(b / 100) + [DigitChar(b / 10 % 10)];
    }
  }

  lemma {:induction false} JoinAvoids(parts: seq<string>, sep: char, c: char)
    requires |parts| >= 1 && c != sep && forall p :: p in parts ==> c !in p
    ensures c !in Join(parts, sep)
  {
    if |parts| > 1 {
      JoinAvoids(parts[1..], sep, c);
    }
  }

  lemma {:induction false} Ipv4RoundTrip(octets: seq<u8>)
    requires |octets| == 4
    ensures ParseIpv4(FormatIpv4(octets)) == Ok(Be32(octets))
    ensures '/' !in FormatIpv4(octets)
  {
    var parts := DecimalOctets(octets);
    forall i | 0 <= i < 4
      ensures DecimalOctet(parts[i]) == Ok(octets[i]) && '.' !in parts[i] && '/' !in parts[i]
    {
      DecimalOctetRead(octets[i]);
    }
    JoinAvoids(parts, '.', '/');
    SplitJoin(parts, '.');
    FourOctetsRead(FormatIpv4(octets), octets);
  }

  lemma {:induction false} FourOctetsRead(t: string, octets: seq<u8>)
    requires |octets| == 4 && |Split(t, '.')| == 4
    requires forall i :: 0 <= i < 4 ==> DecimalOctet(Split(t, '.')[i]) == Ok(octets[i])
    ensures ParseIpv4(t) == Ok(Be32(octets))
  {
    assert octets == [octets[0], octets[1], octets[2], octets[3]];
  }

  /** A decimal octet is accepted in its one notation only. */
  lemma {:induction false} DecimalOctetWritten(t: string)
    requires DecimalOctet(t).Ok?
    ensures t == Digits(DecimalOctet(t).value)
  {
    var b := NumberOf(t, Decimal);
    NumberOfThree(t);
    DigitsOfOctet(b);
    assert t[0] in t && t[|t| - 1] in t && t[|t| / 2] in t;
    DigitRead(t[0]);
    DigitRead(t[|t| - 1]);
    DigitRead(t[|t| / 2]);
    if |t| == 2 {
      DivModUnique(b, 10, DigitValue(t[0]), DigitValue(t[1]));
    } else if |t| == 3 {
      DivModUnique(b, 100, DigitValue(t[0]), 10 * DigitValue(t[1]) + DigitValue(t[2]));
      DivModUnique(b, 10, 10 * DigitValue(t[0]) + DigitValue(t[1]), DigitValue(t[2]));
      DivModUnique(b / 10, 10, DigitValue(t[0]), DigitValue(t[1]));
    }
  }

  lemma {:induction false} DigitRead(c: char)
    requires DigitValue(c) < 10
    ensures DigitChar(DigitValue(c)) == c
    ensures DigitValue(c) == 0 ==> c == '0'
  {
  }

  lemma {:induction false} NumberOfThree(t: string)
    requires 1 <= |t| <= 3
    ensures NumberOf(t, Decimal) ==
      if |t| == 1 then DigitValue(t[0])
      else if |t| == 2 then 10 * DigitValue(t[0]) + DigitValue(t[1])
      else 100 * DigitValue(t[0]) + 10 * DigitValue(t[1]) + DigitValue(t[2])
  {
    NumberOfLast("", t[0]);
    assert [t[0]] == t[..1];
    if |t| >= 2 {
      NumberOfLast(t[..1], t[1]);
      assert t[..1] + [t[1]] == t[..2];
    }
    if |t| == 3 {
      NumberOfLast(t[..2], t[2]);
      assert t[..2] + [t[2]] == t;
    }
    assert t[..|t|] == t;
  }

  lemma {:induction false} NumberOfLast(s: string, c: char)
    ensures NumberOf(s + [c], Decimal) == 10 * NumberOf(s, Decimal) + DigitValue(c)
  {
    assert (s + [c])[..|s|] == s;
  }

  /** A dotted address is accepted in its usual notation only. */
  lemma {:induction false} Ipv4Written(t: string) returns (octets: seq<u8>)
    requires ParseIpv4(t).Ok?
    ensures |octets| == 4 && t == FormatIpv4(octets) && ParseIpv4(t).value == Be32(octets)
  {
    var parts := Split(t, '.');
    octets := [DecimalOctet(parts[0]).value, DecimalOctet(parts[1]).value,
               DecimalOctet(parts[2]).value, DecimalOctet(parts[3]).value];
    DecimalOctetWritten(parts[0]);
    DecimalOctetWritten(parts[1]);
    DecimalOctetWritten(parts[2]);
    DecimalOctetWritten(parts[3]);
    assert parts == DecimalOctets(octets);
    JoinSplit(t, '.');
  }

  /** A text that writes a network: an address in the usual notation, a slash, and a number. */
  ghost predicate NetText(s: string, octets: seq<u8>, p: u32) {
    |octets| == 4 && exists l: string :: NumberText(l, Decimal, p) && s == FormatIpv4(octets) + ['/'] + l
  }

  /** What the tool makes of a text: it accepts the empty text and exactly the texts that write a
      network, in a development build only with a length from 1 to 32, and reads the address
      written and the mask of as many leading ones as the length, wrapped round, says. */
  lemma {:induction false} NetTextMeaning(profile: Profile, s: string, net: u32, mask: u32)
    ensures ParseIpMask(profile, s) == Ok((net, mask)) <==>
      || (s == "" && net == 0 && mask == 0xffff_ffff)
      || exists octets, p ::
           && NetText(s, octets, p) && (profile.Dev? ==> 1 <= p <= 32)
           && net == Be32(octets) && mask == PrefixMask(EffectiveLength(p))
  {
    if s != "" && ParseIpMask(profile, s) == Ok((net, mask)) {
      var octets, p := NetTextWritten(profile, s);
    }
    forall octets, p | NetText(s, octets, p) && (profile.Dev? ==> 1 <= p <= 32)
      ensures ParseIpMask(profile, s) == Ok((Be32(octets), PrefixMask(EffectiveLength(p))))
    {
      NetTextRead(profile, s, octets, p);
    }
  }

  lemma {:induction false} NetTextWritten(profile: Profile, s: string) returns (octets: seq<u8>, p: u32)
    requires s != "" && ParseIpMask(profile, s).Ok?
    ensures NetText(s, octets, p) && (profile.Dev? ==> 1 <= p <= 32)
    ensures ParseIpMask(profile, s).value == (Be32(octets), PrefixMask(EffectiveLength(p)))
  {
    var parts := Split(s, '/');
    JoinSplit(s, '/');
    octets := Ipv4Written(parts[0]);
    p := FromStrRadix(parts[1], Decimal, 0x1_0000_0000).value;
    MaskOfAnyLength(profile, p);
    NumberTextMeaning(parts[1], Decimal, 0x1_0000_0000, p);
    assert parts[1..] == [parts[1]];
    assert s == FormatIpv4(octets) + ['/'] + parts[1];
  }

  lemma {:induction false} NetTextRead(profile: Profile, s: string, octets: seq<u8>, p: u32)
    requires NetText(s, octets, p)
    ensures s != ""
    ensures ParseIpMask(profile, s) ==
      if profile.Dev? && !(1 <= p <= 32) then Err else Ok((Be32(octets), PrefixMask(EffectiveLength(p))))
  {
    var l: string :| NumberText(l, Decimal, p) && s == FormatIpv4(octets) + ['/'] + l;
    Ipv4RoundTrip(octets);
    NumberTextMeaning(l, Decimal, 0x1_0000_0000, p);
    NumberTextAvoids(l, Decimal, p, '/');
    SplitOff(FormatIpv4(octets), '/', l);
    SplitOff(l, '/', "");
    MaskOfAnyLength(profile, p);
  }

  /** A network in the usual notation is read as its address and its leading-ones mask. */
  lemma {:induction false} NetRoundTrip(profile: Profile, octets: seq<u8>, p: nat)
    requires |octets| == 4 && 1 <= p <= 32
    ensures NetText(FormatNet(octets, p), octets, p)
    ensures ParseIpMask(profile, FormatNet(octets, p)) == Ok((Be32(octets), PrefixMask(p)))
  {
    NumberRoundTrip(p, 0x1_0000_0000);
    NumberTextMeaning(Digits(p), Decimal, 0x1_0000_0000, p);
    NetTextRead(profile, FormatNet(octets, p), octets, p);
    MaskOfAnyLength(profile, p);
  }

  // -------------------------------------------------- The command

  /** The gateway address must be given, if only as the empty text; the networks default to it. */
  datatype Opt = Opt(stats: bool, localNet: string, backendNet: string, gatewayMac: string)

  /** The requests one invocation makes, or that it panics before making any. */
  function Requests(profile: Profile, opt: Opt): Result<seq<Message>> {
    var local :- ParseIpMask(profile, opt.localNet);
    var backend :- ParseIpMask(profile, opt.backendNet);
    var octets :- MacOctets(opt.gatewayMac);
    Ok(if opt.stats then [GetStats]
       else
         Given(opt.localNet, SetLocalNetAndMask(local.0, local.1))
         + Given(opt.backendNet, SetBackendNetAndMask(backend.0, backend.1))
         + Given(opt.gatewayMac, SetGatewayMacAddress(BeValueOf(octets))))
  }

  function Given(text: string, m: Message): seq<Message> {
    if text != "" then [m] else []
  }

  function BeValueOf(octets: seq<u8>): u64
    requires |octets| == 6
  {
    MacBytesOfValue(octets);
    BeValue(octets)
  }

  /** What the text of a network option asks for: nothing if it is empty, and otherwise to set
      the network it writes, in a development build with a length from 1 to 32. */
  ghost predicate NetAsked(profile: Profile, text: string, net: Option<(u32, u32)>) {
    if text == "" then net == None
    else exists octets, p ::
      && NetText(text, octets, p) && (profile.Dev? ==> 1 <= p <= 32)
      && net == Some((Be32(octets), PrefixMask(EffectiveLength(p))))
  }

  /** What a command asks for. */
  ghost predicate Asked(profile: Profile, opt: Opt, local: Option<(u32, u32)>, backend: Option<(u32, u32)>,
                        mac: seq<u8>)
  {
    NetAsked(profile, opt.localNet, local) && NetAsked(profile, opt.backendNet, backend) && MacText(opt.gatewayMac, mac)
  }

  /** The requests that takes: the one query, or each network asked for and the gateway address. */
  function RequestsFor(stats: bool, local: Option<(u32, u32)>, backend: Option<(u32, u32)>, mac: seq<u8>): seq<Message>
    requires |mac| == 6
  {
    var gateway := SetGatewayMacAddress(BeValueOf(mac));
    if stats then [GetStats]
    else match (local, backend)
      case (None, None) => [gateway]
      case (None, Some(b)) => [SetBackendNetAndMask(b.0, b.1), gateway]
      case (Some(l), None) => [SetLocalNetAndMask(l.0, l.1), gateway]
      case (Some(l), Some(b)) => [SetLocalNetAndMask(l.0, l.1), SetBackendNetAndMask(b.0, b.1), gateway]
  }

  lemma {:induction false} NetAskedMeaning(profile: Profile, text: string, net: Option<(u32, u32)>)
    ensures NetAsked(profile, text, net) <==>
      && ParseIpMask(profile, text).Ok?
      && net == if text == "" then None else Some(ParseIpMask(profile, text).value)
  {
    if text != "" {
      if ParseIpMask(profile, text).Ok? {
        NetTextMeaning(profile, text, ParseIpMask(profile, text).value.0, ParseIpMask(profile, text).value.1);
      }
      if net.Some? {
        NetTextMeaning(profile, text, net.value.0, net.value.1);
      }
    }
  }

  /** A command succeeds exactly if each of its texts asks for something, and then makes exactly
      the requests that takes, in order. */
  lemma {:induction false} CommandMeaning(profile: Profile, opt: Opt, ms: seq<Message>)
    ensures Requests(profile, opt) == Ok(ms) <==>
      exists local, backend, mac ::
        Asked(profile, opt, local, backend, mac) && ms == RequestsFor(opt.stats, local, backend, mac)
  {
    if Requests(profile, opt) == Ok(ms) {
      CommandAsks(profile, opt);
    }
    forall local, backend, mac | Asked(profile, opt, local, backend, mac)
      ensures Requests(profile, opt) == Ok(RequestsFor(opt.stats, local, backend, mac))
    {
      AskedIsRequested(profile, opt, local, backend, mac);
    }
  }

  lemma {:induction false} AskedIsRequested(
      profile: Profile, opt: Opt, local: Option<(u32, u32)>, backend: Option<(u32, u32)>, mac: seq<u8>)
    requires Asked(profile, opt, local, backend, mac)
    ensures Requests(profile, opt) == Ok(RequestsFor(opt.stats, local, backend, mac))
  {
    NetAskedMeaning(profile, opt.localNet, local);
    NetAskedMeaning(profile, opt.backendNet, backend);
    MacTextRead(opt.gatewayMac, mac);
    ParsedIsRequested(profile, opt, mac);
  }

  lemma {:induction false} ParsedIsRequested(profile: Profile, opt: Opt, mac: seq<u8>)
    requires ParseIpMask(profile, opt.localNet).Ok? && ParseIpMask(profile, opt.backendNet).Ok?
    requires MacOctets(opt.gatewayMac) == Ok(mac)
    ensures Requests(profile, opt) == Ok(RequestsFor(opt.stats,
      if opt.localNet == "" then None else Some(ParseIpMask(profile, opt.localNet).value),
      if opt.backendNet == "" then None else Some(ParseIpMask(profile, opt.backendNet).value), mac))
  {
    assert |Split("", ':')| == 1;
    var l, b := ParseIpMask(profile, opt.localNet).value, ParseIpMask(profile, opt.backendNet).value;
    GivenInOrder(opt.localNet, opt.backendNet, opt.gatewayMac,
      SetLocalNetAndMask(l.0, l.1), SetBackendNetAndMask(b.0, b.1), SetGatewayMacAddress(BeValueOf(mac)));
  }

  lemma {:induction false} GivenInOrder(a: string, b: string, c: string, l: Message, m: Message, n: Message)
    requires c != ""
    ensures Given(a, l) + Given(b, m) + Given(c, n) ==
      if a == "" && b == "" then [n] else if a == "" then [m, n] else if b == "" then [l, n] else [l, m, n]
  {
  }

  lemma {:induction false} CommandAsks(profile: Profile, opt: Opt)
    requires Requests(profile, opt).Ok?
    ensures exists local, backend, mac ::
      && Asked(profile, opt, local, backend, mac)
      && Requests(profile, opt).value == RequestsFor(opt.stats, local, backend, mac)
  {
    var local := if opt.localNet == "" then None else Some(ParseIpMask(profile, opt.localNet).value);
    var backend := if opt.backendNet == "" then None else Some(ParseIpMask(profile, opt.backendNet).value);
    NetAskedMeaning(profile, opt.localNet, local);
    NetAskedMeaning(profile, opt.backendNet, backend);
    MacTextWritten(opt.gatewayMac);
    AskedIsRequested(profile, opt, local, backend, MacOctets(opt.gatewayMac).value);
  }

  /** The test for an empty gateway address comes after the parse that panics on it: every
      invocation that makes a request at all was given a proper address, statistics queries
      included, and every one that is not a query sets the gateway, as its last request. */
  lemma {:induction false} GatewayIsNeverOptional(profile: Profile, opt: Opt)
    requires Requests(profile, opt).Ok?
    ensures opt.gatewayMac != ""
    ensures var ms := Requests(profile, opt).value;
      !opt.stats ==> |ms| >= 1 && ms[|ms| - 1] == SetGatewayMacAddress(BeValueOf(MacOctets(opt.gatewayMac).value))
  {
  }
}
