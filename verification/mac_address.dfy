/**
 * Hardware-address canonicalisation and detection of locally administered
 * ("randomised") addresses, as in extras.py.
 */
module MacAddress {
  import opened Wrappers
  import opened Text

  /** The sentinel returned for anything that is not twelve hex digits. */
  const Unknown: string := "unknown"

  /** A character kept by the pattern `[^0-9a-f]` removal. */
  predicate IsHexDigit(c: char)
  {
    '0' <= c <= '9' || 'a' <= c <= 'f'
  }

  /** The value of a lowercase hex digit. */
  function HexValue(c: char): (v: nat)
    requires IsHexDigit(c)
    ensures v < 16
  {
    if c <= '9' then c as int - '0' as int else c as int - 'a' as int + 10
  }

  /** `re.sub(r"[^0-9a-f]", "", s)`: the lowercase hex digits of `s`, in order. */
  function HexDigits(s: string): (h: string)
    ensures |h| <= |s|
    ensures forall i :: 0 <= i < |h| ==> IsHexDigit(h[i])
  {
    if s == [] then [] else (if IsHexDigit(s[0]) then [s[0]] else []) + HexDigits(s[1..])
  }

  lemma {:induction false} HexDigitsConcat(a: string, b: string)
    ensures HexDigits(a + b) == HexDigits(a) + HexDigits(b)
  {
    if a == [] {
      assert a + b == b;
    } else {
      assert (a + b)[0] == a[0];
      assert (a + b)[1..] == a[1..] + b;
      HexDigitsConcat(a[1..], b);
    }
  }

  /** A string of hex digits has itself as its hex digits. */
  lemma {:induction false} HexDigitsOfHex(h: string)
    requires forall i :: 0 <= i < |h| ==> IsHexDigit(h[i])
    ensures HexDigits(h) == h
  {
    if h != [] {
      HexDigitsOfHex(h[1..]);
    }
  }

  /** Leading and trailing whitespace carries no hex digits. */
  lemma {:induction false} HexDigitsOfSpaces(s: string)
    requires forall i :: 0 <= i < |s| ==> IsSpace(s[i])
    ensures HexDigits(Lower(s)) == []
  {
    if s != [] {
      HexDigitsOfSpaces(s[1..]);
      HexDigitsConcat(LowerChar(s[0]), Lower(s[1..]));
    }
  }

  lemma StripLeftKeepsHexDigits(s: string)
    ensures HexDigits(Lower(StripLeft(s))) == HexDigits(Lower(s))
  {
    var l := StripLeft(s);
    var p := s[..|s| - |l|];
    assert s == p + l;
    HexDigitsOfSpaces(p);
    LowerConcat(p, l);
    HexDigitsConcat(Lower(p), Lower(l));
  }

  lemma StripRightKeepsHexDigits(s: string)
    ensures HexDigits(Lower(StripRight(s))) == HexDigits(Lower(s))
  {
    var m := StripRight(s);
    var q := s[|m|..];
    assert s == m + q;
    HexDigitsOfSpaces(q);
    LowerConcat(m, q);
    HexDigitsConcat(Lower(m), Lower(q));
  }

  /** Stripping whitespace does not change the hex digits of the lowered string. */
  lemma StripKeepsHexDigits(s: string)
    ensures HexDigits(Lower(Strip(s))) == HexDigits(Lower(s))
  {
    StripLeftKeepsHexDigits(s);
    StripRightKeepsHexDigits(StripLeft(s));
  }

  /**
   * `":".join(h[i:i+2] for i in range(0, len(h), 2))` for an even-length `h`:
   * position i of the result holds a colon when i % 3 == 2 and otherwise digit
   * i - i / 3 of `h`.
   */
  function JoinPairs(h: string): (r: string)
    requires 2 <= |h| && |h| % 2 == 0
    ensures |r| == |h| + |h| / 2 - 1
    ensures forall i :: 0 <= i < |r| ==> r[i] == (if i % 3 == 2 then ':' else h[i - i / 3])
    decreases |h|
  {
    if |h| == 2 then h else h[..2] + ":" + JoinPairs(h[2..])
  }

  /** The canonical form: six lowercase two-digit hex groups joined by colons. */
  predicate IsCanonical(m: string)
  {
    |m| == 17 && forall i :: 0 <= i < 17 ==> if i % 3 == 2 then m[i] == ':' else IsHexDigit(m[i])
  }

  /**
   * `normalize_mac`: "unknown" unless the lowered input holds exactly twelve hex
   * digits, which are then returned in order, in pairs joined by colons. The
   * early return for empty input and any-case "unknown" is subsumed: neither has
   * a hex digit.
   */
  function NormalizeMac(mac: string): (r: string)
    ensures r == Unknown || IsCanonical(r)
    ensures r != Unknown <==> |HexDigits(Lower(mac))| == 12
    ensures r != Unknown ==> forall i :: 0 <= i < 17 ==>
      r[i] == (if i % 3 == 2 then ':' else HexDigits(Lower(mac))[i - i / 3])
  {
    if mac == [] || Lower(mac) == Unknown then
      UnknownHasNoHexDigits();
      Unknown
    else
      var hexOnly := HexDigits(Lower(Strip(mac)));
      StripKeepsHexDigits(mac);
      if |hexOnly| != 12 then Unknown
      else
        var r := JoinPairs(hexOnly);
        assert |r| == 17 && |Unknown| == 7;
        assert IsCanonical(r) by {
          forall i | 0 <= i < 17 ensures if i % 3 == 2 then r[i] == ':' else IsHexDigit(r[i]) {
            if i % 3 != 2 {
              assert i - i / 3 < 12;
            }
          }
        }
        r
  }

  /** `normalize_mac` applied to a value that may be None (Python's falsy test). */
  function NormalizeMaybe(mac: Option<string>): string
  {
    match mac
    case None => Unknown
    case Some(s) => NormalizeMac(s)
  }

  /** With twelve hex digits, the result is their colon-joined pairs. */
  lemma NormalizeMacIsJoin(mac: string)
    requires |HexDigits(Lower(mac))| == 12
    ensures NormalizeMac(mac) == JoinPairs(HexDigits(Lower(mac)))
  {
    var r, j := NormalizeMac(mac), JoinPairs(HexDigits(Lower(mac)));
    assert |r| == 17 == |j|;
    forall i | 0 <= i < 17 ensures r[i] == j[i] {
    }
  }

  /** The twelve digits of a canonical address, skipping its colons. */
  function Digits(m: string): (h: string)
    requires IsCanonical(m)
    ensures |h| == 12 && forall j :: 0 <= j < 12 ==> IsHexDigit(h[j])
  {
    seq(12, j requires 0 <= j < 12 => m[j + j / 2])
  }

  /** Every canonical address is the colon-joined pairs of its digits. */
  lemma CanonicalIsJoin(m: string)
    requires IsCanonical(m)
    ensures JoinPairs(Digits(m)) == m
  {
    var h := Digits(m);
    var r := JoinPairs(h);
    forall i | 0 <= i < 17 ensures r[i] == m[i] {
      if i % 3 != 2 {
        var j := i - i / 3;
        assert j + j / 2 == i;
      }
    }
  }

  /** The hex digits of colon-joined pairs are the digits joined. */
  lemma {:induction false} JoinPairsDigits(h: string)
    requires 2 <= |h| && |h| % 2 == 0
    requires forall i :: 0 <= i < |h| ==> IsHexDigit(h[i])
    ensures HexDigits(JoinPairs(h)) == h
    decreases |h|
  {
    if |h| == 2 {
      HexDigitsOfHex(h);
    } else {
      JoinPairsDigits(h[2..]);
      HexDigitsConcat(h[..2] + ":", JoinPairs(h[2..]));
      HexDigitsConcat(h[..2], ":");
      HexDigitsOfHex(h[..2]);
      assert h == h[..2] + h[2..];
    }
  }

  /** The literal "unknown" has no hex digit. */
  lemma UnknownHasNoHexDigits()
    ensures HexDigits(Unknown) == []
  {
    assert Unknown == ['u'] + "nknown";
    assert "nknown" == ['n'] + "known";
    assert "known" == ['k'] + "nown";
    assert "nown" == ['n'] + "own";
    assert "own" == ['o'] + "wn";
    assert "wn" == ['w'] + "n";
    assert HexDigits("n") == [];
  }

  /** A canonical address is its own lower case. */
  lemma LowerCanonical(m: string)
    requires IsCanonical(m)
    ensures Lower(m) == m
  {
    forall i | 0 <= i < |m| ensures LowerChar(m[i]) == [m[i]] {
    }
    LowerIdentity(m);
  }

  /** A canonical address normalises to itself. */
  lemma CanonicalIsFixed(m: string)
    requires IsCanonical(m)
    ensures NormalizeMac(m) == m
  {
    LowerCanonical(m);
    CanonicalIsJoin(m);
    JoinPairsDigits(Digits(m));
    NormalizeMacIsJoin(m);
  }

  /** The sentinel normalises to itself. */
  lemma UnknownIsFixed()
    ensures NormalizeMac(Unknown) == Unknown
  {
    assert forall i :: 0 <= i < |Unknown| ==> LowerChar(Unknown[i]) == [Unknown[i]];
    LowerIdentity(Unknown);
    UnknownHasNoHexDigits();
  }

  /** `normalize_mac` is idempotent. */
  lemma NormalizeMacIdempotent(mac: string)
    ensures NormalizeMac(NormalizeMac(mac)) == NormalizeMac(mac)
  {
    var m := NormalizeMac(mac);
    if m == Unknown {
      UnknownIsFixed();
    } else {
      CanonicalIsFixed(m);
    }
  }

  /**
   * Two inputs with the same hex digits (after lower-casing) normalise to the
   * same result, whatever their separators and letter case.
   */
  lemma NormalizeMacVariants(a: string, b: string)
    requires HexDigits(Lower(a)) == HexDigits(Lower(b))
    ensures NormalizeMac(a) == NormalizeMac(b)
  {
    if |HexDigits(Lower(a))| == 12 {
      NormalizeMacIsJoin(a);
      NormalizeMacIsJoin(b);
    }
  }

  /** The hex digits of a lowered concatenation are those of its parts. */
  lemma LoweredDigitsConcat(a: string, b: string)
    ensures HexDigits(Lower(a + b)) == HexDigits(Lower(a)) + HexDigits(Lower(b))
  {
    LowerConcat(a, b);
    HexDigitsConcat(Lower(a), Lower(b));
  }

  /** A hex digit in either case. */
  predicate IsAnyCaseHexDigit(c: char)
  {
    IsHexDigit(c) || 'A' <= c <= 'F'
  }

  /** Hex digits of either case lower to lowercase hex digits, one for one. */
  lemma {:induction false} LowerAnyCaseHex(d: string)
    requires forall i :: 0 <= i < |d| ==> IsAnyCaseHexDigit(d[i])
    ensures |Lower(d)| == |d|
    ensures forall i :: 0 <= i < |d| ==> IsHexDigit(Lower(d)[i])
    ensures forall i :: 0 <= i < |d| ==> Lower(d)[i] == LowerChar(d[i])[0]
  {
    if d != [] {
      LowerAnyCaseHex(d[1..]);
      assert Lower(d) == LowerChar(d[0]) + Lower(d[1..]);
      assert |LowerChar(d[0])| == 1;
      forall i | 0 <= i < |d| ensures IsHexDigit(Lower(d)[i]) && Lower(d)[i] == LowerChar(d[i])[0] {
        if i > 0 {
          assert Lower(d)[i] == Lower(d[1..])[i - 1];
        }
      }
    }
  }

  /** Hex digits `d` written in pairs separated by `sep`, as the documentation spells addresses. */
  function Spelled(d: string, sep: string): string
    decreases |d|
  {
    if |d| <= 2 then d else d[..2] + sep + Spelled(d[2..], sep)
  }

  /** Hex digits of either case: lowering keeps them all as hex digits. */
  lemma LoweredHexDigits(x: string)
    requires forall i :: 0 <= i < |x| ==> IsAnyCaseHexDigit(x[i])
    ensures HexDigits(Lower(x)) == Lower(x)
  {
    LowerAnyCaseHex(x);
    HexDigitsOfHex(Lower(x));
  }

  /** The documented separators carry no hex digit. */
  lemma SeparatorHasNoDigits(sep: string)
    requires sep == [] || sep == [':'] || sep == ['-']
    ensures HexDigits(Lower(sep)) == []
  {
    if sep != [] {
      assert sep[1..] == [];
      assert Lower(sep) == LowerChar(sep[0]) + Lower([]);
    }
  }

  /** One pair and its separator contribute the pair's digits, lowered. */
  lemma SpelledStep(pair: string, sep: string, tail: string)
    requires forall i :: 0 <= i < |pair| ==> IsAnyCaseHexDigit(pair[i])
    requires sep == [] || sep == [':'] || sep == ['-']
    ensures HexDigits(Lower(pair + sep + tail)) == Lower(pair) + HexDigits(Lower(tail))
  {
    LoweredDigitsConcat(pair + sep, tail);
    LoweredDigitsConcat(pair, sep);
    SeparatorHasNoDigits(sep);
    LoweredHexDigits(pair);
    assert HexDigits(Lower(pair + sep)) == Lower(pair);
  }

  lemma {:induction false} SpelledDigits(d: string, sep: string)
    requires |d| % 2 == 0
    requires forall i :: 0 <= i < |d| ==> IsAnyCaseHexDigit(d[i])
    requires sep == [] || sep == [':'] || sep == ['-']
    ensures HexDigits(Lower(Spelled(d, sep))) == Lower(d)
    decreases |d|
  {
    if |d| <= 2 {
      LoweredHexDigits(d);
    } else {
      var pair, rest := d[..2], d[2..];
      SpelledDigits(rest, sep);
      SpelledStep(pair, sep, Spelled(rest, sep));
      assert d == pair + rest;
      LowerConcat(pair, rest);
    }
  }

  lemma {:induction false} SpelledWithColons(h: string)
    requires 2 <= |h| && |h| % 2 == 0
    ensures Spelled(h, ":") == JoinPairs(h)
    decreases |h|
  {
    if |h| > 2 {
      SpelledWithColons(h[2..]);
    }
  }

  /**
   * Any twelve hex digits, in any letter case, written bare or in pairs
   * separated by '-' or ':', normalise to the lowercase colon spelling
   * ("AA-BB-CC-DD-EE-FF", "aabbccddeeff" and "Aa:Bb:Cc:Dd:Ee:Ff" all give
   * "aa:bb:cc:dd:ee:ff").
   */
  lemma NormalizeMacSpellings(d: string, sep: string)
    requires |d| == 12 && forall i :: 0 <= i < 12 ==> IsAnyCaseHexDigit(d[i])
    requires sep == [] || sep == [':'] || sep == ['-']
    ensures NormalizeMac(Spelled(d, sep)) == Spelled(Lower(d), ":")
  {
    SpelledDigits(d, sep);
    LowerAnyCaseHex(d);
    NormalizeMacIsJoin(Spelled(d, sep));
    SpelledWithColons(Lower(d));
  }

  /** Bit value 0b10 of an octet, read with bit-vector `&` and with integer division. */
  lemma OctetBit(x: nat)
    requires x < 256
    ensures ((x as bv8) & 0x02 != 0) <==> (x / 2) % 2 == 1
  {
  }

  /** Bit 0b10 of the octet written `hi lo` in hex lies in the low digit. */
  lemma OctetBitOfDigits(hi: nat, lo: nat)
    requires hi < 16 && lo < 16
    ensures ((hi * 16 + lo) / 2) % 2 == 1 <==> lo % 4 >= 2
  {
    assert (hi * 16 + lo) / 2 == hi * 8 + lo / 2;
  }

  /** `first_octet & 0b10` for a first octet written as two hex digits `hi`, `lo`. */
  function UniversalLocalBit(hi: char, lo: char): (isLocal: bool)
    requires IsHexDigit(hi) && IsHexDigit(lo)
    ensures isLocal <==> HexValue(lo) % 4 >= 2
  {
    var a, b := HexValue(hi), HexValue(lo);
    var firstOctet := a * 16 + b;
    assert firstOctet < 256;
    OctetBit(firstOctet);
    OctetBitOfDigits(a, b);
    (firstOctet as bv8) & 0x02 != 0
  }

  /**
   * `is_random_mac`: the U/L bit (bit value 0b10 of the first octet, the
   * locally administered bit of IEEE Std 802-2014, clause 8) of the normalised
   * address; false for anything that does not normalise. That bit is bit 1 of
   * the second hex digit of the input.
   */
  function IsRandomMac(mac: string): (r: bool)
    ensures NormalizeMac(mac) == Unknown ==> !r
    ensures r <==> var h := HexDigits(Lower(mac)); |h| == 12 && HexValue(h[1]) % 4 >= 2
  {
    var m := NormalizeMac(mac);
    if m == Unknown then false
    else UniversalLocalBit(m[0], m[1])
  }

  /** The hex digits, in either case, whose value has bit 0b10 set. */
  predicate HasLocalBit(c: char)
  {
    || c == '2' || c == '3' || c == '6' || c == '7'
    || c == 'a' || c == 'b' || c == 'e' || c == 'f'
    || c == 'A' || c == 'B' || c == 'E' || c == 'F'
  }

  lemma LocalBitDigit(c: char)
    requires IsAnyCaseHexDigit(c)
    ensures IsHexDigit(LowerChar(c)[0])
    ensures HexValue(LowerChar(c)[0]) % 4 >= 2 <==> HasLocalBit(c)
  {
  }

  /** Whether an address written in any documented spelling is random depends only on its second digit. */
  lemma IsRandomMacSpellings(d: string, sep: string)
    requires |d| == 12 && forall i :: 0 <= i < 12 ==> IsAnyCaseHexDigit(d[i])
    requires sep == [] || sep == [':'] || sep == ['-']
    ensures IsRandomMac(Spelled(d, sep)) <==> HasLocalBit(d[1])
  {
    SpelledDigits(d, sep);
    LowerAnyCaseHex(d);
    LocalBitDigit(d[1]);
  }

  /** An address whose first octet is 02 is locally administered. */
  lemma IsRandomMacLocalExample(d: string)
    requires |d| == 12 && forall i :: 0 <= i < 12 ==> IsAnyCaseHexDigit(d[i])
    requires d[0] == '0' && d[1] == '2'
    ensures IsRandomMac(Spelled(d, ":"))
  {
    IsRandomMacSpellings(d, ":");
  }

  /** An address whose first octet is 00 is not. */
  lemma IsRandomMacUniversalExample(d: string)
    requires |d| == 12 && forall i :: 0 <= i < 12 ==> IsAnyCaseHexDigit(d[i])
    requires d[0] == '0' && d[1] == '0'
    ensures !IsRandomMac(Spelled(d, ":"))
  {
    IsRandomMacSpellings(d, ":");
  }

  /** The sentinel is not random. */
  lemma IsRandomMacUnknownExample()
    ensures !IsRandomMac(Unknown)
  {
    UnknownIsFixed();
  }
}
