/**
 * Device-type classification from a vendor string (extras.py): a randomised
 * address overrides everything; otherwise five keyword lists are tried in a
 * fixed order and the first that matches names the type.
 */
module Classifier {
  import opened Wrappers
  import opened Text
  import MacAddress

  datatype DeviceType =
    | RandomDevice | Phone | AppleDevice | LaptopPc | NetworkDevice | IotDevice | GenericDevice
  {
    /** The label the scanner prints. */
    function Label(): string
    {
      match this
      case RandomDevice => "Random Device"
      case Phone => "Phone"
      case AppleDevice => "Apple Device"
      case LaptopPc => "Laptop/PC"
      case NetworkDevice => "Network Device"
      case IotDevice => "IoT Device"
      case GenericDevice => "Device"
    }
  }

  const PhoneKeywords: seq<string> := [
    "samsung", "xiaomi", "redmi", "oneplus", "oppo", "vivo", "realme",
    "motorola", "google", "hmd", "lenovo", "lg electronics", "sony mobile"]

  const AppleKeywords: seq<string> := ["apple"]

  const PcKeywords: seq<string> := [
    "intel", "cloud network technology", "azurewave", "lite-on", "compal",
    "quanta", "pegatron", "hon hai", "lenovo", "hp", "dell"]

  const NetworkKeywords: seq<string> := [
    "aruba", "cisco", "tp-link", "mikrotik", "ubiquiti", "juniper", "netgear",
    "d-link", "hewlett"]

  const IotKeywords: seq<string> := [
    "espressif", "tuya", "sonos", "hikvision", "bosch", "murata", "wyze",
    "amazon", "ecobee", "bose"]

  /** `(vendor or "").lower().strip()` */
  function CleanVendor(vendor: Option<string>): string
  {
    Strip(Lower(vendor.GetOr("")))
  }

  /** `vendor.replace(",", " ").replace("-", " ").split()` */
  function Tokens(vendor: string): seq<string>
  {
    Split(ReplaceChar(ReplaceChar(vendor, ',', ' '), '-', ' '))
  }

  /** The inner `match_any`: some keyword is a substring of the vendor or equals one of its tokens. */
  predicate MatchAny(vendor: string, tokens: seq<string>, keywords: seq<string>)
  {
    || (exists i :: 0 <= i < |keywords| && Contains(vendor, keywords[i]))
    || (exists i :: 0 <= i < |keywords| && keywords[i] in tokens)
  }

  /** Some keyword is a substring of the vendor. */
  predicate ContainsAny(vendor: string, keywords: seq<string>)
  {
    exists i :: 0 <= i < |keywords| && Contains(vendor, keywords[i])
  }

  /**
   * The classifier as a prioritised rule table: (type, keywords) pairs tried in
   * order with plain substring matching, falling back to the generic label.
   */
  const Rules: seq<(DeviceType, seq<string>)> := [
    (Phone, PhoneKeywords), (AppleDevice, AppleKeywords), (LaptopPc, PcKeywords),
    (NetworkDevice, NetworkKeywords), (IotDevice, IotKeywords)]

  /** The type of the first rule some keyword of which occurs in `vendor`. */
  function FirstMatch(rules: seq<(DeviceType, seq<string>)>, vendor: string): DeviceType
  {
    if rules == [] then GenericDevice
    else if ContainsAny(vendor, rules[0].1) then rules[0].0
    else FirstMatch(rules[1..], vendor)
  }

  /** Every token of a string occurs in it as a substring (the source's tokens add no matches). */
  lemma {:induction false} WordsOccur(s: string, v: string)
    requires |s| == |v|
    requires forall k :: 0 <= k < |s| && !IsSpace(s[k]) ==> s[k] == v[k]
    ensures forall w :: w in Split(s) ==> Contains(v, w)
    decreases |s|
  {
    if s != [] {
      if IsSpace(s[0]) {
        WordsOccur(s[1..], v[1..]);
        forall w | w in Split(s[1..]) ensures Contains(v, w) {
          ContainsSuffix(v, 1, w);
        }
      } else {
        var n := WordLength(s);
        assert s[..n] == v[..n];
        assert IsPrefix(v[..n], v);
        WordsOccur(s[n..], v[n..]);
        forall w | w in Split(s[n..]) ensures Contains(v, w) {
          ContainsSuffix(v, n, w);
        }
      }
    }
  }

  /** `match_any` is plain substring matching: a keyword equal to a token is a substring. */
  lemma MatchAnyIsContainment(vendor: string, keywords: seq<string>)
    ensures MatchAny(vendor, Tokens(vendor), keywords) <==> ContainsAny(vendor, keywords)
  {
    var s := ReplaceChar(ReplaceChar(vendor, ',', ' '), '-', ' ');
    WordsOccur(s, vendor);
    if exists i :: 0 <= i < |keywords| && keywords[i] in Tokens(vendor) {
      var i :| 0 <= i < |keywords| && keywords[i] in Tokens(vendor);
      assert Contains(vendor, keywords[i]);
    }
  }

  /** The keyword chain of `classify_device_type`, applied to the cleaned vendor string. */
  function ClassifyVendor(v: string): DeviceType
  {
    var tokens := Tokens(v);
    if MatchAny(v, tokens, PhoneKeywords) then Phone
    else if Contains(v, "apple") || "apple" in tokens then AppleDevice
    else if MatchAny(v, tokens, PcKeywords) then LaptopPc
    else if MatchAny(v, tokens, NetworkKeywords) then NetworkDevice
    else if MatchAny(v, tokens, IotKeywords) then IotDevice
    else GenericDevice
  }

  /** The rule table, unrolled. */
  lemma RulesUnfold(v: string)
    ensures FirstMatch(Rules, v) ==
      if ContainsAny(v, PhoneKeywords) then Phone
      else if ContainsAny(v, AppleKeywords) then AppleDevice
      else if ContainsAny(v, PcKeywords) then LaptopPc
      else if ContainsAny(v, NetworkKeywords) then NetworkDevice
      else if ContainsAny(v, IotKeywords) then IotDevice
      else GenericDevice
  {
    var r0 := Rules;
    var r1 := r0[1..];
    var r2 := r1[1..];
    var r3 := r2[1..];
    var r4 := r3[1..];
    assert r0[0] == (Phone, PhoneKeywords);
    assert r1[0] == (AppleDevice, AppleKeywords);
    assert r2[0] == (LaptopPc, PcKeywords);
    assert r3[0] == (NetworkDevice, NetworkKeywords);
    assert r4[0] == (IotDevice, IotKeywords);
    assert r4[1..] == [];
    assert FirstMatch(r4, v) == if ContainsAny(v, IotKeywords) then IotDevice else GenericDevice;
    assert FirstMatch(r3, v) == if ContainsAny(v, NetworkKeywords) then NetworkDevice else FirstMatch(r4, v);
    assert FirstMatch(r2, v) == if ContainsAny(v, PcKeywords) then LaptopPc else FirstMatch(r3, v);
    assert FirstMatch(r1, v) == if ContainsAny(v, AppleKeywords) then AppleDevice else FirstMatch(r2, v);
  }

  /** The source's Apple test is `match_any(["apple"])`. */
  lemma AppleTest(v: string)
    ensures (Contains(v, "apple") || "apple" in Tokens(v)) <==> MatchAny(v, Tokens(v), AppleKeywords)
  {
    assert AppleKeywords[0] == "apple";
  }

  /** The keyword chain is the rule table evaluated with plain substring matching. */
  lemma ClassifyVendorIsFirstMatch(v: string)
    ensures ClassifyVendor(v) == FirstMatch(Rules, v)
  {
    RulesUnfold(v);
    AppleTest(v);
    MatchAnyIsContainment(v, PhoneKeywords);
    MatchAnyIsContainment(v, AppleKeywords);
    MatchAnyIsContainment(v, PcKeywords);
    MatchAnyIsContainment(v, NetworkKeywords);
    MatchAnyIsContainment(v, IotKeywords);
  }

  /**
   * `classify_device_type`: RandomDevice exactly when the randomisation flag is
   * set; otherwise the first rule of the table that matches the cleaned vendor.
   */
  function ClassifyDeviceType(mac: string, vendor: Option<string>, random: bool): (t: DeviceType)
    ensures random <==> t == RandomDevice
    ensures !random ==> t == FirstMatch(Rules, CleanVendor(vendor))
  {
    if random then RandomDevice
    else
      ClassifyVendorIsFirstMatch(CleanVendor(vendor));
      RulesUnfold(CleanVendor(vendor));
      ClassifyVendor(CleanVendor(vendor))
  }

  /** `classify_device`: the same classification after normalising the address, which it never reads. */
  function ClassifyDevice(mac: string, vendor: Option<string>, randomFlag: bool): (t: DeviceType)
    ensures forall other :: t == ClassifyDeviceType(other, vendor, randomFlag)
  {
    ClassifyDeviceType(MacAddress.NormalizeMac(mac), vendor, randomFlag)
  }

  /** The phone list is tried first: a vendor mentioning "lenovo", which is on both the phone and PC lists, is a Phone. */
  lemma LenovoIsPhone(mac: string, vendor: Option<string>, keyword: string)
    requires keyword == "lenovo"
    requires Contains(CleanVendor(vendor), keyword)
    ensures keyword in PhoneKeywords && keyword in PcKeywords
    ensures ClassifyDeviceType(mac, vendor, false) == Phone
  {
    assert PhoneKeywords[10] == keyword;
    assert PcKeywords[8] == keyword;
    PhoneKeywordWins(CleanVendor(vendor), 10);
  }

  /** Any phone keyword in the vendor decides the table: Phone. */
  lemma PhoneKeywordWins(v: string, i: nat)
    requires i < |PhoneKeywords| && Contains(v, PhoneKeywords[i])
    ensures FirstMatch(Rules, v) == Phone
  {
    assert Rules[0] == (Phone, PhoneKeywords);
    assert ContainsAny(v, Rules[0].1);
  }

  /** Apple wins over the PC, network and IoT lists, and never yields RandomDevice unless flagged. */
  lemma AppleOutranksLaterLists(mac: string, vendor: Option<string>)
    requires Contains(CleanVendor(vendor), "apple")
    requires !ContainsAny(CleanVendor(vendor), PhoneKeywords)
    ensures ClassifyDeviceType(mac, vendor, false) == AppleDevice
  {
    RulesUnfold(CleanVendor(vendor));
    assert AppleKeywords[0] == "apple";
  }

  /**
   * The five lists are tried in the fixed order Phone, Apple, Laptop/PC,
   * Network, IoT: the table gives each type exactly when one of its keywords
   * occurs in the vendor `v` and no keyword of an earlier list does (and
   * `ClassifyDeviceType` gives what the table gives).
   */
  lemma RulePriority(v: string, t: DeviceType)
    requires t == FirstMatch(Rules, v)
    ensures t == Phone <==> ContainsAny(v, PhoneKeywords)
    ensures t == AppleDevice <==> !ContainsAny(v, PhoneKeywords) && ContainsAny(v, AppleKeywords)
    ensures t == LaptopPc <==>
      !ContainsAny(v, PhoneKeywords) && !ContainsAny(v, AppleKeywords) && ContainsAny(v, PcKeywords)
    ensures t == NetworkDevice <==>
      && !ContainsAny(v, PhoneKeywords) && !ContainsAny(v, AppleKeywords) && !ContainsAny(v, PcKeywords)
      && ContainsAny(v, NetworkKeywords)
    ensures t == IotDevice <==>
      && !ContainsAny(v, PhoneKeywords) && !ContainsAny(v, AppleKeywords) && !ContainsAny(v, PcKeywords)
      && !ContainsAny(v, NetworkKeywords) && ContainsAny(v, IotKeywords)
  {
    RulesUnfold(v);
  }
}
