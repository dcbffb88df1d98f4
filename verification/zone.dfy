/**
 * The MAC-visibility zone heuristic of extras.py: how many hosts of a group
 * expose a hardware address that normalises.
 */
module Zone {
  import opened Wrappers
  import opened Devices
  import MacAddress

  datatype Zone = L2Local | L2Nearby | L3Remote {
    /** The label the scanner prints. */
    function Label(): string
    {
      match this
      case L2Local => "L2-LOCAL"
      case L2Nearby => "L2-NEARBY"
      case L3Remote => "L3-REMOTE"
    }

    /** Visibility order: remote below nearby below local. */
    function Rank(): nat
    {
      match this
      case L3Remote => 0
      case L2Nearby => 1
      case L2Local => 2
    }
  }

  /** `normalize_mac(d.get("mac", "")) != "unknown"` */
  predicate HasVisibleMac(d: Device)
  {
    MacAddress.NormalizeMaybe(d.mac) != MacAddress.Unknown
  }

  /** `mac_count`: the number of devices whose address normalises. */
  function CountVisible(devs: seq<Device>): (n: nat)
    ensures n <= |devs|
    ensures n == 0 <==> forall i :: 0 <= i < |devs| ==> !HasVisibleMac(devs[i])
  {
    if devs == [] then 0
    else
      var rest := CountVisible(devs[1..]);
      assert forall i :: 1 <= i < |devs| ==> devs[i] == devs[1..][i - 1];
      (if HasVisibleMac(devs[0]) then 1 else 0) + rest
  }

  lemma {:induction false} CountVisibleAppend(devs: seq<Device>, d: Device)
    ensures CountVisible(devs + [d]) == CountVisible(devs) + (if HasVisibleMac(d) then 1 else 0)
  {
    if devs != [] {
      assert (devs + [d])[1..] == devs[1..] + [d];
      CountVisibleAppend(devs[1..], d);
    } else {
      assert [] + [d] == [d];
    }
  }

  lemma MulMonotone(a: real, b: real, k: real)
    requires k > 0.0 && a <= b
    ensures a * k <= b * k
    ensures a < b ==> a * k < b * k
  {
  }

  /** The source's float ratio test against one half, over the integers. */
  lemma RatioBelowHalf(count: nat, n: nat)
    requires n > 0
    ensures (count as real) / (n as real) < 0.5 <==> 2 * count < n
  {
    var k := n as real;
    var r := (count as real) / k;
    assert r * k == count as real;
    if r < 0.5 {
      MulMonotone(r, 0.5, k);
    } else {
      MulMonotone(0.5, r, k);
    }
  }

  /**
   * `detect_zone`: remote when no host (or no host with a visible address) is
   * given, nearby when under half of the hosts show one, local otherwise. The
   * source compares the float `mac_count / len(dev_list)` with 0.5; stated
   * here over the reals.
   */
  function DetectZone(devs: seq<Device>): (z: Zone)
    ensures devs == [] ==> z == L3Remote
    ensures z == L3Remote <==> forall i :: 0 <= i < |devs| ==> !HasVisibleMac(devs[i])
    ensures z == L2Nearby <==>
      devs != [] && CountVisible(devs) > 0 && (CountVisible(devs) as real) / (|devs| as real) < 0.5
    ensures z == L2Local <==>
      devs != [] && (CountVisible(devs) as real) / (|devs| as real) >= 0.5
  {
    if devs == [] then L3Remote
    else
      var macCount := CountVisible(devs);
      RatioBelowHalf(macCount, |devs|);
      if macCount == 0 then L3Remote
      else if 2 * macCount < |devs| then L2Nearby
      else L2Local
  }

  /** A host that shows its address never lowers the zone; one that does not never raises it. */
  lemma AddHostMonotone(devs: seq<Device>, d: Device)
    ensures HasVisibleMac(d) ==> DetectZone(devs + [d]).Rank() >= DetectZone(devs).Rank()
    ensures !HasVisibleMac(d) ==> DetectZone(devs + [d]).Rank() <= DetectZone(devs).Rank()
  {
    CountVisibleAppend(devs, d);
  }

  /** Exactly half of the hosts showing an address is LOCAL (five of ten); four of ten is NEARBY. */
  lemma ZoneBoundary(devs: seq<Device>)
    requires |devs| > 0
    ensures 2 * CountVisible(devs) == |devs| ==> DetectZone(devs) == L2Local
    ensures 0 < 2 * CountVisible(devs) < |devs| ==> DetectZone(devs) == L2Nearby
  {
  }
}
