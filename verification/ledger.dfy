/**
 * The cross-scan device ledger of json_memory.py: a MAC-keyed store of
 * everything ever seen, folded forward one scan at a time, and the two diffs
 * the scanner reads back from it (which devices are new, which are offline).
 */
module Ledger {
  import opened Wrappers
  import opened Text
  import opened OrderedMap
  import opened Devices
  import MacAddress

  /** The vendor sentinel. */
  const UnknownVendor: string := "unknown vendor"

  /**
   * One persisted record, `memory[mac]`. A count or vendor missing from a
   * loaded record is None; timestamps are whole seconds.
   */
  datatype Entry = Entry(
    mac: string,
    firstSeen: int,
    lastSeen: int,
    lastIp: string,
    ipsSeen: seq<string>,
    seenCount: Option<int>,
    vendor: Option<string>)

  /** The store, keyed by the raw MAC string, in insertion order. */
  type Memory = Dict<string, Entry>

  // ---------------------------------------------------------------------------
  // Vendor lookup

  /** The grep key `mac[:8].replace(":", "").upper()`. */
  function OuiKey(mac: string): (key: string)
    ensures |key| <= 8
  {
    UpperAscii(RemoveChar(if |mac| <= 8 then mac else mac[..8], ':'))
  }

  lemma RemoveTrailingSeparator(x: string)
    requires ':' !in x
    ensures RemoveChar(x + [':'], ':') == x
  {
    RemoveCharConcat(x, [':'], ':');
    RemoveCharAbsent(x, ':');
    assert RemoveChar([':'], ':') == [];
  }

  lemma RemoveSeparators(a: string, b: string, c: string)
    requires ':' !in a && ':' !in b && ':' !in c
    ensures RemoveChar(a + [':'] + b + [':'] + c, ':') == a + b + c
  {
    var x, y := a + [':'], b + [':'];
    assert a + [':'] + b + [':'] + c == (x + y) + c;
    RemoveCharConcat(x + y, c, ':');
    RemoveCharConcat(x, y, ':');
    RemoveTrailingSeparator(a);
    RemoveTrailingSeparator(b);
    RemoveCharAbsent(c, ':');
  }

  /** The first eight characters of a canonical MAC: three octets and two colons. */
  lemma CanonicalPrefix(mac: string)
    requires MacAddress.IsCanonical(mac)
    ensures mac[..8] == mac[0..2] + [':'] + mac[3..5] + [':'] + mac[6..8]
    ensures MacAddress.Digits(mac)[..6] == mac[0..2] + mac[3..5] + mac[6..8]
    ensures ':' !in mac[0..2] && ':' !in mac[3..5] && ':' !in mac[6..8]
  {
    assert forall i :: 0 <= i < 17 && i % 3 != 2 ==> mac[i] != ':';
  }

  /** For a canonical MAC the key is its first three octets, upper-cased, without separators. */
  lemma OuiKeyOfCanonical(mac: string)
    requires MacAddress.IsCanonical(mac)
    ensures OuiKey(mac) == UpperAscii(MacAddress.Digits(mac)[..6])
  {
    CanonicalPrefix(mac);
    RemoveSeparators(mac[0..2], mac[3..5], mac[6..8]);
  }

  /**
   * `lookup_vendor`. `search` is the output of the `grep ... | head -n1`
   * pipeline for a key (the OUI file's first matching line, or nothing);
   * `run` strips it. Empty input and the literal "unknown" are answered
   * without a lookup. The result is never empty.
   */
  function LookupVendor(mac: string, search: string -> string): (vendor: string)
    ensures mac == "" || mac == MacAddress.Unknown ==> vendor == UnknownVendor
    ensures vendor != ""
    ensures vendor == UnknownVendor || vendor == Strip(search(OuiKey(mac)))
    ensures mac != "" && mac != MacAddress.Unknown && Strip(search(OuiKey(mac))) != "" ==>
      vendor == Strip(search(OuiKey(mac)))
  {
    if mac == "" || mac == MacAddress.Unknown then UnknownVendor
    else
      var line := Strip(search(OuiKey(mac)));
      StripIdempotent(search(OuiKey(mac)));
      if line == "" then UnknownVendor else Strip(line)
  }

  /** The lookup reads the OUI file for the MAC's key and nothing else. */
  lemma LookupReadsOnlyKey(mac: string, search: string -> string, other: string -> string)
    requires other(OuiKey(mac)) == search(OuiKey(mac))
    ensures LookupVendor(mac, other) == LookupVendor(mac, search)
  {
  }

  // ---------------------------------------------------------------------------
  // update_memory

  /** `not mac or mac == "unknown"` is false: the device carries a MAC the ledger tracks. */
  predicate IsTracked(mac: Option<string>)
  {
    mac.Some? && mac.value != "" && mac.value != MacAddress.Unknown
  }

  /** `entry.get("vendor") in (None, "", "unknown vendor")` */
  predicate NeedsVendor(vendor: Option<string>)
  {
    vendor.None? || vendor.value == "" || vendor.value == UnknownVendor
  }

  /** The record created for a MAC seen for the first time. */
  function NewEntry(mac: string, ip: string, now: int, search: string -> string): Entry
  {
    Entry(mac, now, now, ip, [ip], Some(1), Some(LookupVendor(mac, search)))
  }

  /** The record of a known MAC seen again at `ip`. */
  function Revisit(e: Entry, mac: string, ip: string, now: int, search: string -> string): Entry
  {
    e.(lastSeen := now,
       lastIp := ip,
       ipsSeen := if ip in e.ipsSeen then e.ipsSeen else e.ipsSeen + [ip],
       seenCount := Some(e.seenCount.GetOr(0) + 1),
       vendor := if NeedsVendor(e.vendor) then Some(LookupVendor(mac, search)) else e.vendor)
  }

  /** The store after a pass, and the MACs the pass added. */
  datatype Outcome = Outcome(memory: Memory, newMacs: set<string>)

  /** One iteration of the loop of `update_memory`, for `devices[ip] == dev`. */
  function Observe(memory: Memory, ip: string, dev: Device, now: int, search: string -> string): Outcome
  {
    if !IsTracked(dev.mac) then Outcome(memory, {})
    else
      var mac := dev.mac.value;
      match Get(memory, mac)
      case None => Outcome(Put(memory, mac, NewEntry(mac, ip, now, search)), {mac})
      case Some(e) => Outcome(Put(memory, mac, Revisit(e, mac, ip, now, search)), {})
  }

  /** `update_memory(memory, devices)`, with `time.time()` as `now`. */
  function UpdateMemory(memory: Memory, devices: Scan, now: int, search: string -> string): Outcome
    decreases |devices|
  {
    if devices == [] then Outcome(memory, {})
    else
      var first := Observe(memory, devices[0].0, devices[0].1, now, search);
      var rest := UpdateMemory(first.memory, devices[1..], now, search);
      Outcome(rest.memory, first.newMacs + rest.newMacs)
  }

  /** The MACs a scan carries that the ledger tracks. */
  function TrackedMacs(devices: Scan): set<string>
  {
    set i | 0 <= i < |devices| && IsTracked(devices[i].1.mac) :: devices[i].1.mac.value
  }

  lemma TrackedMacsCons(devices: Scan)
    requires devices != []
    ensures TrackedMacs(devices) ==
      (if IsTracked(devices[0].1.mac) then {devices[0].1.mac.value} else {}) + TrackedMacs(devices[1..])
  {
    var rest := devices[1..];
    forall m | m in TrackedMacs(devices) && m !in TrackedMacs(rest)
      ensures IsTracked(devices[0].1.mac) && m == devices[0].1.mac.value
    {
      var i :| 0 <= i < |devices| && IsTracked(devices[i].1.mac) && devices[i].1.mac.value == m;
    }
    forall m | m in TrackedMacs(rest) ensures m in TrackedMacs(devices) {
      var i :| 0 <= i < |rest| && IsTracked(rest[i].1.mac) && rest[i].1.mac.value == m;
      assert devices[i + 1] == rest[i];
    }
  }

  /** The store after one device, as a `Put` of its record. */
  lemma ObserveIsPut(memory: Memory, ip: string, dev: Device, now: int, search: string -> string)
    requires IsTracked(dev.mac)
    ensures var mac := dev.mac.value;
      var out := Observe(memory, ip, dev, now, search);
      && out.memory == Put(memory, mac, ObservedEntry(memory, mac, ip, now, search))
      && out.newMacs == (if mac in KeySet(memory) then {} else {mac})
  {
  }

  /** The record written for `mac` seen at `ip`: new or revisited. */
  function ObservedEntry(memory: Memory, mac: string, ip: string, now: int, search: string -> string): Entry
  {
    match Get(memory, mac)
    case None => NewEntry(mac, ip, now, search)
    case Some(prev) => Revisit(prev, mac, ip, now, search)
  }

  /**
   * Exactly the tracked MACs of the scan become keys, and `new_macs` is
   * exactly the set of keys the pass added.
   */
  lemma {:induction false} UpdateMemoryKeys(memory: Memory, devices: Scan, now: int, search: string -> string)
    ensures var out := UpdateMemory(memory, devices, now, search);
      && KeySet(out.memory) == KeySet(memory) + TrackedMacs(devices)
      && out.newMacs == KeySet(out.memory) - KeySet(memory)
    decreases |devices|
  {
    if devices != [] {
      var ip, dev := devices[0].0, devices[0].1;
      var first := Observe(memory, ip, dev, now, search);
      UpdateMemoryKeys(first.memory, devices[1..], now, search);
      TrackedMacsCons(devices);
      if IsTracked(dev.mac) {
        var mac := dev.mac.value;
        ObserveIsPut(memory, ip, dev, now, search);
        PutKeySet(memory, mac, ObservedEntry(memory, mac, ip, now, search));
      }
    }
  }

  /** One observation keeps the store's keys in place, possibly appending one. */
  lemma ObserveKeyOrder(memory: Memory, ip: string, dev: Device, now: int, search: string -> string)
    ensures var next := Observe(memory, ip, dev, now, search).memory;
      |memory| <= |next| && Keys(next)[..|memory|] == Keys(memory)
  {
    if IsTracked(dev.mac) {
      var mac := dev.mac.value;
      ObserveIsPut(memory, ip, dev, now, search);
      PutKeys(memory, mac, ObservedEntry(memory, mac, ip, now, search));
    }
  }

  /** Keys keep their order: the old store's keys are a prefix of the new one's. */
  lemma {:induction false} UpdateMemoryKeyOrder(memory: Memory, devices: Scan, now: int, search: string -> string)
    ensures var out := UpdateMemory(memory, devices, now, search);
      && |memory| <= |out.memory|
      && Keys(out.memory)[..|memory|] == Keys(memory)
    decreases |devices|
  {
    if devices != [] {
      var ip, dev := devices[0].0, devices[0].1;
      var first := Observe(memory, ip, dev, now, search).memory;
      var k2 := Keys(UpdateMemory(memory, devices, now, search).memory);
      ObserveKeyOrder(memory, ip, dev, now, search);
      UpdateMemoryKeyOrder(first, devices[1..], now, search);
      assert k2[..|memory|] == k2[..|first|][..|memory|];
    }
  }

  /** The store stays a dict: no key appears twice. */
  lemma {:induction false} UpdateMemoryDistinct(memory: Memory, devices: Scan, now: int, search: string -> string)
    requires Distinct(memory)
    ensures Distinct(UpdateMemory(memory, devices, now, search).memory)
    decreases |devices|
  {
    if devices != [] {
      var ip, dev := devices[0].0, devices[0].1;
      if IsTracked(dev.mac) {
        var mac := dev.mac.value;
        ObserveIsPut(memory, ip, dev, now, search);
        PutDistinct(memory, mac, ObservedEntry(memory, mac, ip, now, search));
      }
      UpdateMemoryDistinct(Observe(memory, ip, dev, now, search).memory, devices[1..], now, search);
    }
  }

  /** Running the same scan a second time adds nothing: `new_macs` comes back empty. */
  lemma UpdateMemoryRerun(memory: Memory, devices: Scan, now: int, later: int, search: string -> string)
    ensures var once := UpdateMemory(memory, devices, now, search);
      UpdateMemory(once.memory, devices, later, search).newMacs == {}
  {
    var once := UpdateMemory(memory, devices, now, search);
    UpdateMemoryKeys(memory, devices, now, search);
    UpdateMemoryKeys(once.memory, devices, later, search);
  }

  // ---------------------------------------------------------------------------
  // What one pass does to the record of one MAC

  /** The device carries `mac` and the ledger tracks it. */
  predicate Carries(dev: Device, mac: string)
  {
    IsTracked(dev.mac) && dev.mac.value == mac
  }

  /** The IPs (the scan's keys) at which the scan shows `mac`, in scan order. */
  function IpsCarrying(devices: Scan, mac: string): (ips: seq<string>)
    ensures |ips| <= |devices|
  {
    if devices == [] then []
    else (if Carries(devices[0].1, mac) then [devices[0].0] else []) + IpsCarrying(devices[1..], mac)
  }

  /** An IP is among `IpsCarrying` exactly when the scan's entry for it carries the MAC. */
  lemma {:induction false} IpsCarryingMembers(devices: Scan, mac: string)
    ensures forall ip :: ip in IpsCarrying(devices, mac) <==>
      exists i :: 0 <= i < |devices| && devices[i].0 == ip && Carries(devices[i].1, mac)
    decreases |devices|
  {
    if devices != [] {
      IpsCarryingMembers(devices[1..], mac);
      assert forall i :: 0 <= i < |devices[1..]| ==> devices[1..][i] == devices[i + 1];
    }
  }

  /** `seen_count` as the ledger reads it: no record, or no count, reads as 0. */
  function SeenCount(memory: Memory, mac: string): int
  {
    match Get(memory, mac)
    case None => 0
    case Some(e) => e.seenCount.GetOr(0)
  }

  lemma ObserveEffect(memory: Memory, ip: string, dev: Device, now: int, search: string -> string, mac: string)
    ensures var after := Get(Observe(memory, ip, dev, now, search).memory, mac);
      if Carries(dev, mac) then after == Some(ObservedEntry(memory, mac, ip, now, search))
      else after == Get(memory, mac)
  {
    if IsTracked(dev.mac) {
      ObserveIsPut(memory, ip, dev, now, search);
      if dev.mac.value != mac {
        PutOther(memory, dev.mac.value, ObservedEntry(memory, dev.mac.value, ip, now, search), mac);
      }
    }
  }

  /** A MAC the scan does not carry keeps its record exactly (or stays absent). */
  lemma {:induction false} UpdateMemoryUntouched(memory: Memory, devices: Scan, now: int, search: string -> string, mac: string)
    requires IpsCarrying(devices, mac) == []
    ensures Get(UpdateMemory(memory, devices, now, search).memory, mac) == Get(memory, mac)
    decreases |devices|
  {
    if devices != [] {
      ObserveEffect(memory, devices[0].0, devices[0].1, now, search, mac);
      UpdateMemoryUntouched(Observe(memory, devices[0].0, devices[0].1, now, search).memory, devices[1..], now, search, mac);
    }
  }

  /** A MAC the scan carries is last seen now, at the last IP that showed it. */
  lemma {:induction false} UpdateMemoryLastSeen(memory: Memory, devices: Scan, now: int, search: string -> string, mac: string)
    requires IpsCarrying(devices, mac) != []
    ensures var ips := IpsCarrying(devices, mac);
      var after := Get(UpdateMemory(memory, devices, now, search).memory, mac);
      && after.Some?
      && after.value.lastSeen == now
      && after.value.lastIp == ips[|ips| - 1]
    decreases |devices|
  {
    var ip, dev := devices[0].0, devices[0].1;
    var mem1 := Observe(memory, ip, dev, now, search).memory;
    var rest := devices[1..];
    var ips, later := IpsCarrying(devices, mac), IpsCarrying(rest, mac);
    ObserveEffect(memory, ip, dev, now, search, mac);
    IpsCarryingCons(devices, mac);
    if later != [] {
      UpdateMemoryLastSeen(mem1, rest, now, search, mac);
      if Carries(dev, mac) {
        assert ips == [ip] + later;
        assert ips[|ips| - 1] == later[|later| - 1];
      }
    } else {
      UpdateMemoryUntouched(mem1, rest, now, search, mac);
      assert ips == [ip];
    }
  }

  /** First-seen and the stored MAC come from an existing record, or are now and the key for a new one. */
  lemma {:induction false} UpdateMemoryFirstSeen(memory: Memory, devices: Scan, now: int, search: string -> string, mac: string)
    requires IpsCarrying(devices, mac) != []
    ensures var prev := Get(memory, mac);
      var after := Get(UpdateMemory(memory, devices, now, search).memory, mac);
      && after.Some?
      && after.value.firstSeen == (if prev.Some? then prev.value.firstSeen else now)
      && after.value.mac == (if prev.Some? then prev.value.mac else mac)
    decreases |devices|
  {
    var ip, dev := devices[0].0, devices[0].1;
    var mem1 := Observe(memory, ip, dev, now, search).memory;
    var rest := devices[1..];
    ObserveEffect(memory, ip, dev, now, search, mac);
    IpsCarryingCons(devices, mac);
    if IpsCarrying(rest, mac) != [] {
      UpdateMemoryFirstSeen(mem1, rest, now, search, mac);
    } else {
      UpdateMemoryUntouched(mem1, rest, now, search, mac);
    }
  }

  /**
   * A MAC the scan carries has a record afterwards: last seen now, at the
   * last IP that showed it; first seen and the stored MAC are kept from an
   * existing record, or are now and the key for a new one.
   */
  lemma UpdateMemoryRecord(memory: Memory, devices: Scan, now: int, search: string -> string, mac: string)
    requires IpsCarrying(devices, mac) != []
    ensures var ips := IpsCarrying(devices, mac);
      var prev := Get(memory, mac);
      var after := Get(UpdateMemory(memory, devices, now, search).memory, mac);
      && after.Some?
      && after.value.lastSeen == now
      && after.value.lastIp == ips[|ips| - 1]
      && after.value.firstSeen == (if prev.Some? then prev.value.firstSeen else now)
      && after.value.mac == (if prev.Some? then prev.value.mac else mac)
  {
    UpdateMemoryLastSeen(memory, devices, now, search, mac);
    UpdateMemoryFirstSeen(memory, devices, now, search, mac);
  }

  /** `seen_count` grows by the number of times the scan shows the MAC. */
  lemma {:induction false} UpdateMemorySeenCount(memory: Memory, devices: Scan, now: int, search: string -> string, mac: string)
    ensures SeenCount(UpdateMemory(memory, devices, now, search).memory, mac)
         == SeenCount(memory, mac) + |IpsCarrying(devices, mac)|
    decreases |devices|
  {
    if devices != [] {
      var ip, dev := devices[0].0, devices[0].1;
      ObserveEffect(memory, ip, dev, now, search, mac);
      UpdateMemorySeenCount(Observe(memory, ip, dev, now, search).memory, devices[1..], now, search, mac);
    }
  }

  /**
   * The vendor is backfilled: a stored vendor other than the blank and
   * unknown sentinels is kept; otherwise the record ends with a fresh lookup.
   */
  lemma {:induction false} UpdateMemoryVendor(memory: Memory, devices: Scan, now: int, search: string -> string, mac: string)
    requires IpsCarrying(devices, mac) != []
    ensures var prev := Get(memory, mac);
      var after := Get(UpdateMemory(memory, devices, now, search).memory, mac);
      && after.Some?
      && after.value.vendor ==
           (if prev.Some? && !NeedsVendor(prev.value.vendor) then prev.value.vendor
            else Some(LookupVendor(mac, search)))
    decreases |devices|
  {
    var ip, dev := devices[0].0, devices[0].1;
    var mem1 := Observe(memory, ip, dev, now, search).memory;
    ObserveEffect(memory, ip, dev, now, search, mac);
    var rest := devices[1..];
    if IpsCarrying(rest, mac) != [] {
      UpdateMemoryVendor(mem1, rest, now, search, mac);
    } else {
      UpdateMemoryUntouched(mem1, rest, now, search, mac);
    }
  }

  /** No element occurs twice. */
  predicate NoDuplicates<T(==)>(s: seq<T>)
  {
    forall i, j :: 0 <= i < j < |s| ==> s[i] != s[j]
  }

  /** The IP history of the record `mac` has (empty when there is none). */
  function IpHistory(memory: Memory, mac: string): seq<string>
  {
    match Get(memory, mac)
    case None => []
    case Some(e) => e.ipsSeen
  }

  /**
   * The IPs of `ips`, in order, that are new to a history `seen`: each is
   * kept unless `seen` or an earlier IP of `ips` already holds it.
   */
  function Fresh(ips: seq<string>, seen: seq<string>): (r: seq<string>)
    ensures forall x :: x in r <==> x in ips && x !in seen
    ensures NoDuplicates(r)
    decreases |ips|
  {
    if ips == [] then []
    else if ips[0] in seen then Fresh(ips[1..], seen)
    else
      var tail := Fresh(ips[1..], seen + [ips[0]]);
      var r := [ips[0]] + tail;
      assert forall j :: 1 <= j < |r| ==> r[j] == tail[j - 1] && r[j] in tail;
      r
  }

  /** Appending duplicate-free IPs that a duplicate-free history lacks keeps it duplicate-free. */
  lemma NoDuplicatesAppend(a: seq<string>, b: seq<string>)
    requires NoDuplicates(a) && NoDuplicates(b)
    requires forall x :: x in b ==> x !in a
    ensures NoDuplicates(a + b)
  {
    forall i, j | 0 <= i < j < |a + b| ensures (a + b)[i] != (a + b)[j] {
      if i < |a| && j >= |a| {
        assert (a + b)[j] == b[j - |a|] && b[j - |a|] in b;
      } else if i >= |a| {
        assert (a + b)[i] == b[i - |a|] && (a + b)[j] == b[j - |a|];
      }
    }
  }

  /** A history after the record is seen again at `ip`. */
  function WithIp(history: seq<string>, ip: string): seq<string>
  {
    if ip in history then history else history + [ip]
  }

  /** One observation extends the MAC's history by its IP if it carries the MAC. */
  lemma ObserveIps(memory: Memory, ip: string, dev: Device, now: int, search: string -> string, mac: string)
    ensures IpHistory(Observe(memory, ip, dev, now, search).memory, mac) ==
      if Carries(dev, mac) then WithIp(IpHistory(memory, mac), ip) else IpHistory(memory, mac)
  {
    ObserveEffect(memory, ip, dev, now, search, mac);
    if Carries(dev, mac) && Get(memory, mac).None? {
      assert [] + [ip] == [ip];
    }
  }

  /** Fresh IPs of a scan starting at `ip`: `ip` first when new, then the rest against the extended history. */
  lemma FreshStep(ip: string, rest: seq<string>, history: seq<string>)
    ensures history + Fresh([ip] + rest, history) == WithIp(history, ip) + Fresh(rest, WithIp(history, ip))
  {
    var ips := [ip] + rest;
    assert ips[0] == ip && ips[1..] == rest;
    if ip !in history {
      assert history + ([ip] + Fresh(rest, history + [ip])) == (history + [ip]) + Fresh(rest, history + [ip]);
    }
  }

  lemma IpsCarryingCons(devices: Scan, mac: string)
    requires devices != []
    ensures IpsCarrying(devices, mac) ==
      if Carries(devices[0].1, mac) then [devices[0].0] + IpsCarrying(devices[1..], mac)
      else IpsCarrying(devices[1..], mac)
  {
  }

  /** The IP history after the pass is the one before, extended by the scan's fresh IPs for the MAC. */
  lemma {:induction false} UpdateMemoryIpsAppend(memory: Memory, devices: Scan, now: int, search: string -> string, mac: string)
    ensures var before := IpHistory(memory, mac);
      IpHistory(UpdateMemory(memory, devices, now, search).memory, mac)
        == before + Fresh(IpsCarrying(devices, mac), before)
    decreases |devices|
  {
    var before := IpHistory(memory, mac);
    if devices != [] {
      var ip, dev := devices[0].0, devices[0].1;
      var mem1 := Observe(memory, ip, dev, now, search).memory;
      ObserveIps(memory, ip, dev, now, search, mac);
      UpdateMemoryIpsAppend(mem1, devices[1..], now, search, mac);
      IpsCarryingCons(devices, mac);
      if Carries(dev, mac) {
        FreshStep(ip, IpsCarrying(devices[1..], mac), before);
      }
    } else {
      assert before + [] == before;
    }
  }

  /**
   * `ips_seen` only grows at the end, by exactly the scan's IPs for the MAC
   * that it did not hold yet, in scan order and each once.
   */
  lemma UpdateMemoryIps(memory: Memory, devices: Scan, now: int, search: string -> string, mac: string)
    ensures var before := IpHistory(memory, mac);
      var after := IpHistory(UpdateMemory(memory, devices, now, search).memory, mac);
      && after == before + Fresh(IpsCarrying(devices, mac), before)
      && (forall ip :: ip in after <==> ip in before || ip in IpsCarrying(devices, mac))
      && (NoDuplicates(before) ==> NoDuplicates(after))
  {
    var before := IpHistory(memory, mac);
    var added := Fresh(IpsCarrying(devices, mac), before);
    UpdateMemoryIpsAppend(memory, devices, now, search, mac);
    if NoDuplicates(before) {
      NoDuplicatesAppend(before, added);
    }
  }

  /** A scan whose devices carry no tracked MAC leaves the store exactly as it was. */
  lemma {:induction false} UpdateMemoryIgnoresUntracked(memory: Memory, devices: Scan, now: int, search: string -> string)
    requires TrackedMacs(devices) == {}
    ensures UpdateMemory(memory, devices, now, search) == Outcome(memory, {})
    decreases |devices|
  {
    if devices != [] {
      TrackedMacsCons(devices);
      UpdateMemoryIgnoresUntracked(memory, devices[1..], now, search);
    }
  }

  /** A well-formed store: a dict whose every IP history is duplicate-free. */
  predicate WellFormed(memory: Memory)
  {
    && Distinct(memory)
    && forall i :: 0 <= i < |memory| ==> NoDuplicates(memory[i].1.ipsSeen)
  }

  /** `update_memory` keeps the store well formed. */
  lemma UpdateMemoryWellFormed(memory: Memory, devices: Scan, now: int, search: string -> string)
    requires WellFormed(memory)
    ensures WellFormed(UpdateMemory(memory, devices, now, search).memory)
  {
    var out := UpdateMemory(memory, devices, now, search).memory;
    UpdateMemoryDistinct(memory, devices, now, search);
    forall i | 0 <= i < |out| ensures NoDuplicates(out[i].1.ipsSeen) {
      var k := out[i].0;
      GetAt(out, i);
      UpdateMemoryIps(memory, devices, now, search, k);
      match Get(memory, k)
      case None =>
      case Some(e) =>
        GetIn(memory, k, e);
    }
  }

  // ---------------------------------------------------------------------------
  // annotate_new_devices

  /** Python truthiness of `dev.get("mac")`. */
  predicate HasMac(dev: Device)
  {
    dev.mac.Some? && dev.mac.value != ""
  }

  /** `annotate_devices_with_new_flag`: every device gets `is_new`; nothing else changes. */
  function AnnotateNew(devices: Scan, newMacs: set<string>): (r: Scan)
    ensures Keys(r) == Keys(devices)
    ensures forall i :: 0 <= i < |r| ==> r[i].1.(isNew := None) == devices[i].1.(isNew := None)
    ensures forall i :: 0 <= i < |r| ==>
      r[i].1.isNew == Some(HasMac(devices[i].1) && devices[i].1.mac.value in newMacs)
  {
    MapValues(devices, (d: Device) => d.(isNew := Some(HasMac(d) && d.mac.value in newMacs)))
  }

  /**
   * After `update_memory`, a device is flagged new exactly when it carries a
   * tracked MAC the store did not hold before the pass.
   */
  lemma AnnotateAfterUpdate(memory: Memory, devices: Scan, now: int, search: string -> string, i: nat)
    requires i < |devices|
    ensures var out := UpdateMemory(memory, devices, now, search);
      var dev := devices[i].1;
      AnnotateNew(devices, out.newMacs)[i].1.isNew
        == Some(IsTracked(dev.mac) && dev.mac.value !in KeySet(memory))
  {
    UpdateMemoryKeys(memory, devices, now, search);
    var dev := devices[i].1;
    if IsTracked(dev.mac) {
      assert dev.mac.value in TrackedMacs(devices);
    }
  }

  // ---------------------------------------------------------------------------
  // find_offline_devices

  /** `{dev.get("mac") for dev in devices.values() if dev.get("mac")}` */
  function CurrentMacs(devices: Scan): set<string>
  {
    set i | 0 <= i < |devices| && HasMac(devices[i].1) :: devices[i].1.mac.value
  }

  /** The records, in store order, whose key is not among `current`. */
  function OfflineAmong(memory: Memory, current: set<string>): (offline: seq<Entry>)
    ensures |offline| <= |memory|
    ensures forall e :: e in offline <==>
      exists i :: 0 <= i < |memory| && memory[i].1 == e && memory[i].0 !in current
  {
    if memory == [] then []
    else
      var rest := OfflineAmong(memory[1..], current);
      assert forall i :: 0 <= i < |memory[1..]| ==> memory[1..][i] == memory[i + 1];
      (if memory[0].0 !in current then [memory[0].1] else []) + rest
  }

  /** One stored pair contributes its record exactly when its key is not current. */
  lemma OfflineAmongOne(k: string, e: Entry, current: set<string>)
    ensures OfflineAmong([(k, e)], current) == if k in current then [] else [e]
  {
    assert [(k, e)][1..] == [];
  }

  /**
   * The list of a concatenated store is the list of its first part followed
   * by that of its second: together with `OfflineAmongOne` this fixes the
   * order and the multiplicity of the records, one per stored pair.
   */
  lemma {:induction false} OfflineAmongAppend(a: Memory, b: Memory, current: set<string>)
    ensures OfflineAmong(a + b, current) == OfflineAmong(a, current) + OfflineAmong(b, current)
    decreases |a|
  {
    if a != [] {
      assert (a + b)[0] == a[0];
      assert (a + b)[1..] == a[1..] + b;
      OfflineAmongAppend(a[1..], b, current);
      var head := if a[0].0 !in current then [a[0].1] else [];
      assert head + (OfflineAmong(a[1..], current) + OfflineAmong(b, current))
          == (head + OfflineAmong(a[1..], current)) + OfflineAmong(b, current);
    } else {
      assert [] + b == b;
    }
  }

  /**
   * `find_offline_devices` as evidently intended: the stored records whose
   * MAC the current scan does not show, in store order.
   */
  function FindOfflineDevices(memory: Memory, devices: Scan): (offline: seq<Entry>)
    ensures |offline| <= |memory|
    ensures forall e :: e in offline <==>
      exists i :: 0 <= i < |memory| && memory[i].1 == e && memory[i].0 !in CurrentMacs(devices)
  {
    OfflineAmong(memory, CurrentMacs(devices))
  }

  /**
   * `find_offline_devices` as written: the list is built but never returned,
   * so every call yields Python's None.
   */
  function FindOfflineDevicesAsWritten(memory: Memory, devices: Scan): (r: Option<seq<Entry>>)
    ensures r == None
  {
    var offline := FindOfflineDevices(memory, devices);
    None
  }

  /** `if offline_devices:` in the scanner's offline report. */
  predicate ReportsOffline(result: Option<seq<Entry>>)
  {
    result.Some? && result.value != []
  }

  /** Whenever a stored device is missing from the scan, the report as written still says there is none. */
  lemma MissingReturnHidesOffline(memory: Memory, devices: Scan, i: nat)
    requires i < |memory| && memory[i].0 !in CurrentMacs(devices)
    ensures ReportsOffline(Some(FindOfflineDevices(memory, devices)))
    ensures !ReportsOffline(FindOfflineDevicesAsWritten(memory, devices))
  {
    assert memory[i].1 in FindOfflineDevices(memory, devices);
  }

  /** A concrete input: one stored device, an empty scan. */
  lemma MissingReturnExample(e: Entry)
    ensures FindOfflineDevices([(e.mac, e)], []) == [e]
    ensures !ReportsOffline(FindOfflineDevicesAsWritten([(e.mac, e)], []))
  {
  }

  /** Storing under a key the scan shows does not change the offline list. */
  lemma {:induction false} OfflineAmongPut(memory: Memory, current: set<string>, k: string, v: Entry)
    requires k in current
    ensures OfflineAmong(Put(memory, k, v), current) == OfflineAmong(memory, current)
  {
    if memory != [] && memory[0].0 != k {
      OfflineAmongPut(memory[1..], current, k, v);
      assert Put(memory, k, v)[1..] == Put(memory[1..], k, v);
    }
  }

  lemma {:induction false} UpdateMemoryOfflineAmong(memory: Memory, devices: Scan, now: int, search: string -> string, current: set<string>)
    requires TrackedMacs(devices) <= current
    ensures OfflineAmong(UpdateMemory(memory, devices, now, search).memory, current) == OfflineAmong(memory, current)
    decreases |devices|
  {
    if devices != [] {
      var ip, dev := devices[0].0, devices[0].1;
      TrackedMacsCons(devices);
      if IsTracked(dev.mac) {
        ObserveIsPut(memory, ip, dev, now, search);
        OfflineAmongPut(memory, current, dev.mac.value, ObservedEntry(memory, dev.mac.value, ip, now, search));
      }
      UpdateMemoryOfflineAmong(Observe(memory, ip, dev, now, search).memory, devices[1..], now, search, current);
    }
  }

  /**
   * Updating the store with a scan does not change which devices that scan
   * reports offline: the scanner may call the two in either order.
   */
  lemma FindOfflineAfterUpdate(memory: Memory, devices: Scan, now: int, search: string -> string)
    ensures FindOfflineDevices(UpdateMemory(memory, devices, now, search).memory, devices)
         == FindOfflineDevices(memory, devices)
  {
    assert TrackedMacs(devices) <= CurrentMacs(devices) by {
      forall m | m in TrackedMacs(devices) ensures m in CurrentMacs(devices) {
        var i :| 0 <= i < |devices| && IsTracked(devices[i].1.mac) && devices[i].1.mac.value == m;
        assert HasMac(devices[i].1);
      }
    }
    UpdateMemoryOfflineAmong(memory, devices, now, search, CurrentMacs(devices));
  }

  /** When exactly one stored MAC is missing from the scan, the list is exactly its record. */
  lemma {:induction false} OfflineExactlyOne(memory: Memory, current: set<string>, k: nat)
    requires k < |memory|
    requires memory[k].0 !in current
    requires forall j :: 0 <= j < |memory| && j != k ==> memory[j].0 in current
    ensures OfflineAmong(memory, current) == [memory[k].1]
  {
    if k == 0 {
      assert forall j :: 0 <= j < |memory[1..]| ==> memory[1..][j].0 == memory[j + 1].0;
      OfflineNone(memory[1..], current);
    } else {
      assert forall j :: 0 <= j < |memory[1..]| && j != k - 1 ==> memory[1..][j].0 == memory[j + 1].0;
      OfflineExactlyOne(memory[1..], current, k - 1);
    }
  }

  lemma {:induction false} OfflineNone(memory: Memory, current: set<string>)
    requires forall j :: 0 <= j < |memory| ==> memory[j].0 in current
    ensures OfflineAmong(memory, current) == []
  {
    if memory != [] {
      assert forall j :: 0 <= j < |memory[1..]| ==> memory[1..][j].0 == memory[j + 1].0;
      OfflineNone(memory[1..], current);
    }
  }
}
