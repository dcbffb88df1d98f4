/**
 * The scanner's own bookkeeping (main.py): parsing the kernel neighbour
 * table, merging it with the ICMP sweep into one device table keyed by IP,
 * grouping that table by /24 subnet, and the two labels the tree printer
 * derives from it.
 */
module ScanTable {
  import opened Wrappers
  import opened Text
  import opened OrderedMap
  import opened Devices

  // ---------------------------------------------------------------------------
  // The ICMP sweep

  /** The sweep's result file, one IP per line: the stripped non-blank lines. */
  function PingIps(lines: seq<string>): (ips: set<string>)
    ensures forall ip :: ip in ips ==> ip != [] && Strip(ip) == ip
    ensures forall ip :: ip in ips <==> exists i :: 0 <= i < |lines| && Strip(lines[i]) == ip && ip != []
  {
    forall i | 0 <= i < |lines| {
      StripIdempotent(lines[i]);
    }
    set i | 0 <= i < |lines| && Strip(lines[i]) != [] :: Strip(lines[i])
  }

  // ---------------------------------------------------------------------------
  // The neighbour table

  /** One accepted line of `ip neigh`. */
  datatype ArpEntry = ArpEntry(ip: string, mac: string, state: string)

  /** The placeholder addresses a line is rejected for, compared lower-cased. */
  const PlaceholderMacs: seq<string> := ["00:00:00:00:00:00", "ff:ff:ff:ff:ff:ff"]

  /** Python's `parts.index(x)` when `x in parts`, else None. */
  function IndexOf(parts: seq<string>, x: string): (r: Option<nat>)
    ensures r.None? <==> x !in parts
    ensures r.Some? ==> r.value < |parts| && parts[r.value] == x
    ensures r.Some? ==> forall j :: 0 <= j < r.value ==> parts[j] != x
  {
    if parts == [] then None
    else if parts[0] == x then Some(0)
    else match IndexOf(parts[1..], x)
      case None => None
      case Some(i) => Some(i + 1)
  }

  /** The word after the first `lladdr`, if there is one. */
  function LinkAddress(parts: seq<string>): (mac: Option<string>)
    ensures mac.Some? <==> exists i :: IndexOf(parts, "lladdr") == Some(i) && i + 1 < |parts|
    ensures mac.Some? ==> exists i :: IndexOf(parts, "lladdr") == Some(i) && i + 1 < |parts| && mac.value == parts[i + 1]
  {
    match IndexOf(parts, "lladdr")
    case None => None
    case Some(i) => if i + 1 < |parts| then Some(parts[i + 1]) else None
  }

  /**
   * One line of `ip neigh`: rejected when blank, when its first word is an
   * IPv6 address, when its state is FAILED, when it has no link address
   * and when the link address is a placeholder.
   */
  function ParseNeighLine(line: string): (r: Option<ArpEntry>)
    ensures var parts := Split(line);
      r.Some? <==>
        && parts != []
        && ':' !in parts[0]
        && parts[|parts| - 1] != "FAILED"
        && LinkAddress(parts).Some?
        && Lower(LinkAddress(parts).value) !in PlaceholderMacs
    ensures r.Some? ==> var parts := Split(line);
      && r.value.ip == parts[0]
      && r.value.state == parts[|parts| - 1]
      && Some(r.value.mac) == LinkAddress(parts)
      && IsWord(r.value.ip) && IsWord(r.value.mac) && IsWord(r.value.state)
  {
    var parts := Split(line);
    if parts == [] then None
    else
      var ip := parts[0];
      if ':' in ip then None
      else if parts[|parts| - 1] == "FAILED" then None
      else match LinkAddress(parts)
        case None => None
        case Some(mac) =>
          if Lower(mac) in PlaceholderMacs then None
          else Some(ArpEntry(ip, mac, parts[|parts| - 1]))
  }

  /** A neighbour line as the kernel prints it: `IP dev IFACE lladdr MAC STATE`. */
  function NeighLine(ip: string, iface: string, mac: string, state: string): string
  {
    Join([ip, "dev", iface, "lladdr", mac, state], ' ')
  }

  lemma IndexOfFourth(words: seq<string>, x: string)
    requires |words| == 6 && words[3] == x
    requires words[0] != x && words[1] != x && words[2] != x
    ensures IndexOf(words, x) == Some(3)
  {
    assert IndexOf(words[3..], x) == Some(0);
    assert words[1..][1..][1..] == words[3..];
  }

  lemma LinkAddressFourth(words: seq<string>, k: string)
    requires k == "lladdr"
    requires |words| == 6 && words[3] == k
    requires words[0] != k && words[1] != k && words[2] != k
    ensures LinkAddress(words) == Some(words[4])
  {
    IndexOfFourth(words, k);
  }

  lemma SixWords(words: seq<string>, a: string, b: string, c: string, k: string, m: string, st: string)
    requires words == [a, b, c, k, m, st]
    requires IsWord(a) && IsWord(b) && IsWord(c) && IsWord(k) && IsWord(m) && IsWord(st)
    ensures forall i :: 0 <= i < |words| ==> IsWord(words[i])
  {
  }

  /** Six words whose fourth is the keyword (and no earlier one is) parse to the first, fifth and last. */
  lemma ParseSixWords(a: string, b: string, c: string, k: string, m: string, st: string)
    requires IsWord(a) && IsWord(b) && IsWord(c) && IsWord(k) && IsWord(m) && IsWord(st)
    requires k == "lladdr" && a != k && b != k && c != k
    requires ':' !in a && st != "FAILED" && Lower(m) !in PlaceholderMacs
    ensures ParseNeighLine(Join([a, b, c, k, m, st], ' ')) == Some(ArpEntry(a, m, st))
  {
    var words := [a, b, c, k, m, st];
    SixWords(words, a, b, c, k, m, st);
    SplitJoin(words, ' ');
    LinkAddressFourth(words, k);
    ParseNeighParts(Join(words, ' '), words);
  }

  lemma ParseNeighParts(line: string, words: seq<string>)
    requires Split(line) == words && |words| == 6
    requires ':' !in words[0] && words[5] != "FAILED"
    requires LinkAddress(words) == Some(words[4]) && Lower(words[4]) !in PlaceholderMacs
    ensures ParseNeighLine(line) == Some(ArpEntry(words[0], words[4], words[5]))
  {
  }

  lemma KeywordsAreWords(dev: string, lladdr: string)
    requires dev == "dev" && lladdr == "lladdr"
    ensures IsWord(dev) && IsWord(lladdr) && dev != lladdr
  {
    assert |dev| == 3;
  }

  /**
   * Parsing a printed neighbour line recovers its address, MAC and state
   * (for an address and an interface name other than the keyword itself).
   */
  lemma ParseNeighLineRoundTrip(ip: string, iface: string, mac: string, state: string)
    requires IsWord(ip) && IsWord(iface) && IsWord(mac) && IsWord(state)
    requires ip != "lladdr" && iface != "lladdr"
    requires ':' !in ip && state != "FAILED" && Lower(mac) !in PlaceholderMacs
    ensures ParseNeighLine(NeighLine(ip, iface, mac, state)) == Some(ArpEntry(ip, mac, state))
  {
    KeywordsAreWords("dev", "lladdr");
    ParseSixWords(ip, "dev", iface, "lladdr", mac, state);
  }

  /** The neighbour table, `arp_entries`: accepted lines keyed by IP, a later line replacing an earlier one. */
  type ArpTable = Dict<string, ArpEntry>

  function ParseNeighFrom(table: ArpTable, lines: seq<string>): ArpTable
    decreases |lines|
  {
    if lines == [] then table
    else
      var next := match ParseNeighLine(lines[0])
        case None => table
        case Some(e) => Put(table, e.ip, e);
      ParseNeighFrom(next, lines[1..])
  }

  /** The parsing loop over `ip neigh`'s output lines. */
  function ParseNeigh(lines: seq<string>): ArpTable
  {
    ParseNeighFrom([], lines)
  }

  /** Reference: the entry of the last accepted line for `ip`, if any. */
  function LastEntryFor(lines: seq<string>, ip: string): (r: Option<ArpEntry>)
    ensures r.Some? ==> r.value.ip == ip
    ensures r.Some? <==> exists i :: 0 <= i < |lines| && ParseNeighLine(lines[i]).Some? && ParseNeighLine(lines[i]).value.ip == ip
  {
    if lines == [] then None
    else
      assert forall i :: 0 <= i < |lines[1..]| ==> lines[1..][i] == lines[i + 1];
      match LastEntryFor(lines[1..], ip)
      case Some(e) => Some(e)
      case None =>
        var first := ParseNeighLine(lines[0]);
        if first.Some? && first.value.ip == ip then first else None
  }

  lemma {:induction false} ParseNeighFromGet(table: ArpTable, lines: seq<string>, ip: string)
    ensures Get(ParseNeighFrom(table, lines), ip) ==
      (if LastEntryFor(lines, ip).Some? then LastEntryFor(lines, ip) else Get(table, ip))
    decreases |lines|
  {
    if lines != [] {
      match ParseNeighLine(lines[0])
      case None =>
        ParseNeighFromGet(table, lines[1..], ip);
      case Some(e) =>
        ParseNeighFromGet(Put(table, e.ip, e), lines[1..], ip);
        if e.ip != ip {
          PutOther(table, e.ip, e, ip);
        }
    }
  }

  /** Each IP maps to the entry of the last line accepted for it, and only accepted IPs are keys. */
  lemma ParseNeighLastWins(lines: seq<string>, ip: string)
    ensures Get(ParseNeigh(lines), ip) == LastEntryFor(lines, ip)
  {
    ParseNeighFromGet([], lines, ip);
  }

  lemma {:induction false} ParseNeighFromDistinct(table: ArpTable, lines: seq<string>)
    requires Distinct(table)
    ensures Distinct(ParseNeighFrom(table, lines))
    decreases |lines|
  {
    if lines != [] {
      match ParseNeighLine(lines[0])
      case None =>
        ParseNeighFromDistinct(table, lines[1..]);
      case Some(e) =>
        PutDistinct(table, e.ip, e);
        ParseNeighFromDistinct(Put(table, e.ip, e), lines[1..]);
    }
  }

  /** The parsed table is a dict: no IP twice. */
  lemma ParseNeighDistinct(lines: seq<string>)
    ensures Distinct(ParseNeigh(lines))
  {
    ParseNeighFromDistinct([], lines);
  }

  // ---------------------------------------------------------------------------
  // Merging the two sources

  /** The record of a host only the ping sweep saw. */
  function PingDevice(ip: string): Device
  {
    Device(ip, {Ping}, None, None, None)
  }

  /** The ping-only loop; `ping` is the set's iteration order. */
  function AddPing(devices: Scan, ping: seq<string>): Scan
    decreases |ping|
  {
    if ping == [] then devices
    else AddPing(Put(devices, ping[0], PingDevice(ping[0])), ping[1..])
  }

  /** One iteration of the ARP merge loop. */
  function MergeOne(devices: Scan, ip: string, info: ArpEntry): Scan
  {
    match Get(devices, ip)
    case Some(d) => Put(devices, ip, d.(sources := d.sources + {Arp}, mac := Some(info.mac), arpState := Some(info.state)))
    case None => Put(devices, ip, Device(ip, {Arp}, Some(info.mac), Some(info.state), None))
  }

  function MergeArp(devices: Scan, arp: ArpTable): Scan
    decreases |arp|
  {
    if arp == [] then devices
    else MergeArp(MergeOne(devices, arp[0].0, arp[0].1), arp[1..])
  }

  /** The merged device table: ping-only entries first, then the neighbour table folded in. */
  function MergeSources(ping: seq<string>, arp: ArpTable): Scan
  {
    MergeArp(AddPing([], ping), arp)
  }

  lemma {:induction false} AddPingGet(devices: Scan, ping: seq<string>, ip: string)
    ensures Get(AddPing(devices, ping), ip) == if ip in ping then Some(PingDevice(ip)) else Get(devices, ip)
    decreases |ping|
  {
    if ping != [] {
      AddPingGet(Put(devices, ping[0], PingDevice(ping[0])), ping[1..], ip);
      if ping[0] != ip {
        PutOther(devices, ping[0], PingDevice(ping[0]), ip);
      }
    }
  }

  lemma {:induction false} MergeArpGet(devices: Scan, arp: ArpTable, ip: string)
    requires Distinct(arp)
    ensures Get(MergeArp(devices, arp), ip) == match Get(arp, ip)
      case None => Get(devices, ip)
      case Some(info) => Get(MergeOne(devices, ip, info), ip)
    decreases |arp|
  {
    if arp != [] {
      var k, info := arp[0].0, arp[0].1;
      var next := MergeOne(devices, k, info);
      assert Distinct(arp[1..]);
      MergeArpGet(next, arp[1..], ip);
      if k == ip {
        assert ip !in KeySet(arp[1..]) by {
          assert forall j :: 0 <= j < |arp[1..]| ==> arp[1..][j].0 == arp[j + 1].0;
        }
      } else {
        match Get(devices, k)
        case Some(d) =>
          PutOther(devices, k, d.(sources := d.sources + {Arp}, mac := Some(info.mac), arpState := Some(info.state)), ip);
        case None =>
          PutOther(devices, k, Device(k, {Arp}, Some(info.mac), Some(info.state), None), ip);
      }
    }
  }

  /**
   * The merged record of every IP: present exactly when ping or the
   * neighbour table saw it; ping-only hosts carry no MAC; hosts in the
   * neighbour table carry its MAC and state and both sources when ping saw
   * them too.
   */
  lemma MergeSourcesGet(ping: seq<string>, arp: ArpTable, ip: string)
    requires Distinct(arp)
    ensures var d := Get(MergeSources(ping, arp), ip);
      && (d.Some? <==> ip in ping || ip in KeySet(arp))
      && (ip in ping && ip !in KeySet(arp) ==> d == Some(Device(ip, {Ping}, None, None, None)))
      && (ip in KeySet(arp) ==>
            var info := Get(arp, ip).value;
            d == Some(Device(ip, if ip in ping then {Ping, Arp} else {Arp}, Some(info.mac), Some(info.state), None)))
  {
    AddPingGet([], ping, ip);
    MergeArpGet(AddPing([], ping), arp, ip);
    assert {Ping} + {Arp} == {Ping, Arp};
  }

  /** The order in which the ping set is iterated changes no host's record. */
  lemma MergeIgnoresPingOrder(ping: seq<string>, other: seq<string>, arp: ArpTable, ip: string)
    requires Distinct(arp)
    requires forall x :: x in ping <==> x in other
    ensures Get(MergeSources(ping, arp), ip) == Get(MergeSources(other, arp), ip)
  {
    MergeSourcesGet(ping, arp, ip);
    MergeSourcesGet(other, arp, ip);
  }

  /** The `src=` label of the tree printer. */
  function SourceLabel(sources: set<Source>): (name: string)
    ensures name == "PING" || name == "ARP" || name == "PING+ARP"
  {
    if sources == {Ping} then "PING"
    else if sources == {Arp} then "ARP"
    else "PING+ARP"
  }

  /** A merged host's label names exactly the sources that saw it. */
  lemma MergedSourceLabel(ping: seq<string>, arp: ArpTable, ip: string)
    requires Distinct(arp)
    requires ip in ping || ip in KeySet(arp)
    ensures var d := Get(MergeSources(ping, arp), ip);
      d.Some? && SourceLabel(d.value.sources) ==
        if ip in ping && ip in KeySet(arp) then "PING+ARP"
        else if ip in ping then "PING"
        else "ARP"
  {
    MergeSourcesGet(ping, arp, ip);
    assert {Ping, Arp} != {Ping} && {Ping, Arp} != {Arp} by {
      assert Arp !in {Ping} && Ping !in {Arp};
    }
  }

  // ---------------------------------------------------------------------------
  // Grouping by /24 subnet

  lemma JoinFour(parts: seq<string>, sep: char)
    requires |parts| == 4
    ensures Join(parts, sep) == Join(parts[..3], sep) + [sep] + parts[3]
  {
    var p0, p1, p2, p3 := parts[0], parts[1], parts[2], parts[3];
    assert parts[1..][1..][1..] == [p3];
    assert Join(parts[1..][1..], sep) == p2 + [sep] + p3;
    assert Join(parts[1..], sep) == p1 + [sep] + (p2 + [sep] + p3);
    assert parts[..3][1..] == [p1, p2];
    assert parts[..3][1..][1..] == [p2];
    assert Join(parts[..3][1..], sep) == p1 + [sep] + p2;
    assert Join(parts[..3], sep) == p0 + [sep] + (p1 + [sep] + p2);
  }

  /**
   * The subnet key of an IP: its first three dot-separated parts, when it
   * has exactly four. The key followed by a dot is then a prefix of the IP,
   * and the rest (the host part) holds no dot.
   */
  function SubnetOf(ip: string): (subnet: Option<string>)
    ensures subnet.Some? <==> multiset(ip)['.'] == 3
    ensures subnet.Some? ==>
      && IsPrefix(subnet.value + ['.'], ip)
      && '.' !in ip[|subnet.value| + 1..]
  {
    var parts := SplitOn(ip, '.');
    SplitOnCount(ip, '.');
    if |parts| != 4 then None
    else
      var subnet := Join(parts[..3], '.');
      JoinSplitOn(ip, '.');
      JoinFour(parts, '.');
      assert ip == subnet + ['.'] + parts[3];
      assert ip[|subnet| + 1..] == parts[3];
      assert parts[3] in parts;
      Some(subnet)
  }

  /** The hosts grouped per subnet key, `groups`, in first-seen order of the keys. */
  type Groups = Dict<string, seq<Device>>

  /** One pass of the grouping loop: append the device to its subnet's group, if its IP has one. */
  function GroupStep(groups: Groups, entry: (string, Device)): Groups
  {
    match SubnetOf(entry.0)
    case None => groups
    case Some(s) => Put(groups, s, Get(groups, s).GetOr([]) + [entry.1])
  }

  function GroupFrom(groups: Groups, devices: Scan): Groups
    decreases |devices|
  {
    if devices == [] then groups
    else GroupFrom(GroupStep(groups, devices[0]), devices[1..])
  }

  /** The grouping loop. */
  function GroupBySubnet(devices: Scan): Groups
  {
    GroupFrom([], devices)
  }

  /** The device of `entry` if it lies in `subnet`. */
  function MemberOf(entry: (string, Device), subnet: string): seq<Device>
  {
    if SubnetOf(entry.0) == Some(subnet) then [entry.1] else []
  }

  /** Reference: the devices whose IP lies in `subnet`, in table order. */
  function InSubnet(devices: Scan, subnet: string): (members: seq<Device>)
    ensures |members| <= |devices|
  {
    if devices == [] then []
    else MemberOf(devices[0], subnet) + InSubnet(devices[1..], subnet)
  }

  /** A group `g` (absent or present) after appending `members`: absent only if both are empty. */
  function Extend(g: Option<seq<Device>>, members: seq<Device>): (r: Option<seq<Device>>)
  {
    if g.None? && members == [] then None else Some(g.GetOr([]) + members)
  }

  lemma ExtendTwice(g: Option<seq<Device>>, m: seq<Device>, rest: seq<Device>)
    ensures Extend(Extend(g, m), rest) == Extend(g, m + rest)
  {
    assert (g.GetOr([]) + m) + rest == g.GetOr([]) + (m + rest);
    if g.Some? && m == [] {
      assert g.value + [] == g.value;
    }
  }

  /** One step appends the device to its own subnet's group and to no other. */
  lemma GroupStepGet(groups: Groups, entry: (string, Device), subnet: string)
    ensures Get(GroupStep(groups, entry), subnet) == Extend(Get(groups, subnet), MemberOf(entry, subnet))
  {
    match SubnetOf(entry.0)
    case None =>
      assert Get(groups, subnet).GetOr([]) + [] == Get(groups, subnet).GetOr([]);
    case Some(s) =>
      if s != subnet {
        PutOther(groups, s, Get(groups, s).GetOr([]) + [entry.1], subnet);
        assert Get(groups, subnet).GetOr([]) + [] == Get(groups, subnet).GetOr([]);
      }
  }

  lemma {:induction false} GroupFromGet(groups: Groups, devices: Scan, subnet: string)
    ensures Get(GroupFrom(groups, devices), subnet) == Extend(Get(groups, subnet), InSubnet(devices, subnet))
    decreases |devices|
  {
    if devices != [] {
      GroupStepGet(groups, devices[0], subnet);
      GroupFromGet(GroupStep(groups, devices[0]), devices[1..], subnet);
      ExtendTwice(Get(groups, subnet), MemberOf(devices[0], subnet), InSubnet(devices[1..], subnet));
    } else {
      assert Get(groups, subnet).GetOr([]) + [] == Get(groups, subnet).GetOr([]);
    }
  }

  /**
   * Each subnet's group is exactly the devices of that subnet, in table
   * order; a subnet with no device has no group.
   */
  lemma GroupBySubnetGet(devices: Scan, subnet: string)
    ensures Get(GroupBySubnet(devices), subnet) ==
      if InSubnet(devices, subnet) == [] then None else Some(InSubnet(devices, subnet))
  {
    GroupFromGet([], devices, subnet);
    assert [] + InSubnet(devices, subnet) == InSubnet(devices, subnet);
  }

  /** The density tag of a subnet line, from the number of hosts in the group. */
  function SubnetTag(count: int): (tag: string)
    ensures tag == "  (Sparse)" <==> count < 3
    ensures tag == "  (Heavy)" <==> count > 80
    ensures tag == "" <==> 3 <= count <= 80
  {
    if count < 3 then "  (Sparse)"
    else if count > 80 then "  (Heavy)"
    else ""
  }

  /** Orders the tags: sparse below untagged below heavy. */
  function TagRank(tag: string): nat
  {
    if tag == "  (Sparse)" then 0 else if tag == "" then 1 else 2
  }

  /** A larger group never gets a sparser tag. */
  lemma SubnetTagMonotone(a: int, b: int)
    requires a <= b
    ensures TagRank(SubnetTag(a)) <= TagRank(SubnetTag(b))
  {
  }
}
