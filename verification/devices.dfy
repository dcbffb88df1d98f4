/** The per-IP device record the scanner builds and hands to the ledger. */
module Devices {
  import opened Wrappers
  import opened OrderedMap

  /** How a host was discovered: an ICMP echo reply or a neighbour-table entry. */
  datatype Source = Ping | Arp

  /**
   * One host of the current scan (`devices[ip]` in the scanner). `mac` is None for
   * hosts only seen by ping; `isNew` is None until the ledger has annotated it.
   */
  datatype Device = Device(
    ip: string,
    sources: set<Source>,
    mac: Option<string>,
    arpState: Option<string>,
    isNew: Option<bool>)

  /** The scanner's device table, `devices`: hosts keyed by IP, in insertion order. */
  type Scan = Dict<string, Device>
}
