/** Countries, address ranges and country blocks. */
module Stream {
  import opened Addresses

  datatype Country = Country(index: nat, iso3166: string, name: string)

  /** An address of either version; `ip` is its integer value. */
  datatype IpAddr = IpAddr(version: Version, ip: nat) {
    predicate Valid() { ip < version.Space() }
  }

  /** A range of addresses of one version, both ends included. */
  datatype IpRange = IpRange(version: Version, start: nat, end: nat) {
    predicate Valid() { start <= end < version.Space() }

    function Start(): (a: IpAddr) { IpAddr(version, start) }
    function End(): (a: IpAddr) { IpAddr(version, end) }

    predicate Contains(a: IpAddr)
    {
      a.version == version && start <= a.ip <= end
    }

    /** Where this range lies as seen from the address. */
    function OrderingByRange(a: IpAddr): (o: Ordering)
      requires a.version == version
    {
      if a.ip < start then Greater else if a.ip > end then Less else Equal
    }
  }

  datatype Ordering = Less | Equal | Greater

  datatype CountryBlock = CountryBlock(ipRange: IpRange, country: Country)

  /** Whether `second` directly follows `first`, which must not be the last address. */
  predicate AreConsecutive(first: IpAddr, second: IpAddr)
    requires first.version == second.version && first.ip < first.version.Max()
  {
    second.ip == first.ip + 1
  }
}
