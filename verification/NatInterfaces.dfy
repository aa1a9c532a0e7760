/**
  IPv4 addresses, the prefixes configured on layer-3 interfaces, and the
  interface an address belongs to.
 */
module NatInterfaces {
  import opened Words
  import opened Wrappers

  type Ip = ip: int | 0 <= ip < 0x1_0000_0000
  type Port = string
  type Key = string

  datatype NatType = Snat | Dnat

  datatype Prefix = Prefix(address: Ip, length: nat)

  datatype Interface = Interface(port: Port, prefix: Prefix)

  /** The range of a pool, and its ports; NoRange is the empty pool that looking one up creates. */
  datatype Pool = NoRange | Range(low: Ip, high: Ip, ports: string)

  /** Which entries an event asks to add or remove. */
  datatype Scope = Everything | OnPort(port: Port) | OnPrefix(port: Port, prefix: Prefix)

  /** Pools that differ at most in empty ones. */
  ghost predicate SameRanges(before: map<Key, Pool>, after: map<Key, Pool>) {
    && before.Keys <= after.Keys
    && forall p <- after.Keys :: after[p] == if p in before then before[p] else NoRange
  }

  // ---------- addresses ----------

  /** isGlobalIpMatching: the address lies in the subnet of the prefix. */
  predicate InSubnet(prefix: Prefix, ip: Ip) {
    prefix.length <= 32 && prefix.address / ShiftOne(32 - prefix.length) == ip / ShiftOne(32 - prefix.length)
  }

  /** Being in the subnet is what comparing the addresses under the netmask tells. */
  lemma SameUnderMask(prefix: Prefix, ip: Ip)
    requires prefix.length <= 32
    ensures var mask := HighMask(32 - prefix.length, prefix.length);
            InSubnet(prefix, ip) <==> And(prefix.address, mask) == And(ip, mask)
  {
    ShiftByEight(0);
    ShiftByEight(8);
    ShiftByEight(16);
    ShiftByEight(24);
    SameUnderHighMask(prefix.address, ip, 32 - prefix.length, prefix.length);
  }

  ghost predicate DisjointPrefixes(interfaces: set<Interface>) {
    forall a <- interfaces, b <- interfaces, ip: Ip | InSubnet(a.prefix, ip) && InSubnet(b.prefix, ip) :: a == b
  }

  /** The interface whose subnet holds the address, or None when no subnet does. */
  ghost predicate Home(interfaces: set<Interface>, ip: Ip, port: Option<Port>) {
    if port.Some? then exists i <- interfaces :: i.port == port.value && InSubnet(i.prefix, ip)
    else forall i <- interfaces :: !InSubnet(i.prefix, ip)
  }

  lemma HomeIsUnique(interfaces: set<Interface>, ip: Ip, p: Option<Port>, q: Option<Port>)
    requires DisjointPrefixes(interfaces) && Home(interfaces, ip, p) && Home(interfaces, ip, q)
    ensures p == q
  {
  }

  lemma NotCovered(interfaces: set<Interface>, port: Port, prefix: Prefix)
    requires DisjointPrefixes(interfaces + {Interface(port, prefix)}) && Interface(port, prefix) !in interfaces
    requires prefix.length <= 32
    ensures forall i <- interfaces :: !InSubnet(i.prefix, prefix.address)
  {
    assert InSubnet(prefix, prefix.address);
  }

  /** A further prefix changes the interface of the addresses in it, and of no others. */
  lemma MoreHomes(interfaces: set<Interface>, port: Port, prefix: Prefix)
    requires DisjointPrefixes(interfaces + {Interface(port, prefix)})
    ensures forall ip: Ip, home :: !InSubnet(prefix, ip) ==>
      (Home(interfaces + {Interface(port, prefix)}, ip, home) <==> Home(interfaces, ip, home))
    ensures Interface(port, prefix) !in interfaces ==> forall ip: Ip, home ::
      InSubnet(prefix, ip) && Home(interfaces, ip, home) ==> home == None
  {
  }

  method GetIpEnabledIntf(interfaces: set<Interface>, ip: Ip) returns (port: Option<Port>)
    ensures Home(interfaces, ip, port)
  {
    var todo := interfaces;
    while todo != {}
      invariant todo <= interfaces
      invariant forall i <- interfaces - todo :: !InSubnet(i.prefix, ip)
      decreases todo
    {
      var i :| i in todo;
      if InSubnet(i.prefix, ip) {
        return Some(i.port);
      }
      todo := todo - {i};
    }
    return None;
  }

  /** The port on which addDynamicNatRules applies the rules of a pool that starts at `low`, if the scope has one. */
  method PortForRules(interfaces: set<Interface>, scope: Scope, low: Ip) returns (port: Option<Port>)
    requires scope.OnPrefix? ==> Interface(scope.port, scope.prefix) in interfaces
    ensures port.Some? ==> Home(interfaces, low, port)
    ensures DisjointPrefixes(interfaces) ==> (port.Some? <==> HasHome(interfaces, scope, low))
    ensures scope.OnPort? && port.Some? ==> port.value == scope.port
  {
    if scope.OnPrefix? {
      return if InSubnet(scope.prefix, low) then Some(scope.port) else None;
    }
    port := GetIpEnabledIntf(interfaces, low);
    if scope.OnPort? && port.Some? && port.value != scope.port {
      return None;
    }
  }

  /** The address has an interface within the scope. */
  ghost predicate HasHome(interfaces: set<Interface>, scope: Scope, ip: Ip) {
    match scope
    case Everything => !Home(interfaces, ip, None)
    case OnPort(port) => Home(interfaces, ip, Some(port))
    case OnPrefix(_, prefix) => InSubnet(prefix, ip)
  }

  /** isPoolMappedtoBinding: the first binding of a pool. */
  method BindingOfPool<B>(bindings: map<Key, B>, poolOf: B -> Key, pool: Key) returns (name: Option<Key>)
    ensures name.Some? ==> name.value in bindings && poolOf(bindings[name.value]) == pool
    ensures name.None? ==> forall b <- bindings.Keys :: poolOf(bindings[b]) != pool
  {
    var todo := bindings.Keys;
    while todo != {}
      invariant todo <= bindings.Keys
      invariant forall b <- bindings.Keys - todo :: poolOf(bindings[b]) != pool
      decreases todo
    {
      var b :| b in todo;
      if poolOf(bindings[b]) == pool {
        return Some(b);
      }
      todo := todo - {b};
    }
    return None;
  }
}
