/** src/flow/flow_key.py: the directionless flow key and the direction of a packet. */
module FlowKey {
  datatype Protocol = TCP | UDP

  datatype Endpoint = Endpoint(ip: string, port: int)

  datatype Key = Key(protocol: Protocol, small: Endpoint, large: Endpoint)

  datatype Direction = Forward | Backward

  /** Python's <= on strings: lexicographic by code point. */
  predicate TextLe(a: string, b: string) {
    a == [] || (b != [] && (a[0] < b[0] || (a[0] == b[0] && TextLe(a[1..], b[1..]))))
  }

  /** Python's <= on (ip, port) tuples. */
  predicate EndpointLe(a: Endpoint, b: Endpoint) {
    if a.ip == b.ip then a.port <= b.port else TextLe(a.ip, b.ip)
  }

  function MakeKey(protocol: Protocol, src: Endpoint, dst: Endpoint): Key {
    if EndpointLe(src, dst) then Key(protocol, src, dst) else Key(protocol, dst, src)
  }

  function DirectionOf(endpointA: Endpoint, src: Endpoint): Direction {
    if endpointA == src then Forward else Backward
  }

  lemma {:induction false} TextOrder(a: string, b: string)
    ensures TextLe(a, b) || TextLe(b, a)
    ensures TextLe(a, b) && TextLe(b, a) ==> a == b
  {
    if a != [] && b != [] {
      TextOrder(a[1..], b[1..]);
    }
  }

  /** Two packets share a key exactly when they have the same protocol and the same two endpoints,
      in either order. */
  lemma SameKeySameEndpoints(p: Protocol, a: Endpoint, b: Endpoint, q: Protocol, c: Endpoint, d: Endpoint)
    ensures MakeKey(p, a, b) == MakeKey(q, c, d) <==> p == q && ((a == c && b == d) || (a == d && b == c))
  {
    TextOrder(a.ip, b.ip);
    TextOrder(c.ip, d.ip);
  }

  /** The first endpoint of a key is the lesser one: by address, then by port. */
  lemma KeyIsOrdered(p: Protocol, a: Endpoint, b: Endpoint)
    ensures EndpointLe(MakeKey(p, a, b).small, MakeKey(p, a, b).large)
  {
    TextOrder(a.ip, b.ip);
  }

  /** Within a flow created from a to b, a packet's direction says which endpoint sent it; the two
      directions are opposite unless the endpoints coincide. */
  lemma ReverseReverses(a: Endpoint, b: Endpoint)
    ensures DirectionOf(a, a) == Forward
    ensures DirectionOf(a, b) == Forward <==> a == b
    ensures MakeKey(TCP, a, b) == MakeKey(TCP, b, a) && MakeKey(UDP, a, b) == MakeKey(UDP, b, a)
  {
    SameKeySameEndpoints(TCP, a, b, TCP, b, a);
    SameKeySameEndpoints(UDP, a, b, UDP, b, a);
  }
}
