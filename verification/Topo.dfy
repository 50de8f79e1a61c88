/** The controller's snapshot of the mesh (controller/internal/topo/model.go). */
module Topo {

  // node ids are only ever compared; the empty string, which is no node's id, is 0
  type Id = nat

  const NO_ID: Id := 0

  /** A directed link: `peer` hears `from`.  An RSSI of 0 means "not measured". */
  datatype Link = Link(from: Id, peer: Id, q: real, rssi: int, snr: int, at: int)

  datatype Node = Node(id: Id, sf: int, power: int, isGateway: bool, mobile: bool, acl: string)

  datatype Snapshot = Snapshot(gateway: Id, nodes: seq<Node>, links: seq<Link>)

  predicate Fresh(l: Link, now: int, maxAge: int)
  {
    now - l.at < maxAge
  }

  /** Fresh, and with some evidence that the pair can talk. */
  predicate Usable(l: Link, now: int, maxAge: int)
  {
    Fresh(l, now, maxAge) && !(l.rssi == 0 && l.q <= 0.0)
  }
}
