/** Shared types of the mesh routing core (lib/mesh/mesh_types.h). */
module MeshTypes {

  // 16-byte self-certifying node id, compared byte for byte
  type NodeId = x: int | 0 <= x < 0x1_0000_0000_0000_0000_0000_0000_0000_0000

  const ZERO_ID: NodeId := 0

  // one-byte link-local neighbour alias
  type LinkAddr = x: int | 0 <= x < 256

  const ALIAS_NONE: LinkAddr := 0

  /** `now - since` on 32-bit millisecond counters.  Time stamps are kept unwrapped;
      only this difference is ever looked at. */
  function Elapsed32(now: nat, since: nat): (d: nat)
    ensures d < 0x1_0000_0000 && (now - since - d) % 0x1_0000_0000 == 0
    ensures since <= now < since + 0x1_0000_0000 ==> d == now - since
  {
    (now - since) % 0x1_0000_0000
  }
}
