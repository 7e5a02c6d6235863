/** Identifiers of resources. */
module Resources {
  type XID = nat

  /** dixClientIdForXID: the client is in the eight bits above the lowest 21. */
  function ClientOf(id: XID): nat {
    id / 0x200000 % 256
  }
}
