/** The shapes shared by the routing engine: location ids, backend addresses, and the per-endpoint routing table. */
module Types {

  /** A location identifier, as stored in the `Location` table. */
  type LocationId = string

  /** A backend connect target of the form `host:port`. */
  type Address = string

  /** A signed 32-bit integer, the type ports are read with from the data store. */
  type I32 = x: int | -0x8000_0000 <= x < 0x8000_0000

  /** Backends grouped by location; written once at discovery, read-only afterwards. */
  type BackendMap = map<LocationId, seq<Address>>

  /** Round-robin cursor per location; a location without an entry has cursor 0. */
  type CursorMap = map<LocationId, nat>

  /** One public listener with its routing table, without the lock wrappers. */
  datatype Endpoint = Endpoint(listener: string, backendsByLocation: BackendMap, currentIndices: CursorMap)
}
