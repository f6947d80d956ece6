/** Identifiers shared by every module of the replication library. */
module Hotstuff {

  /** A replica ID (hotstuff.ID). Only its equality and order matter to this model. */
  type ID = nat

  /** A protocol view (consensus.View), numbered from 1. */
  type View = nat

  newtype byte = x: int | 0 <= x < 256

  /** A block or message hash. */
  type Hash = seq<byte>
}
