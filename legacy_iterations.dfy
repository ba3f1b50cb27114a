/**
 * What the legacy state iterators (the FSTStateIterator of MutableFSTOld,
 * CompactFST and CompactFST2) report, drained to values: for each state in
 * id order its flag and, for each transition, whether it is an identity
 * transition and its in id, out id and to id as the iterator returns them.
 */
module LegacyIterations {

  datatype LegacyArc = LegacyArc(identity: bool, inId: int, outId: int, toId: int)

  datatype LegacyState = LegacyState(accepting: bool, arcs: seq<LegacyArc>)

  /** The start state, the identity id getIdentityId reports, and the states. */
  datatype LegacyIteration = LegacyIteration(start: int, idIdx: int, states: seq<LegacyState>)
}
