/** Transaction stamps on tuple versions and what a snapshot makes of them
    (crates/pg-am-heap/src/heap_am.rs). */
module Stamps {
  type Xid = nat

  /** A delete or update, or a lock: the infomask bits beside `t_xmax`. */
  datatype Kind = Real | Lock | ShareLock

  /** The tuple's `t_xmax`. */
  datatype Stamp = NoStamp | Stamp(xid: Xid, kind: Kind)

  predicate IsReal(stamp: Stamp) { stamp.Stamp? && stamp.kind.Real? }

  /** `is_visible` for a snapshot that sees the effects of `seen`: inserted by
      someone seen, not deleted by anyone seen. A lock is not a delete. */
  predicate Sees(seen: set<Xid>, xmin: Xid, stamp: Stamp)
  {
    xmin in seen && !(IsReal(stamp) && stamp.xid in seen)
  }
}
