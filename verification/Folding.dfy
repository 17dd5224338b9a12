/** Folded predicates. */
module Folding {
  // A predicate with a large definition is written
  //
  //     forall k: Key :: Open(k) && k.Name? ==> definition
  //
  // which says the same as its definition.  The verifier carries it along as it stands and looks inside only where a
  // proof says Open(Name).

  datatype Key =
    | MemOKKey | GrownKey | StoredKey | TreesKey | AccountedKey | ForestKey | BuildingKey | GoodKey
    | PieceKey | CompressedKey | ShapeKey | FixedKey | ExtsKey | MarksKey | KeptKey | VersionKey
    | ParentKey | TrieKey | DeadKey | PoolKey | RibKey | TopKey | WorkKey | BuddyKey | ChargedKey | ToldKey
    | MbShapeKey | MbHoldKey | MbFullKey | MbSlotKey | MbDeepKey | MbUpKey | MbRootsKey | MbTreesKey | MbAllKey
    | HashKey | HashAllKey

  ghost predicate Open(k: Key) { true }
}
