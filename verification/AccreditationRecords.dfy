/** Accreditation records and the two walks the registry makes along their parent pointers. */
module AccreditationRecords {
  import opened Evm

  /** `AccreditationScope`; `NoScope` is its zero member, `None`. */
  datatype Scope = NoScope | MemberState | Ministry | Institution | Department | BusinessRegistry | Enterprise

  datatype Accreditation = Accreditation(
    id: Bytes32,
    issuer: Address,
    subject: Address,
    parentAccreditationId: Bytes32,
    scope: Scope,
    permissionsHash: Bytes32,
    issuedAt: Uint256,
    expiresAt: Uint256,
    revoked: bool,
    present: bool  // the flag `exists`
  )

  /** `mapping(bytes32 => Accreditation)`: only written entries are present, and writing sets the flag. */
  type Records = m: map<Bytes32, Accreditation> | forall id | id in m :: m[id].present witness map[]

  const UNWRITTEN := Accreditation(0, 0, 0, 0, NoScope, 0, 0, 0, false, false)

  /** A mapping read: an unwritten key reads as the all-zero record. */
  function Get(m: Records, id: Bytes32): (a: Accreditation)
    ensures a.present <==> id in m
    ensures !a.present ==> a.parentAccreditationId == ZERO_ID
  {
    if id in m then m[id] else UNWRITTEN
  }

  /** Distance of a scope from the root of the hierarchy. */
  function Rank(scope: Scope): nat {
    match scope
    case NoScope | MemberState => 0
    case Ministry | BusinessRegistry => 1
    case Institution | Enterprise => 2
    case Department => 3
  }

  /** The parent of `child` is present, unrevoked, of scope `required`, and its subject issued `child`. */
  predicate HasEndorser(m: Records, child: Accreditation, required: Scope) {
    var parent := Get(m, child.parentAccreditationId);
    && parent.present
    && !parent.revoked
    && parent.scope == required
    && parent.subject == child.issuer
  }

  /**
   * `validateTrustChain`. Nothing says that the parent graph is acyclic or closed:
   * the recursion ends because each step demands a scope nearer to the root.
   */
  predicate ValidateTrustChain(m: Records, owner: Address, now: Uint256, id: Bytes32)
    decreases Rank(Get(m, id).scope)
  {
    var accred := Get(m, id);
    var parentId := accred.parentAccreditationId;
    if !accred.present then false
    else if accred.revoked then false
    else if Expired(accred.expiresAt, now) then false
    else match accred.scope
      case MemberState => parentId == ZERO_ID && accred.issuer == owner
      case Ministry =>
        if parentId == ZERO_ID then accred.issuer == owner
        else HasEndorser(m, accred, MemberState) && ValidateTrustChain(m, owner, now, parentId)
      case Institution =>
        parentId != ZERO_ID && HasEndorser(m, accred, Ministry) && ValidateTrustChain(m, owner, now, parentId)
      case Department =>
        parentId != ZERO_ID && HasEndorser(m, accred, Institution) && ValidateTrustChain(m, owner, now, parentId)
      case BusinessRegistry =>
        parentId != ZERO_ID && HasEndorser(m, accred, MemberState) && ValidateTrustChain(m, owner, now, parentId)
      case Enterprise =>
        parentId != ZERO_ID && HasEndorser(m, accred, BusinessRegistry) && ValidateTrustChain(m, owner, now, parentId)
      case NoScope => false
  }

  /** The first `n` nonzero identifiers met by following parent pointers from `id`. */
  function ParentWalk(m: Records, id: Bytes32, n: nat): (walk: seq<Bytes32>)
    ensures |walk| <= n
    decreases n
  {
    if id == ZERO_ID || n == 0 then []
    else [id] + ParentWalk(m, Get(m, id).parentAccreditationId, n - 1)
  }

  /** `walk` starts at `id` and follows stored parent pointers through nonzero identifiers. */
  predicate IsWalk(m: Records, id: Bytes32, walk: seq<Bytes32>) {
    && (walk != [] ==> walk[0] == id)
    && (forall i | 0 <= i < |walk| :: walk[i] != ZERO_ID)
    && (forall i | 0 <= i < |walk| - 1 :: walk[i + 1] == Get(m, walk[i]).parentAccreditationId)
  }

  /** A parent walk stops short of its bound only at a record without a parent. */
  lemma {:induction false} WalkFollowsParents(m: Records, id: Bytes32, n: nat)
    ensures IsWalk(m, id, ParentWalk(m, id, n))
    ensures var walk := ParentWalk(m, id, n);
            0 < |walk| < n ==> Get(m, walk[|walk| - 1]).parentAccreditationId == ZERO_ID
    decreases n
  {
    if id != ZERO_ID && n > 0 {
      var parentId := Get(m, id).parentAccreditationId;
      WalkFollowsParents(m, parentId, n - 1);
      var walk, rest := ParentWalk(m, id, n), ParentWalk(m, parentId, n - 1);
      assert walk == [id] + rest;
    }
  }
}
