/**
 * The accreditation registry: its storage as a value, its two transactions as functions on
 * that value, and the contract itself as a class proved to carry them out.
 */
module AccreditationRegistries {
  import opened Evm
  import opened AccreditationRecords
  import opened AppendOnlyIndex
  import AbiEncoding

  datatype Error =
    | NotMemberState
    | InvalidParentAccreditation
    | InvalidScope
    | UnauthorizedIssuer
    | InvalidTrustChain
    | AccreditationAlreadyExists
    | AccreditationNotFound
    | AccreditationAlreadyRevoked
    | UnauthorizedToRevoke

  datatype Event =
    | AccreditationIssued(id: Bytes32, issuer: Address, subject: Address, scope: Scope, parentAccreditationId: Bytes32)
    | AccreditationRevoked(id: Bytes32, revokedBy: Address, revokedAt: Uint256)

  /** `mapping(bytes32 => mapping(address => bool))`. */
  type Flags = map<(Bytes32, Address), bool>

  function Flag(flags: Flags, id: Bytes32, who: Address): bool {
    (id, who) in flags && flags[(id, who)]
  }

  /** Everything the contract stores, and the events it has emitted. */
  datatype Storage = Storage(
    owner: Address,
    accreditations: Records,
    bySubject: Index,
    byIssuer: Index,
    valid: Flags,
    log: seq<Event>
  )

  /** The storage right after deployment. */
  function Deployed(owner: Address): Storage {
    Storage(owner, map[], map[], map[], map[], [])
  }

  /** The arguments of `issueAccreditation`. */
  datatype IssueArgs = IssueArgs(
    subject: Address,
    scope: Scope,
    parentAccreditationId: Bytes32,
    permissionsHash: Bytes32,
    expiresAt: Uint256
  )

  // ---------------------------------------------------------------------------------------
  // issueAccreditation
  // ---------------------------------------------------------------------------------------

  /** The checks made on the parent for the four scopes that always need one. */
  function CheckParent(st: Storage, issuer: Address, now: Uint256, parentId: Bytes32, required: Scope): Option<Error> {
    if parentId == ZERO_ID then Some(InvalidParentAccreditation)
    else
      var parent := Get(st.accreditations, parentId);
      if !parent.present then Some(InvalidParentAccreditation)
      else if parent.scope != required then Some(InvalidScope)
      else if parent.subject != issuer && issuer != st.owner then Some(UnauthorizedIssuer)
      else if !ValidateTrustChain(st.accreditations, st.owner, now, parentId) then Some(InvalidTrustChain)
      else None
  }

  /** `_validateIssuerAuthorization`: the error it reverts with, if any. */
  function CheckIssuer(st: Storage, issuer: Address, now: Uint256, scope: Scope, parentId: Bytes32): Option<Error> {
    match scope
    case MemberState => if issuer != st.owner then Some(NotMemberState) else None
    case Ministry =>
      if issuer == st.owner then None
      else if parentId == ZERO_ID then Some(InvalidParentAccreditation)
      else
        var parent := Get(st.accreditations, parentId);
        if !parent.present then Some(InvalidParentAccreditation)
        else if parent.scope != MemberState then Some(InvalidScope)
        else if parent.subject != issuer then Some(UnauthorizedIssuer)
        else if parent.revoked then Some(InvalidTrustChain)
        else None
    case Institution => CheckParent(st, issuer, now, parentId, Ministry)
    case Department => CheckParent(st, issuer, now, parentId, Institution)
    case BusinessRegistry => CheckParent(st, issuer, now, parentId, MemberState)
    case Enterprise => CheckParent(st, issuer, now, parentId, BusinessRegistry)
    case NoScope => Some(InvalidScope)
  }

  /** A scope as the `uint8` it is encoded as. */
  function ScopeByte(scope: Scope): byte {
    match scope
    case NoScope => 0
    case MemberState => 1
    case Ministry => 2
    case Institution => 3
    case Department => 4
    case BusinessRegistry => 5
    case Enterprise => 6
  }

  /** The byte string whose hash identifies the accreditation issued by a call. */
  function Preimage(msg: Msg, args: IssueArgs): seq<byte> {
    AbiEncoding.PackAccreditation(msg.sender, args.subject, ScopeByte(args.scope), args.permissionsHash, msg.timestamp)
  }

  function NewRecord(id: Bytes32, msg: Msg, args: IssueArgs): (a: Accreditation)
    ensures a.present
  {
    Accreditation(id, msg.sender, args.subject, args.parentAccreditationId, args.scope, args.permissionsHash,
                  msg.timestamp, args.expiresAt, false, true)
  }

  /** The storage after `id` has been written, indexed, flagged and announced. */
  function WithIssued(st: Storage, id: Bytes32, msg: Msg, args: IssueArgs): Storage {
    st.(accreditations := st.accreditations[id := NewRecord(id, msg, args)],
        bySubject := Push(st.bySubject, args.subject, id),
        byIssuer := Push(st.byIssuer, msg.sender, id),
        valid := st.valid[(id, args.subject) := true],
        log := st.log + [AccreditationIssued(id, msg.sender, args.subject, args.scope, args.parentAccreditationId)])
  }

  function Issue(keccak: Hash, st: Storage, msg: Msg, args: IssueArgs): (Storage, Result<Bytes32, Error>) {
    match CheckIssuer(st, msg.sender, msg.timestamp, args.scope, args.parentAccreditationId)
    case Some(error) => (st, Failure(error))
    case None =>
      var id := keccak(Preimage(msg, args));
      if Get(st.accreditations, id).present then (st, Failure(AccreditationAlreadyExists))
      else (WithIssued(st, id, msg, args), Success(id))
  }

  // ---------------------------------------------------------------------------------------
  // revokeAccreditation
  // ---------------------------------------------------------------------------------------

  /** The storage after the stored record `id` has been revoked by the caller. */
  function WithRevoked(st: Storage, id: Bytes32, msg: Msg): Storage
    requires Get(st.accreditations, id).present
  {
    var accred := Get(st.accreditations, id);
    st.(accreditations := st.accreditations[id := accred.(revoked := true)],
        valid := st.valid[(id, accred.subject) := false],
        log := st.log + [AccreditationRevoked(id, msg.sender, msg.number)])
  }

  function Revoke(st: Storage, msg: Msg, id: Bytes32): (Storage, Result<(), Error>) {
    var accred := Get(st.accreditations, id);
    if !accred.present then (st, Failure(AccreditationNotFound))
    else if accred.revoked then (st, Failure(AccreditationAlreadyRevoked))
    else if msg.sender != st.owner && msg.sender != accred.issuer then (st, Failure(UnauthorizedToRevoke))
    else (WithRevoked(st, id, msg), Success(()))
  }

  /** The record `hasValidAccreditation` looks for. Its expiry test is stricter than the trust chain's. */
  predicate Grants(m: Records, owner: Address, now: Uint256, scope: Scope, id: Bytes32) {
    var accred := Get(m, id);
    && accred.scope == scope
    && !accred.revoked
    && (accred.expiresAt == 0 || accred.expiresAt > now)
    && ValidateTrustChain(m, owner, now, id)
  }

  function Reversed<T>(s: seq<T>): (r: seq<T>)
    ensures |r| == |s|
    ensures forall i | 0 <= i < |s| :: r[i] == s[|s| - 1 - i]
  {
    seq(|s|, i requires 0 <= i < |s| => s[|s| - 1 - i])
  }

  /** The longest chain `getTrustChain` returns: the walk stops once its length exceeds ten. */
  const CHAIN_BOUND: nat := 11

  // ---------------------------------------------------------------------------------------
  // The contract
  // ---------------------------------------------------------------------------------------

  class AccreditationRegistry {
    const owner: Address
    const keccak: Hash
    var accreditations: Records
    var accreditationsBySubject: Index
    var accreditationsByIssuer: Index
    var validAccreditations: Flags
    var log: seq<Event>

    function State(): Storage
      reads this
    {
      Storage(owner, accreditations, accreditationsBySubject, accreditationsByIssuer, validAccreditations, log)
    }

    constructor (deployer: Address, keccak: Hash)
      ensures State() == Deployed(deployer) && this.keccak == keccak
    {
      this.owner, this.keccak := deployer, keccak;
      accreditations, accreditationsBySubject, accreditationsByIssuer := map[], map[], map[];
      validAccreditations, log := map[], [];
    }

    method IssueAccreditation(msg: Msg, args: IssueArgs) returns (r: Result<Bytes32, Error>)
      modifies this
      ensures (State(), r) == Issue(keccak, old(State()), msg, args)
    {
      var denied := CheckIssuer(State(), msg.sender, msg.timestamp, args.scope, args.parentAccreditationId);
      if denied.Some? {
        return Failure(denied.value);
      }

      var id := keccak(Preimage(msg, args));
      if Get(accreditations, id).present {
        return Failure(AccreditationAlreadyExists);
      }

      accreditations := accreditations[id := NewRecord(id, msg, args)];
      accreditationsBySubject := Push(accreditationsBySubject, args.subject, id);
      accreditationsByIssuer := Push(accreditationsByIssuer, msg.sender, id);
      validAccreditations := validAccreditations[(id, args.subject) := true];
      log := log + [AccreditationIssued(id, msg.sender, args.subject, args.scope, args.parentAccreditationId)];
      return Success(id);
    }

    method RevokeAccreditation(msg: Msg, id: Bytes32) returns (r: Result<(), Error>)
      modifies this
      ensures (State(), r) == Revoke(old(State()), msg, id)
    {
      var accred := Get(accreditations, id);
      if !accred.present {
        return Failure(AccreditationNotFound);
      }
      if accred.revoked {
        return Failure(AccreditationAlreadyRevoked);
      }
      if !(msg.sender == owner || msg.sender == accred.issuer) {
        return Failure(UnauthorizedToRevoke);
      }

      accreditations := accreditations[id := accred.(revoked := true)];
      validAccreditations := validAccreditations[(id, accred.subject) := false];
      log := log + [AccreditationRevoked(id, msg.sender, msg.number)];
      return Success(());
    }

    method HasValidAccreditation(subject: Address, scope: Scope, now: Uint256) returns (found: bool)
      ensures found <==> exists id :: id in Listed(accreditationsBySubject, subject)
                                      && Grants(accreditations, owner, now, scope, id)
    {
      var accreds := Listed(accreditationsBySubject, subject);
      for i := 0 to |accreds|
        invariant forall id | id in accreds[..i] :: !Grants(accreditations, owner, now, scope, id)
      {
        var accred := Get(accreditations, accreds[i]);
        if accred.scope == scope && !accred.revoked
           && (accred.expiresAt == 0 || accred.expiresAt > now)
           && ValidateTrustChain(accreditations, owner, now, accreds[i])
        {
          assert Grants(accreditations, owner, now, scope, accreds[i]);
          return true;
        }
        assert accreds[..i + 1] == accreds[..i] + [accreds[i]];
      }
      assert accreds[..|accreds|] == accreds;
      return false;
    }

    /** `_getChainLength`: counts the walk, giving up once the count exceeds ten. */
    method GetChainLength(id: Bytes32) returns (length: nat)
      ensures length == |ParentWalk(accreditations, id, CHAIN_BOUND)|
    {
      length := 0;
      var currentId := id;
      while currentId != ZERO_ID
        invariant length <= 10
        invariant |ParentWalk(accreditations, id, CHAIN_BOUND)|
               == length + |ParentWalk(accreditations, currentId, CHAIN_BOUND - length)|
        decreases CHAIN_BOUND - length
      {
        length := length + 1;
        currentId := Get(accreditations, currentId).parentAccreditationId;
        if length > 10 {
          break;
        }
      }
    }

    method GetTrustChain(id: Bytes32) returns (chain: seq<Bytes32>)
      ensures chain == Reversed(ParentWalk(accreditations, id, CHAIN_BOUND))
    {
      var chainLength := GetChainLength(id);
      WalkFollowsParents(accreditations, id, CHAIN_BOUND);
      chain := FillChain(id, chainLength, ParentWalk(accreditations, id, CHAIN_BOUND));
    }

    /** The loop of `getTrustChain`: writes the walk into an array of its length, last entry first. */
    method FillChain(id: Bytes32, chainLength: nat, ghost walk: seq<Bytes32>) returns (chain: seq<Bytes32>)
      requires |walk| == chainLength && IsWalk(accreditations, id, walk)
      ensures chain == Reversed(walk)
    {
      var memory := new Bytes32[chainLength](_ => ZERO_ID);
      var currentId := id;
      var i := chainLength;
      while i > 0
        invariant 0 <= i <= chainLength == memory.Length
        invariant i > 0 ==> currentId == walk[chainLength - i]
        invariant forall k | i <= k < chainLength :: memory[k] == walk[chainLength - 1 - k]
      {
        memory[i - 1] := currentId;
        currentId := Get(accreditations, currentId).parentAccreditationId;
        i := i - 1;
        assert i > 0 ==> walk[chainLength - i - 1 + 1] == currentId;
        if currentId == ZERO_ID {
          break;
        }
      }
      chain := memory[..];
    }
  }
}
