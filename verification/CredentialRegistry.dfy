/**
 * The credential registry: credentials recorded by accredited institutions, whose standing
 * depends on the accreditation registry at the moment they are checked.
 */
module CredentialRegistries {
  import opened Evm
  import opened AppendOnlyIndex
  import AbiEncoding
  import AR = AccreditationRegistries
  import Acc = AccreditationRecords

  datatype Status = Active | Revoked | Suspended | StatusExpired

  datatype Credential = Credential(
    id: Bytes32,
    issuer: Address,
    holder: Address,
    credentialHash: Bytes32,
    credentialType: Bytes,
    status: Status,
    issuedAt: Uint256,
    expiresAt: Uint256,
    issuerAccreditationId: Bytes32,
    present: bool  // the flag `exists`
  )

  /** `mapping(bytes32 => Credential)`: only written entries are present, and writing sets the flag. */
  type Credentials = m: map<Bytes32, Credential> | forall id | id in m :: m[id].present witness map[]

  const UNWRITTEN := Credential(0, 0, 0, 0, [], Active, 0, 0, 0, false)

  function Get(m: Credentials, id: Bytes32): (c: Credential)
    ensures c.present <==> id in m
  {
    if id in m then m[id] else UNWRITTEN
  }

  datatype Error =
    | AccreditationNotFound  // raised inside the accreditation registry
    | UnauthorizedIssuer
    | InvalidAccreditation
    | CredentialNotFound
    | CredentialAlreadyExists
    | CredentialAlreadyRevoked
    | InvalidStatus
    | Unauthorized

  datatype Event =
    | CredentialIssued(id: Bytes32, issuer: Address, holder: Address, credentialType: Bytes, issuerAccreditationId: Bytes32)
    | CredentialRevoked(id: Bytes32, revokedBy: Address, revokedAt: Uint256, reason: Bytes)
    | CredentialSuspended(id: Bytes32, suspendedBy: Address, suspendedAt: Uint256, reason: Bytes)
    | CredentialReactivated(id: Bytes32, reactivatedBy: Address, reactivatedAt: Uint256)
    | CredentialStatusUpdated(id: Bytes32, oldStatus: Status, newStatus: Status)

  datatype Storage = Storage(
    credentials: Credentials,
    byHolder: Index,
    byIssuer: Index,
    log: seq<Event>
  )

  const DEPLOYED := Storage(map[], map[], map[], [])

  /** The arguments of `recordCredential`. */
  datatype RecordArgs = RecordArgs(
    holder: Address,
    credentialHash: Bytes32,
    credentialType: Bytes,
    issuerAccreditationId: Bytes32,
    expiresAt: Uint256
  )

  // ---------------------------------------------------------------------------------------
  // recordCredential
  // ---------------------------------------------------------------------------------------

  /** `_validateIssuerAuthorization`: the error it reverts with, if any. */
  function CheckIssuer(acc: AR.Storage, issuer: Address, now: Uint256, accreditationId: Bytes32): Option<Error> {
    var accred := Acc.Get(acc.accreditations, accreditationId);
    if !accred.present then Some(AccreditationNotFound)
    else if accred.subject != issuer then Some(UnauthorizedIssuer)
    else if accred.scope != Acc.Institution then Some(InvalidAccreditation)
    else if !Acc.ValidateTrustChain(acc.accreditations, acc.owner, now, accreditationId) then Some(InvalidAccreditation)
    else if accred.revoked then Some(InvalidAccreditation)
    else if Expired(accred.expiresAt, now) then Some(InvalidAccreditation)
    else None
  }

  /** The byte string whose hash identifies the credential recorded by a call. */
  function Preimage(msg: Msg, args: RecordArgs): seq<byte> {
    AbiEncoding.EncodeCredential(msg.sender, args.holder, args.credentialHash, args.credentialType, msg.timestamp)
  }

  function NewRecord(id: Bytes32, msg: Msg, args: RecordArgs): (c: Credential)
    ensures c.present
  {
    Credential(id, msg.sender, args.holder, args.credentialHash, args.credentialType, Active,
               msg.timestamp, args.expiresAt, args.issuerAccreditationId, true)
  }

  function WithRecorded(st: Storage, id: Bytes32, msg: Msg, args: RecordArgs): Storage {
    st.(credentials := st.credentials[id := NewRecord(id, msg, args)],
        byHolder := Push(st.byHolder, args.holder, id),
        byIssuer := Push(st.byIssuer, msg.sender, id),
        log := st.log + [CredentialIssued(id, msg.sender, args.holder, args.credentialType, args.issuerAccreditationId)])
  }

  function Record(keccak: Hash, acc: AR.Storage, st: Storage, msg: Msg, args: RecordArgs): (Storage, Result<Bytes32, Error>) {
    match CheckIssuer(acc, msg.sender, msg.timestamp, args.issuerAccreditationId)
    case Some(error) => (st, Failure(error))
    case None =>
      var id := keccak(Preimage(msg, args));
      if Get(st.credentials, id).present then (st, Failure(CredentialAlreadyExists))
      else (WithRecorded(st, id, msg, args), Success(id))
  }

  // ---------------------------------------------------------------------------------------
  // revokeCredential, suspendCredential, reactivateCredential
  // ---------------------------------------------------------------------------------------

  datatype StatusChange = ToRevoked(reason: Bytes) | ToSuspended(reason: Bytes) | ToActive

  function TargetStatus(change: StatusChange): Status {
    match change
    case ToRevoked(_) => Revoked
    case ToSuspended(_) => Suspended
    case ToActive => Active
  }

  /** The event that goes before `CredentialStatusUpdated`. */
  function ChangeEvent(change: StatusChange, id: Bytes32, msg: Msg): Event {
    match change
    case ToRevoked(reason) => CredentialRevoked(id, msg.sender, msg.number, reason)
    case ToSuspended(reason) => CredentialSuspended(id, msg.sender, msg.timestamp, reason)
    case ToActive => CredentialReactivated(id, msg.sender, msg.timestamp)
  }

  /** Revocation and suspension refuse a revoked credential; reactivation takes only a suspended one. */
  function CheckChange(cred: Credential, msg: Msg, change: StatusChange): Option<Error> {
    if !cred.present then Some(CredentialNotFound)
    else if !change.ToActive? && cred.status == Revoked then Some(CredentialAlreadyRevoked)
    else if change.ToActive? && cred.status != Suspended then Some(InvalidStatus)
    else if msg.sender != cred.issuer then Some(Unauthorized)
    else None
  }

  function WithStatus(st: Storage, id: Bytes32, msg: Msg, change: StatusChange): Storage
    requires Get(st.credentials, id).present
  {
    var cred := Get(st.credentials, id);
    st.(credentials := st.credentials[id := cred.(status := TargetStatus(change))],
        log := st.log + [ChangeEvent(change, id, msg)] + [CredentialStatusUpdated(id, cred.status, TargetStatus(change))])
  }

  function Change(st: Storage, msg: Msg, id: Bytes32, change: StatusChange): (Storage, Result<(), Error>) {
    match CheckChange(Get(st.credentials, id), msg, change)
    case Some(error) => (st, Failure(error))
    case None => (WithStatus(st, id, msg, change), Success(()))
  }

  // ---------------------------------------------------------------------------------------
  // Reading
  // ---------------------------------------------------------------------------------------

  predicate IsActive(acc: AR.Storage, st: Storage, now: Uint256, id: Bytes32) {
    var cred := Get(st.credentials, id);
    if !cred.present then false
    else if cred.status != Active then false
    else if Expired(cred.expiresAt, now) then false
    else Acc.ValidateTrustChain(acc.accreditations, acc.owner, now, cred.issuerAccreditationId)
  }

  function GetCredentialStatus(st: Storage, now: Uint256, id: Bytes32): Result<Status, Error> {
    var cred := Get(st.credentials, id);
    if !cred.present then Failure(CredentialNotFound)
    else if Expired(cred.expiresAt, now) then Success(StatusExpired)
    else Success(cred.status)
  }

  datatype Verification = Verification(isValid: bool, status: Status, trustChainValid: bool)

  function VerifyCredential(acc: AR.Storage, st: Storage, now: Uint256, id: Bytes32): Verification {
    var cred := Get(st.credentials, id);
    if !cred.present then Verification(false, Revoked, false)
    else if Expired(cred.expiresAt, now) then Verification(false, StatusExpired, false)
    else
      var trustChainValid := Acc.ValidateTrustChain(acc.accreditations, acc.owner, now, cred.issuerAccreditationId);
      Verification(cred.status == Active && trustChainValid, cred.status, trustChainValid)
  }

  /**
   * The readers agree: `verifyCredential` and `isActive` give one verdict, and the status it reports
   * is the one `getCredentialStatus` returns; for an unknown id the latter reverts while
   * the former answers Revoked. The status reported is the stored one, unless expiry hides it. The chain is
   * reported valid, whatever the status, iff the credential is stored, has not expired and its accreditation validates.
   */
  lemma ReadersAgree(acc: AR.Storage, st: Storage, now: Uint256, id: Bytes32)
    ensures VerifyCredential(acc, st, now, id).isValid == IsActive(acc, st, now, id)
    ensures GetCredentialStatus(st, now, id) ==
              if id in st.credentials then Success(VerifyCredential(acc, st, now, id).status) else Failure(CredentialNotFound)
    ensures IsActive(acc, st, now, id) <==>
              && GetCredentialStatus(st, now, id) == Success(Active)
              && VerifyCredential(acc, st, now, id).trustChainValid
    ensures id in st.credentials ==>
              VerifyCredential(acc, st, now, id).status ==
                if Expired(st.credentials[id].expiresAt, now) then StatusExpired else st.credentials[id].status
    ensures VerifyCredential(acc, st, now, id).trustChainValid <==>
              && id in st.credentials
              && !Expired(st.credentials[id].expiresAt, now)
              && Acc.ValidateTrustChain(acc.accreditations, acc.owner, now, st.credentials[id].issuerAccreditationId)
    ensures id !in st.credentials ==> VerifyCredential(acc, st, now, id) == Verification(false, Revoked, false)
  {
  }

  // ---------------------------------------------------------------------------------------
  // The contract
  // ---------------------------------------------------------------------------------------

  class CredentialRegistry {
    const accreditationRegistry: AR.AccreditationRegistry
    const keccak: Hash
    var credentials: Credentials
    var credentialsByHolder: Index
    var credentialsByIssuer: Index
    var log: seq<Event>

    function State(): Storage
      reads this
    {
      Storage(credentials, credentialsByHolder, credentialsByIssuer, log)
    }

    constructor (accreditationRegistry: AR.AccreditationRegistry, keccak: Hash)
      ensures State() == DEPLOYED
      ensures this.accreditationRegistry == accreditationRegistry && this.keccak == keccak
    {
      this.accreditationRegistry, this.keccak := accreditationRegistry, keccak;
      credentials, credentialsByHolder, credentialsByIssuer, log := map[], map[], map[], [];
    }

    method RecordCredential(msg: Msg, args: RecordArgs) returns (r: Result<Bytes32, Error>)
      modifies this
      ensures (State(), r) == Record(keccak, accreditationRegistry.State(), old(State()), msg, args)
    {
      var denied := CheckIssuer(accreditationRegistry.State(), msg.sender, msg.timestamp, args.issuerAccreditationId);
      if denied.Some? {
        return Failure(denied.value);
      }

      var id := keccak(Preimage(msg, args));
      if Get(credentials, id).present {
        return Failure(CredentialAlreadyExists);
      }

      credentials := credentials[id := NewRecord(id, msg, args)];
      credentialsByHolder := Push(credentialsByHolder, args.holder, id);
      credentialsByIssuer := Push(credentialsByIssuer, msg.sender, id);
      log := log + [CredentialIssued(id, msg.sender, args.holder, args.credentialType, args.issuerAccreditationId)];
      return Success(id);
    }

    method RevokeCredential(msg: Msg, id: Bytes32, reason: Bytes) returns (r: Result<(), Error>)
      modifies this
      ensures (State(), r) == Change(old(State()), msg, id, ToRevoked(reason))
    {
      var cred := Get(credentials, id);
      if !cred.present {
        return Failure(CredentialNotFound);
      }
      if cred.status == Revoked {
        return Failure(CredentialAlreadyRevoked);
      }
      if msg.sender != cred.issuer {
        return Failure(Unauthorized);
      }

      var oldStatus := cred.status;
      credentials := credentials[id := cred.(status := Revoked)];
      log := log + [CredentialRevoked(id, msg.sender, msg.number, reason)];
      log := log + [CredentialStatusUpdated(id, oldStatus, Revoked)];
      return Success(());
    }

    method SuspendCredential(msg: Msg, id: Bytes32, reason: Bytes) returns (r: Result<(), Error>)
      modifies this
      ensures (State(), r) == Change(old(State()), msg, id, ToSuspended(reason))
    {
      var cred := Get(credentials, id);
      if !cred.present {
        return Failure(CredentialNotFound);
      }
      if cred.status == Revoked {
        return Failure(CredentialAlreadyRevoked);
      }
      if msg.sender != cred.issuer {
        return Failure(Unauthorized);
      }

      var oldStatus := cred.status;
      credentials := credentials[id := cred.(status := Suspended)];
      log := log + [CredentialSuspended(id, msg.sender, msg.timestamp, reason)];
      log := log + [CredentialStatusUpdated(id, oldStatus, Suspended)];
      return Success(());
    }

    method ReactivateCredential(msg: Msg, id: Bytes32) returns (r: Result<(), Error>)
      modifies this
      ensures (State(), r) == Change(old(State()), msg, id, ToActive)
    {
      var cred := Get(credentials, id);
      if !cred.present {
        return Failure(CredentialNotFound);
      }
      if cred.status != Suspended {
        return Failure(InvalidStatus);
      }
      if msg.sender != cred.issuer {
        return Failure(Unauthorized);
      }

      var oldStatus := cred.status;
      credentials := credentials[id := cred.(status := Active)];
      log := log + [CredentialReactivated(id, msg.sender, msg.timestamp)];
      log := log + [CredentialStatusUpdated(id, oldStatus, Active)];
      return Success(());
    }

    method BatchVerifyCredentials(ids: seq<Bytes32>, now: Uint256) returns (results: seq<bool>)
      ensures |results| == |ids|
      ensures forall i | 0 <= i < |ids| :: results[i] == IsActive(accreditationRegistry.State(), State(), now, ids[i])
    {
      var acc := accreditationRegistry.State();
      var memory := new bool[|ids|](_ => false);
      for i := 0 to |ids|
        invariant forall k | 0 <= k < i :: memory[k] == IsActive(acc, State(), now, ids[k])
      {
        var cred := Get(credentials, ids[i]);
        if !cred.present {
          memory[i] := false;
          continue;
        }

        var isValid := cred.status == Active && (cred.expiresAt == 0 || cred.expiresAt >= now);
        var trustChainValid := Acc.ValidateTrustChain(acc.accreditations, acc.owner, now, cred.issuerAccreditationId);
        memory[i] := isValid && trustChainValid;
      }
      results := memory[..];
    }
  }
}
