/** What holds of the credential registry's storage in every reachable state. */
module CredentialInvariants {
  import opened Evm
  import opened AppendOnlyIndex
  import opened CredentialRegistries
  import AbiEncoding
  import AR = AccreditationRegistries
  import Acc = AccreditationRecords
  import Trust = TrustChain

  // ---------------------------------------------------------------------------------------
  // Keys and indexes
  // ---------------------------------------------------------------------------------------

  /** The byte string hashed when `c` was recorded. */
  function RecordPreimage(c: Credential): seq<byte> {
    AbiEncoding.EncodeCredential(c.issuer, c.holder, c.credentialHash, c.credentialType, c.issuedAt)
  }

  ghost predicate WellKeyed(keccak: Hash, st: Storage, now: Uint256) {
    forall id | id in st.credentials ::
      var c := st.credentials[id];
      c.id == id && id == keccak(RecordPreimage(c)) && c.issuedAt <= now
  }

  datatype Party = Holder | Issuer

  function PartyOf(c: Credential, party: Party): Address {
    match party
    case Holder => c.holder
    case Issuer => c.issuer
  }

  function IndexOf(st: Storage, party: Party): Index {
    match party
    case Holder => st.byHolder
    case Issuer => st.byIssuer
  }

  /** What a credential is listed as in the index for `party`. */
  function EntryOf(party: Party): Credential -> Entry {
    (c: Credential) => Entry(PartyOf(c, party), c.issuedAt)
  }

  ghost predicate PartyIndexExact(st: Storage, party: Party) {
    IndexExact(Entries(st.credentials, EntryOf(party)), IndexOf(st, party))
  }

  // ---------------------------------------------------------------------------------------
  // Issuer standing
  // ---------------------------------------------------------------------------------------

  /**
   * The accreditation a credential names is stored, with all the ancestors a verdict on it can look at; it is an
   * Institution's, and is about the credential's issuer.
   */
  ghost predicate Accredited(m: Acc.Records, c: Credential) {
    var a := Acc.Get(m, c.issuerAccreditationId);
    && Trust.WalkStored(m, c.issuerAccreditationId, 3)
    && a.scope == Acc.Institution
    && a.subject == c.issuer
  }

  ghost predicate IssuersAccredited(m: Acc.Records, st: Storage) {
    forall id | id in st.credentials :: Accredited(m, st.credentials[id])
  }

  lemma EvolutionKeepsIssuers(m: Acc.Records, m': Acc.Records, st: Storage)
    requires Trust.Evolves(m, m') && IssuersAccredited(m, st)
    ensures IssuersAccredited(m', st)
  {
    forall id | id in st.credentials ensures Accredited(m', st.credentials[id]) {
      var accreditationId := st.credentials[id].issuerAccreditationId;
      assert Accredited(m, st.credentials[id]) && Acc.Get(m, accreditationId).present;
      Trust.WalkStoredEvolves(m, m', accreditationId, 3);
    }
  }

  // ---------------------------------------------------------------------------------------
  // Event log
  // ---------------------------------------------------------------------------------------

  /** What a subscriber to the events knows of a credential. */
  datatype Seen = Seen(issuer: Address, holder: Address, credentialType: Bytes, issuerAccreditationId: Bytes32, status: Status)

  function SeenOf(c: Credential): Seen {
    Seen(c.issuer, c.holder, c.credentialType, c.issuerAccreditationId, c.status)
  }

  function Apply(table: map<Bytes32, Seen>, event: Event): map<Bytes32, Seen> {
    match event
    case CredentialIssued(id, issuer, holder, credentialType, accreditationId) =>
      table[id := Seen(issuer, holder, credentialType, accreditationId, Active)]
    case CredentialStatusUpdated(id, _, newStatus) =>
      if id in table then table[id := table[id].(status := newStatus)] else table
    case _ => table
  }

  /** A subscriber's table after reading the log. */
  function Replay(log: seq<Event>): map<Bytes32, Seen> {
    if log == [] then map[] else Apply(Replay(log[..|log| - 1]), log[|log| - 1])
  }

  /** `event` announces, in the name of the issuer the subscriber knows, a change of `id` to `newStatus`. */
  predicate Announces(event: Event, id: Bytes32, issuer: Address, newStatus: Status) {
    match newStatus
    case Revoked => event.CredentialRevoked? && event.id == id && event.revokedBy == issuer
    case Suspended => event.CredentialSuspended? && event.id == id && event.suspendedBy == issuer
    case Active => event.CredentialReactivated? && event.id == id && event.reactivatedBy == issuer
    case StatusExpired => false
  }

  predicate IsAnnouncement(event: Event) {
    event.CredentialRevoked? || event.CredentialSuspended? || event.CredentialReactivated?
  }

  /**
   * An update names the status the subscriber already has, which is not Revoked, and comes right after the event that
   * announces the new one; nothing else comes after an announcement, and no identifier is issued twice.
   */
  ghost predicate Consistent(before: seq<Event>, event: Event) {
    var table := Replay(before);
    && (IsAnnouncement(event) ==> before == [] || !IsAnnouncement(before[|before| - 1]))
    && (event.CredentialIssued? ==>
          event.id !in table && (before == [] || !IsAnnouncement(before[|before| - 1])))
    && (event.CredentialStatusUpdated? ==>
          && event.id in table && table[event.id].status == event.oldStatus && event.oldStatus != Revoked
          && before != [] && Announces(before[|before| - 1], event.id, table[event.id].issuer, event.newStatus))
  }

  ghost predicate LogConsistent(log: seq<Event>) {
    log == [] ||
      var front, last := log[..|log| - 1], log[|log| - 1];
      LogConsistent(front) && Consistent(front, last)
  }

  lemma AppendToLog(log: seq<Event>, event: Event)
    ensures Replay(log + [event]) == Apply(Replay(log), event)
    ensures LogConsistent(log) && Consistent(log, event) ==> LogConsistent(log + [event])
  {
    assert (log + [event])[..|log|] == log;
  }

  /** The replayed table is the storage, record by record; Expired is never stored; no announcement is left without its update. */
  ghost predicate LogExact(st: Storage) {
    && LogConsistent(st.log)
    && (st.log != [] ==> !IsAnnouncement(st.log[|st.log| - 1]))
    && TableExact(Replay(st.log), st.credentials)
  }

  ghost predicate TableExact(table: map<Bytes32, Seen>, m: Credentials) {
    && table.Keys == m.Keys
    && forall id | id in m :: table[id] == SeenOf(m[id]) && m[id].status != StatusExpired
  }

  /** Each status update in the log comes right after the event that announces it, in the name of the issuer in `table`. */
  ghost predicate UpdatesAnnounced(log: seq<Event>, table: map<Bytes32, Seen>) {
    forall i | 0 <= i < |log| && log[i].CredentialStatusUpdated? ::
      0 < i && log[i].id in table && Announces(log[i - 1], log[i].id, table[log[i].id].issuer, log[i].newStatus)
  }

  /** Each announcement but a last one comes right before an update. */
  ghost predicate AnnouncementsFollowed(log: seq<Event>) {
    forall i | 0 <= i < |log| - 1 && IsAnnouncement(log[i]) :: log[i + 1].CredentialStatusUpdated?
  }

  lemma {:induction false} ConsistentLogAnnounces(log: seq<Event>)
    requires LogConsistent(log)
    ensures UpdatesAnnounced(log, Replay(log)) && AnnouncementsFollowed(log)
  {
    if log != [] {
      var front, last := log[..|log| - 1], log[|log| - 1];
      ConsistentLogAnnounces(front);
      assert forall id | id in Replay(front) :: id in Replay(log) && Replay(log)[id].issuer == Replay(front)[id].issuer;
      forall i | 0 <= i < |log| && log[i].CredentialStatusUpdated?
        ensures 0 < i && log[i].id in Replay(log)
        ensures Announces(log[i - 1], log[i].id, Replay(log)[log[i].id].issuer, log[i].newStatus)
      {
        if i < |front| { assert log[i] == front[i] && log[i - 1] == front[i - 1]; }
      }
      forall i | 0 <= i < |log| - 1 && IsAnnouncement(log[i]) ensures log[i + 1].CredentialStatusUpdated? {
        if i < |front| - 1 { assert log[i] == front[i] && log[i + 1] == front[i + 1]; }
      }
    }
  }

  /**
   * What a listener may rely on, in every reachable state: a status update stands right after one announcement of that
   * very change, made in the name of the credential's stored issuer, and announcements stand nowhere else.
   */
  lemma ChangesAreAnnounced(st: Storage, i: nat)
    requires LogExact(st) && i < |st.log|
    ensures st.log[i].CredentialStatusUpdated? ==>
              && 0 < i && st.log[i].id in st.credentials
              && Announces(st.log[i - 1], st.log[i].id, st.credentials[st.log[i].id].issuer, st.log[i].newStatus)
    ensures IsAnnouncement(st.log[i]) ==> i + 1 < |st.log| && st.log[i + 1].CredentialStatusUpdated?
  {
    ConsistentLogAnnounces(st.log);
    if st.log[i].CredentialStatusUpdated? {
      assert Replay(st.log)[st.log[i].id] == SeenOf(st.credentials[st.log[i].id]);
    }
  }

  // ---------------------------------------------------------------------------------------
  // The invariant
  // ---------------------------------------------------------------------------------------

  ghost predicate RegistryInvariant(keccak: Hash, m: Acc.Records, st: Storage, now: Uint256) {
    && WellKeyed(keccak, st, now)
    && PartyIndexExact(st, Holder)
    && PartyIndexExact(st, Issuer)
    && IssuersAccredited(m, st)
    && LogExact(st)
  }

  lemma RecordKeepsIndex(keccak: Hash, st: Storage, msg: Msg, args: RecordArgs, id: Bytes32, party: Party)
    requires WellKeyed(keccak, st, msg.timestamp) && PartyIndexExact(st, party) && !Get(st.credentials, id).present
    ensures PartyIndexExact(WithRecorded(st, id, msg, args), party)
  {
    InsertKeepsExact(st.credentials, EntryOf(party), IndexOf(st, party), id, NewRecord(id, msg, args));
  }

  lemma ChangeKeepsIndex(st: Storage, msg: Msg, id: Bytes32, change: StatusChange, party: Party)
    requires PartyIndexExact(st, party) && Get(st.credentials, id).present
    ensures PartyIndexExact(WithStatus(st, id, msg, change), party)
  {
    UpdateKeepsEntries(st.credentials, EntryOf(party), id, st.credentials[id].(status := TargetStatus(change)));
  }

  lemma RecordKeepsLog(st: Storage, msg: Msg, args: RecordArgs, id: Bytes32)
    requires LogExact(st) && !Get(st.credentials, id).present
    ensures LogExact(WithRecorded(st, id, msg, args))
  {
    var event := CredentialIssued(id, msg.sender, args.holder, args.credentialType, args.issuerAccreditationId);
    AppendToLog(st.log, event);
  }

  /** What the two events of a status change do to the subscriber's table. */
  lemma ChangeInLog(log: seq<Event>, msg: Msg, id: Bytes32, change: StatusChange, oldStatus: Status)
    requires LogConsistent(log) && (log != [] ==> !IsAnnouncement(log[|log| - 1]))
    requires id in Replay(log) && Replay(log)[id].status == oldStatus != Revoked && Replay(log)[id].issuer == msg.sender
    ensures var log' := log + [ChangeEvent(change, id, msg)] + [CredentialStatusUpdated(id, oldStatus, TargetStatus(change))];
            && LogConsistent(log')
            && !IsAnnouncement(log'[|log'| - 1])
            && Replay(log') == Replay(log)[id := Replay(log)[id].(status := TargetStatus(change))]
  {
    var first := ChangeEvent(change, id, msg);
    AppendToLog(log, first);
    AppendToLog(log + [first], CredentialStatusUpdated(id, oldStatus, TargetStatus(change)));
  }

  lemma ChangedTable(table: map<Bytes32, Seen>, m: Credentials, id: Bytes32, status: Status)
    requires TableExact(table, m) && id in m && status != StatusExpired
    ensures TableExact(table[id := table[id].(status := status)], m[id := m[id].(status := status)])
  {
  }

  lemma ChangeKeepsLog(st: Storage, msg: Msg, id: Bytes32, change: StatusChange)
    requires LogExact(st) && CheckChange(Get(st.credentials, id), msg, change) == None
    ensures LogExact(WithStatus(st, id, msg, change))
  {
    ChangeInLog(st.log, msg, id, change, st.credentials[id].status);
    ChangedTable(Replay(st.log), st.credentials, id, TargetStatus(change));
  }

  lemma RecordKeepsKeys(keccak: Hash, acc: AR.Storage, st: Storage, msg: Msg, args: RecordArgs)
    requires WellKeyed(keccak, st, msg.timestamp)
    ensures WellKeyed(keccak, Record(keccak, acc, st, msg, args).0, msg.timestamp)
  {
  }

  lemma ChangeKeepsKeys(keccak: Hash, st: Storage, msg: Msg, id: Bytes32, change: StatusChange)
    requires WellKeyed(keccak, st, msg.timestamp)
    ensures WellKeyed(keccak, Change(st, msg, id, change).0, msg.timestamp)
  {
  }

  lemma RecordKeepsIssuers(keccak: Hash, acc: AR.Storage, st: Storage, msg: Msg, args: RecordArgs)
    requires IssuersAccredited(acc.accreditations, st)
    ensures IssuersAccredited(acc.accreditations, Record(keccak, acc, st, msg, args).0)
  {
    if Record(keccak, acc, st, msg, args).1.Success? {
      Trust.ValidWalkStored(acc.accreditations, acc.owner, msg.timestamp, args.issuerAccreditationId, 3);
    }
  }

  lemma ChangeKeepsIssuers(m: Acc.Records, st: Storage, msg: Msg, id: Bytes32, change: StatusChange)
    requires IssuersAccredited(m, st)
    ensures IssuersAccredited(m, Change(st, msg, id, change).0)
  {
    assert Get(st.credentials, id).present ==> Accredited(m, st.credentials[id]);
  }

  lemma RecordKeepsInvariant(keccak: Hash, acc: AR.Storage, st: Storage, msg: Msg, args: RecordArgs)
    requires RegistryInvariant(keccak, acc.accreditations, st, msg.timestamp)
    ensures RegistryInvariant(keccak, acc.accreditations, Record(keccak, acc, st, msg, args).0, msg.timestamp)
  {
    var (st', r) := Record(keccak, acc, st, msg, args);
    if r.Success? {
      RecordKeepsKeys(keccak, acc, st, msg, args);
      RecordKeepsIssuers(keccak, acc, st, msg, args);
      RecordKeepsIndex(keccak, st, msg, args, r.value, Holder);
      RecordKeepsIndex(keccak, st, msg, args, r.value, Issuer);
      RecordKeepsLog(st, msg, args, r.value);
    }
  }

  lemma ChangeKeepsInvariant(keccak: Hash, m: Acc.Records, st: Storage, msg: Msg, id: Bytes32, change: StatusChange)
    requires RegistryInvariant(keccak, m, st, msg.timestamp)
    ensures RegistryInvariant(keccak, m, Change(st, msg, id, change).0, msg.timestamp)
  {
    var (st', r) := Change(st, msg, id, change);
    if r.Success? {
      ChangeKeepsKeys(keccak, st, msg, id, change);
      ChangeKeepsIssuers(m, st, msg, id, change);
      ChangeKeepsIndex(st, msg, id, change, Holder);
      ChangeKeepsIndex(st, msg, id, change, Issuer);
      ChangeKeepsLog(st, msg, id, change);
    }
  }

  // ---------------------------------------------------------------------------------------
  // Evolution and identity
  // ---------------------------------------------------------------------------------------

  /** No credential disappears or changes, except in its status, and a revoked one not even in that. */
  ghost predicate Evolves(m: Credentials, m': Credentials) {
    forall id: Bytes32 | Get(m, id).present ::
      && Get(m', id).present
      && Get(m', id) == Get(m, id).(status := Get(m', id).status)
      && (Get(m, id).status == Revoked ==> Get(m', id).status == Revoked)
  }

  lemma EvolvesTransitive(m1: Credentials, m2: Credentials, m3: Credentials)
    requires Evolves(m1, m2) && Evolves(m2, m3)
    ensures Evolves(m1, m3)
  {
    forall id: Bytes32 | Get(m1, id).present
      ensures Get(m3, id).present && Get(m3, id) == Get(m1, id).(status := Get(m3, id).status)
      ensures Get(m1, id).status == Revoked ==> Get(m3, id).status == Revoked
    {
      assert Get(m2, id).present;
    }
  }

  lemma RecordEvolves(keccak: Hash, acc: AR.Storage, st: Storage, msg: Msg, args: RecordArgs)
    ensures Evolves(st.credentials, Record(keccak, acc, st, msg, args).0.credentials)
  {
  }

  lemma ChangeEvolves(st: Storage, msg: Msg, id: Bytes32, change: StatusChange)
    ensures Evolves(st.credentials, Change(st, msg, id, change).0.credentials)
  {
  }

  /** `c` repeats the call: same issuer, holder, hash and type in the same second. */
  ghost predicate Repeats(c: Credential, msg: Msg, args: RecordArgs) {
    && c.issuer == msg.sender && c.holder == args.holder && c.credentialHash == args.credentialHash
    && c.credentialType == args.credentialType && c.issuedAt == msg.timestamp
  }

  /**
   * When an authorised record is refused as already existing: a stored credential repeats the call,
   * or keccak256 has collided on two different byte strings.
   */
  lemma AlreadyExistsIffRepeat(keccak: Hash, acc: AR.Storage, st: Storage, msg: Msg, args: RecordArgs)
    requires WellKeyed(keccak, st, msg.timestamp)
    requires CheckIssuer(acc, msg.sender, msg.timestamp, args.issuerAccreditationId) == None
    ensures Record(keccak, acc, st, msg, args).1 == Failure(CredentialAlreadyExists) <==>
              exists id :: id in st.credentials &&
                (Repeats(st.credentials[id], msg, args)
                 || (RecordPreimage(st.credentials[id]) != Preimage(msg, args)
                     && keccak(RecordPreimage(st.credentials[id])) == keccak(Preimage(msg, args))))
  {
    var m := st.credentials;
    var newId := keccak(Preimage(msg, args));
    forall id | id in m && RecordPreimage(m[id]) == Preimage(msg, args) ensures Repeats(m[id], msg, args) {
      var c := m[id];
      AbiEncoding.EncodeCredentialInjective(
        c.issuer, c.holder, c.credentialHash, c.credentialType, c.issuedAt,
        msg.sender, args.holder, args.credentialHash, args.credentialType, msg.timestamp);
    }
    if newId in m {
      assert keccak(RecordPreimage(m[newId])) == newId;
    }
    forall id | id in m && (Repeats(m[id], msg, args) || keccak(RecordPreimage(m[id])) == newId) ensures newId in m {
      assert id == keccak(RecordPreimage(m[id]));
    }
  }

  // ---------------------------------------------------------------------------------------
  // What one record achieves
  // ---------------------------------------------------------------------------------------

  /**
   * Who may record under an accreditation: the subject of an Institution record that validates. The
   * separate tests for revocation and expiry that follow the chain verdict never fire.
   */
  lemma MayRecordIff(acc: AR.Storage, issuer: Address, now: Uint256, accreditationId: Bytes32)
    ensures var a := Acc.Get(acc.accreditations, accreditationId);
            CheckIssuer(acc, issuer, now, accreditationId) == None <==>
              && a.subject == issuer
              && a.scope == Acc.Institution
              && Acc.ValidateTrustChain(acc.accreditations, acc.owner, now, accreditationId)
  {
  }

  /** Why a record is refused, reason by reason; a refusal changes nothing. */
  lemma RecordRefusals(keccak: Hash, acc: AR.Storage, st: Storage, msg: Msg, args: RecordArgs)
    ensures var (st', r) := Record(keccak, acc, st, msg, args);
            var stored := args.issuerAccreditationId in acc.accreditations;
            var a := Acc.Get(acc.accreditations, args.issuerAccreditationId);
            && (r.Failure? ==> st' == st)
            && (r == Failure(AccreditationNotFound) <==> !stored)
            && (r == Failure(UnauthorizedIssuer) <==> stored && a.subject != msg.sender)
            && (r == Failure(InvalidAccreditation) <==>
                  && stored && a.subject == msg.sender
                  && (a.scope != Acc.Institution
                      || !Acc.ValidateTrustChain(acc.accreditations, acc.owner, msg.timestamp, args.issuerAccreditationId)))
  {
    MayRecordIff(acc, msg.sender, msg.timestamp, args.issuerAccreditationId);
  }

  /** Why a status change is refused, reason by reason; the status is looked at before the caller. */
  lemma ChangeRefusals(st: Storage, msg: Msg, id: Bytes32, change: StatusChange)
    ensures var (st', r) := Change(st, msg, id, change);
            var stored := id in st.credentials;
            var c := Get(st.credentials, id);
            && (r.Failure? ==> st' == st)
            && (r == Failure(CredentialNotFound) <==> !stored)
            && (r == Failure(CredentialAlreadyRevoked) <==> stored && c.status == Revoked && change != ToActive)
            && (r == Failure(InvalidStatus) <==> stored && c.status != Suspended && change == ToActive)
            && (r == Failure(Unauthorized) <==>
                  && stored && msg.sender != c.issuer
                  && if change == ToActive then c.status == Suspended else c.status != Revoked)
            && (r.Success? ==> stored && msg.sender == c.issuer)
  {
  }

  /**
   * What an identifier is: the hash of the ABI encoding of caller, holder, hash, type and time, word by word, with
   * the type's length and bytes where the fourth word points.
   */
  lemma RecordedIdIsHash(keccak: Hash, acc: AR.Storage, st: Storage, msg: Msg, args: RecordArgs)
    requires Record(keccak, acc, st, msg, args).1.Success?
    ensures exists p: seq<byte> ::
              var n := |args.credentialType|;
              && Record(keccak, acc, st, msg, args).1.value == keccak(p)
              && AbiEncoding.FieldAt(p, 0, 32, msg.sender)
              && AbiEncoding.FieldAt(p, 32, 32, args.holder)
              && AbiEncoding.FieldAt(p, 64, 32, args.credentialHash)
              && AbiEncoding.FieldAt(p, 96, 32, 160)
              && AbiEncoding.FieldAt(p, 128, 32, msg.timestamp)
              && AbiEncoding.FieldAt(p, 160, 32, n)
              && |p| % 32 == 0 && 192 + n <= |p| < 192 + n + 32
              && p[192..192 + n] == args.credentialType
              && forall i | 192 + n <= i < |p| :: p[i] == 0
  {
    AbiEncoding.EncodeCredentialLayout(msg.sender, args.holder, args.credentialHash, args.credentialType, msg.timestamp);
  }

  /** A credential is active the moment it is recorded unless its own expiry has already passed; no other is affected. */
  lemma FreshCredentialIsActive(keccak: Hash, acc: AR.Storage, st: Storage, msg: Msg, args: RecordArgs, other: Bytes32)
    requires Record(keccak, acc, st, msg, args).1.Success?
    ensures var (st', r) := Record(keccak, acc, st, msg, args);
            && (IsActive(acc, st', msg.timestamp, r.value) <==> !Expired(args.expiresAt, msg.timestamp))
            && (other in st.credentials ==> Get(st'.credentials, other) == st.credentials[other])
  {
    MayRecordIff(acc, msg.sender, msg.timestamp, args.issuerAccreditationId);
  }
}
