/** What holds of the registry's storage in every reachable state, and what one issue achieves. */
module AccreditationInvariants {
  import opened Evm
  import opened AccreditationRecords
  import opened AppendOnlyIndex
  import opened AccreditationRegistries
  import opened TrustChain
  import AbiEncoding

  // ---------------------------------------------------------------------------------------
  // The two indexes
  // ---------------------------------------------------------------------------------------

  datatype Party = Subject | Issuer

  function PartyOf(a: Accreditation, party: Party): Address {
    match party
    case Subject => a.subject
    case Issuer => a.issuer
  }

  function IndexOf(st: Storage, party: Party): Index {
    match party
    case Subject => st.bySubject
    case Issuer => st.byIssuer
  }

  /** What a record is listed as in the index for `party`. */
  function EntryOf(party: Party): Accreditation -> Entry {
    (a: Accreditation) => Entry(PartyOf(a, party), a.issuedAt)
  }

  ghost predicate PartyIndexExact(st: Storage, party: Party) {
    IndexExact(Entries(st.accreditations, EntryOf(party)), IndexOf(st, party))
  }

  /** `validAccreditations[id][who]` is set exactly when `id` is stored, unrevoked and about `who`. */
  ghost predicate FlagsExact(st: Storage) {
    forall id: Bytes32, who: Address ::
      Flag(st.valid, id, who) <==>
        Get(st.accreditations, id).present && !Get(st.accreditations, id).revoked && Get(st.accreditations, id).subject == who
  }

  // ---------------------------------------------------------------------------------------
  // Keys, provenance, event log
  // ---------------------------------------------------------------------------------------

  /** The byte string hashed when `a` was issued. */
  function RecordPreimage(a: Accreditation): seq<byte> {
    AbiEncoding.PackAccreditation(a.issuer, a.subject, ScopeByte(a.scope), a.permissionsHash, a.issuedAt)
  }

  /** Each record is stored under the hash of its own fields, and none was issued in the future. */
  ghost predicate WellKeyed(keccak: Hash, st: Storage, now: Uint256) {
    forall id | id in st.accreditations ::
      var a := st.accreditations[id];
      a.id == id && id == keccak(RecordPreimage(a)) && a.issuedAt <= now
  }

  ghost predicate AllAuthorised(st: Storage) {
    forall id | id in st.accreditations :: Provenance(st.accreditations, st.owner, st.accreditations[id])
  }

  /** What a subscriber to the events knows of an accreditation. */
  datatype Seen = Seen(issuer: Address, subject: Address, scope: Scope, parentAccreditationId: Bytes32, revoked: bool)

  function SeenOf(a: Accreditation): Seen {
    Seen(a.issuer, a.subject, a.scope, a.parentAccreditationId, a.revoked)
  }

  function Apply(table: map<Bytes32, Seen>, event: Event): map<Bytes32, Seen> {
    match event
    case AccreditationIssued(id, issuer, subject, scope, parentId) =>
      table[id := Seen(issuer, subject, scope, parentId, false)]
    case AccreditationRevoked(id, _, _) =>
      if id in table then table[id := table[id].(revoked := true)] else table
  }

  /** A subscriber's table after reading the log. */
  function Replay(log: seq<Event>): map<Bytes32, Seen> {
    if log == [] then map[] else Apply(Replay(log[..|log| - 1]), log[|log| - 1])
  }

  /** The table and the storage agree, record by record. */
  ghost predicate LogExact(st: Storage) {
    && Replay(st.log).Keys == st.accreditations.Keys
    && forall id | id in st.accreditations :: Replay(st.log)[id] == SeenOf(st.accreditations[id])
  }

  // ---------------------------------------------------------------------------------------
  // The invariant
  // ---------------------------------------------------------------------------------------

  ghost predicate RegistryInvariant(keccak: Hash, st: Storage, now: Uint256) {
    && WellKeyed(keccak, st, now)
    && PartyIndexExact(st, Subject)
    && PartyIndexExact(st, Issuer)
    && FlagsExact(st)
    && AllAuthorised(st)
    && LogExact(st)
  }

  lemma DeployedInvariant(keccak: Hash, owner: Address, now: Uint256)
    ensures RegistryInvariant(keccak, Deployed(owner), now)
  {
  }

  lemma IssueKeepsIndex(keccak: Hash, st: Storage, msg: Msg, args: IssueArgs, id: Bytes32, party: Party)
    requires WellKeyed(keccak, st, msg.timestamp) && PartyIndexExact(st, party) && !Get(st.accreditations, id).present
    ensures PartyIndexExact(WithIssued(st, id, msg, args), party)
  {
    InsertKeepsExact(st.accreditations, EntryOf(party), IndexOf(st, party), id, NewRecord(id, msg, args));
  }

  lemma RevokeKeepsIndex(st: Storage, msg: Msg, id: Bytes32, party: Party)
    requires PartyIndexExact(st, party) && Get(st.accreditations, id).present
    ensures PartyIndexExact(WithRevoked(st, id, msg), party)
  {
    UpdateKeepsEntries(st.accreditations, EntryOf(party), id, st.accreditations[id].(revoked := true));
  }

  lemma IssueKeepsFlags(st: Storage, msg: Msg, args: IssueArgs, id: Bytes32)
    requires FlagsExact(st) && !Get(st.accreditations, id).present
    ensures FlagsExact(WithIssued(st, id, msg, args))
  {
    var st' := WithIssued(st, id, msg, args);
    forall x: Bytes32, who: Address
      ensures Flag(st'.valid, x, who) <==>
        Get(st'.accreditations, x).present && !Get(st'.accreditations, x).revoked && Get(st'.accreditations, x).subject == who
    {
      assert Flag(st.valid, x, who) <==>
        Get(st.accreditations, x).present && !Get(st.accreditations, x).revoked && Get(st.accreditations, x).subject == who;
    }
  }

  lemma RevokeKeepsFlags(st: Storage, msg: Msg, id: Bytes32)
    requires FlagsExact(st) && Get(st.accreditations, id).present
    ensures FlagsExact(WithRevoked(st, id, msg))
  {
    var st' := WithRevoked(st, id, msg);
    forall x: Bytes32, who: Address
      ensures Flag(st'.valid, x, who) <==>
        Get(st'.accreditations, x).present && !Get(st'.accreditations, x).revoked && Get(st'.accreditations, x).subject == who
    {
      assert Flag(st.valid, x, who) <==>
        Get(st.accreditations, x).present && !Get(st.accreditations, x).revoked && Get(st.accreditations, x).subject == who;
    }
  }

  /** What the issuer check lets through is authorised. */
  lemma CheckedIsAuthorised(keccak: Hash, st: Storage, msg: Msg, args: IssueArgs, id: Bytes32)
    requires WellKeyed(keccak, st, msg.timestamp)
    requires CheckIssuer(st, msg.sender, msg.timestamp, args.scope, args.parentAccreditationId) == None
    ensures Provenance(st.accreditations, st.owner, NewRecord(id, msg, args))
  {
    var parentId := args.parentAccreditationId;
    assert parentId in st.accreditations ==> st.accreditations[parentId].issuedAt <= msg.timestamp;
  }

  /** Provenance looks at a parent's scope, subject and time of issue, which never change. */
  lemma ProvenancePersists(m: Records, m': Records, owner: Address, a: Accreditation)
    requires Evolves(m, m') && Provenance(m, owner, a)
    ensures Provenance(m', owner, a) && Provenance(m', owner, a.(revoked := true))
  {
    assert Get(m, a.parentAccreditationId).present ==> Get(m', a.parentAccreditationId).present;
  }

  lemma IssueKeepsProvenance(keccak: Hash, st: Storage, msg: Msg, args: IssueArgs, id: Bytes32)
    requires WellKeyed(keccak, st, msg.timestamp) && AllAuthorised(st) && !Get(st.accreditations, id).present
    requires CheckIssuer(st, msg.sender, msg.timestamp, args.scope, args.parentAccreditationId) == None
    ensures AllAuthorised(WithIssued(st, id, msg, args))
  {
    var m, m' := st.accreditations, WithIssued(st, id, msg, args).accreditations;
    CheckedIsAuthorised(keccak, st, msg, args, id);
    forall x | x in m' ensures Provenance(m', st.owner, m'[x]) {
      ProvenancePersists(m, m', st.owner, m'[x]);
    }
  }

  lemma RevokeKeepsProvenance(st: Storage, msg: Msg, id: Bytes32)
    requires AllAuthorised(st) && Get(st.accreditations, id).present
    ensures AllAuthorised(WithRevoked(st, id, msg))
  {
    var m, m' := st.accreditations, WithRevoked(st, id, msg).accreditations;
    forall x | x in m' ensures Provenance(m', st.owner, m'[x]) {
      ProvenancePersists(m, m', st.owner, m[x]);
    }
  }

  lemma ReplayAppend(log: seq<Event>, event: Event)
    ensures Replay(log + [event]) == Apply(Replay(log), event)
  {
    assert (log + [event])[..|log|] == log;
  }

  lemma IssueKeepsLog(st: Storage, msg: Msg, args: IssueArgs, id: Bytes32)
    requires LogExact(st)
    ensures LogExact(WithIssued(st, id, msg, args))
  {
    var st' := WithIssued(st, id, msg, args);
    var event := AccreditationIssued(id, msg.sender, args.subject, args.scope, args.parentAccreditationId);
    ReplayAppend(st.log, event);
    assert Replay(st'.log) == Replay(st.log)[id := SeenOf(NewRecord(id, msg, args))];
  }

  lemma RevokeKeepsLog(st: Storage, msg: Msg, id: Bytes32)
    requires LogExact(st) && Get(st.accreditations, id).present
    ensures LogExact(WithRevoked(st, id, msg))
  {
    var st' := WithRevoked(st, id, msg);
    ReplayAppend(st.log, st'.log[|st.log|]);
  }

  lemma IssueKeepsKeys(keccak: Hash, st: Storage, msg: Msg, args: IssueArgs)
    requires WellKeyed(keccak, st, msg.timestamp)
    ensures WellKeyed(keccak, Issue(keccak, st, msg, args).0, msg.timestamp)
  {
  }

  lemma RevokeKeepsKeys(keccak: Hash, st: Storage, msg: Msg, id: Bytes32)
    requires WellKeyed(keccak, st, msg.timestamp)
    ensures WellKeyed(keccak, Revoke(st, msg, id).0, msg.timestamp)
  {
  }

  /** A step of the registry, reverting or not, keeps the invariant. */
  lemma IssueKeepsInvariant(keccak: Hash, st: Storage, msg: Msg, args: IssueArgs)
    requires RegistryInvariant(keccak, st, msg.timestamp)
    ensures RegistryInvariant(keccak, Issue(keccak, st, msg, args).0, msg.timestamp)
  {
    var (st', r) := Issue(keccak, st, msg, args);
    if r.Success? {
      var id := r.value;
      IssueKeepsIndex(keccak, st, msg, args, id, Subject);
      IssueKeepsIndex(keccak, st, msg, args, id, Issuer);
      IssueKeepsFlags(st, msg, args, id);
      IssueKeepsProvenance(keccak, st, msg, args, id);
      IssueKeepsLog(st, msg, args, id);
      IssueKeepsKeys(keccak, st, msg, args);
    }
  }

  lemma RevokeKeepsInvariant(keccak: Hash, st: Storage, msg: Msg, id: Bytes32)
    requires RegistryInvariant(keccak, st, msg.timestamp)
    ensures RegistryInvariant(keccak, Revoke(st, msg, id).0, msg.timestamp)
  {
    var (st', r) := Revoke(st, msg, id);
    if r.Success? {
      RevokeKeepsIndex(st, msg, id, Subject);
      RevokeKeepsIndex(st, msg, id, Issuer);
      RevokeKeepsFlags(st, msg, id);
      RevokeKeepsProvenance(st, msg, id);
      RevokeKeepsLog(st, msg, id);
      RevokeKeepsKeys(keccak, st, msg, id);
    }
  }

  // ---------------------------------------------------------------------------------------
  // Evolution
  // ---------------------------------------------------------------------------------------

  /** An issue stores at most one record, issued now. */
  lemma IssueEvolves(keccak: Hash, st: Storage, msg: Msg, args: IssueArgs)
    ensures var st' := Issue(keccak, st, msg, args).0;
            && st'.owner == st.owner
            && Evolves(st.accreditations, st'.accreditations)
            && IssuedSince(st.accreditations, st'.accreditations, msg.timestamp)
  {
  }

  lemma RevokeEvolves(st: Storage, msg: Msg, id: Bytes32)
    ensures var st' := Revoke(st, msg, id).0;
            && st'.owner == st.owner
            && Evolves(st.accreditations, st'.accreditations)
            && IssuedSince(st.accreditations, st'.accreditations, msg.timestamp)
  {
  }

  // ---------------------------------------------------------------------------------------
  // What one issue achieves
  // ---------------------------------------------------------------------------------------

  /**
   * Who may issue what. The owner needs nothing for the two top scopes; everyone else needs a stored parent
   * one level up of which they are the subject, and below Ministry so does the owner, save for being the
   * subject. That parent must validate, except for a Ministry, where being unrevoked is enough.
   */
  lemma AuthorisedIff(st: Storage, issuer: Address, now: Uint256, scope: Scope, parentId: Bytes32)
    ensures var parent := Get(st.accreditations, parentId);
            CheckIssuer(st, issuer, now, scope, parentId) == None <==>
              || (issuer == st.owner && scope in {MemberState, Ministry})
              || (&& parentId != ZERO_ID && parent.present
                  && (parent.scope, scope) in HIERARCHY
                  && (parent.subject == issuer || issuer == st.owner)
                  && if scope == Ministry then !parent.revoked
                     else ValidateTrustChain(st.accreditations, st.owner, now, parentId))
  {
  }

  /** The issue needs no parent: the owner's, at one of the two top scopes. */
  predicate NeedsNoParent(st: Storage, issuer: Address, scope: Scope) {
    issuer == st.owner && scope in {MemberState, Ministry}
  }

  /** The parent named is not zero, and is stored. */
  predicate NamesParent(st: Storage, parentId: Bytes32) {
    parentId != ZERO_ID && parentId in st.accreditations
  }

  /**
   * Why an issue is refused, reason by reason, with the order in which the reasons are looked for. A refusal
   * changes nothing; a refusal as existing is the subject of `AlreadyExistsIffRepeat`.
   */
  lemma IssueRefusals(keccak: Hash, st: Storage, msg: Msg, args: IssueArgs)
    ensures var (st', r) := Issue(keccak, st, msg, args);
            var free := NeedsNoParent(st, msg.sender, args.scope);
            var named := NamesParent(st, args.parentAccreditationId);
            var parent := Get(st.accreditations, args.parentAccreditationId);
            var edge := (parent.scope, args.scope) in HIERARCHY;
            var entitled := parent.subject == msg.sender || (msg.sender == st.owner && args.scope != Ministry);
            && (r.Failure? ==> st' == st)
            && (r == Failure(NotMemberState) <==> args.scope == MemberState && msg.sender != st.owner)
            && (r == Failure(InvalidParentAccreditation) <==> !free && args.scope !in {NoScope, MemberState} && !named)
            && (r == Failure(InvalidScope) <==>
                  args.scope == NoScope || (!free && args.scope != MemberState && named && !edge))
            && (r == Failure(UnauthorizedIssuer) <==> !free && named && edge && !entitled)
            && (r == Failure(InvalidTrustChain) <==>
                  !free && named && edge && entitled
                  && if args.scope == Ministry then parent.revoked
                     else !ValidateTrustChain(st.accreditations, st.owner, msg.timestamp, args.parentAccreditationId))
  {
  }

  lemma RevokeRefusals(st: Storage, msg: Msg, id: Bytes32)
    ensures var (st', r) := Revoke(st, msg, id);
            && (r.Failure? ==> st' == st)
            && (r == Failure(AccreditationNotFound) <==> id !in st.accreditations)
            && (r == Failure(AccreditationAlreadyRevoked) <==> id in st.accreditations && st.accreditations[id].revoked)
            && (r == Failure(UnauthorizedToRevoke) <==>
                  id in st.accreditations && !st.accreditations[id].revoked
                  && msg.sender !in {st.owner, st.accreditations[id].issuer})
  {
  }

  /**
   * What an identifier is: the hash of 105 bytes that hold, in this order and most significant byte first, the caller,
   * the subject, the number of the scope, the permissions and the time.
   */
  lemma IssuedIdIsHash(keccak: Hash, st: Storage, msg: Msg, args: IssueArgs)
    requires Issue(keccak, st, msg, args).1.Success?
    ensures exists p: seq<byte> ::
              && Issue(keccak, st, msg, args).1.value == keccak(p)
              && |p| == 105
              && AbiEncoding.FieldAt(p, 0, 20, msg.sender)
              && AbiEncoding.FieldAt(p, 20, 20, args.subject)
              && p[40] < 7
              && [NoScope, MemberState, Ministry, Institution, Department, BusinessRegistry, Enterprise][p[40]] == args.scope
              && AbiEncoding.FieldAt(p, 41, 32, args.permissionsHash)
              && AbiEncoding.FieldAt(p, 73, 32, msg.timestamp)
  {
    AbiEncoding.PackAccreditationLayout(msg.sender, args.subject, ScopeByte(args.scope), args.permissionsHash, msg.timestamp);
  }

  /**
   * The verdict on a record the moment it is issued. Below the two top scopes the parent has
   * been validated by then, so only the record's own expiry and the identity of the issuer are
   * open: an owner may issue in someone else's name, and the result does not validate.
   */
  lemma FreshVerdict(keccak: Hash, st: Storage, msg: Msg, args: IssueArgs)
    requires Issue(keccak, st, msg, args).1.Success?
    ensures var (st', r) := Issue(keccak, st, msg, args);
            var parentId := args.parentAccreditationId;
            var parent := Get(st.accreditations, parentId);
            ValidateTrustChain(st'.accreditations, st.owner, msg.timestamp, r.value) <==>
              !Expired(args.expiresAt, msg.timestamp) &&
              match args.scope
              case MemberState => parentId == ZERO_ID
              case Ministry =>
                if parentId == ZERO_ID then msg.sender == st.owner
                else HasEndorser(st.accreditations, NewRecord(r.value, msg, args), MemberState)
                     && ValidateTrustChain(st.accreditations, st.owner, msg.timestamp, parentId)
              case _ => msg.sender == parent.subject
  {
    var (st', r) := Issue(keccak, st, msg, args);
    var m, id, parentId := st.accreditations, r.value, args.parentAccreditationId;
    if parentId != id && Get(m, parentId).present && ValidateTrustChain(m, st.owner, msg.timestamp, parentId) {
      ValidWalkStored(m, st.owner, msg.timestamp, parentId, 3);
      InsertKeepsVerdict(m, st.owner, msg.timestamp, id, NewRecord(id, msg, args), parentId, 3);
    } else if args.scope == Ministry && Get(m, parentId).present && Get(m, parentId).scope == MemberState {
      // A MemberState verdict reads no other record.
      assert Get(st'.accreditations, parentId) == Get(m, parentId);
    }
  }

  /** An issue leaves alone the verdict of every record whose four-record walk was already stored. */
  lemma IssueKeepsStoredVerdicts(keccak: Hash, st: Storage, msg: Msg, args: IssueArgs, id: Bytes32, now: Uint256)
    requires WalkStored(st.accreditations, id, 3)
    ensures ValidateTrustChain(Issue(keccak, st, msg, args).0.accreditations, st.owner, now, id)
         == ValidateTrustChain(st.accreditations, st.owner, now, id)
  {
    var (st', r) := Issue(keccak, st, msg, args);
    if r.Success? {
      InsertKeepsVerdict(st.accreditations, st.owner, now, r.value, NewRecord(r.value, msg, args), id, 3);
    }
  }

  lemma ScopeByteInjective(s: Scope, s': Scope)
    requires ScopeByte(s) == ScopeByte(s')
    ensures s == s'
  {
  }

  /** `a` repeats the call: same issuer, subject, scope and permissions in the same second. */
  ghost predicate Repeats(a: Accreditation, msg: Msg, args: IssueArgs) {
    && a.issuer == msg.sender && a.subject == args.subject && a.scope == args.scope
    && a.permissionsHash == args.permissionsHash && a.issuedAt == msg.timestamp
  }

  /**
   * When an authorised issue is refused as already existing: a stored record repeats the call, or
   * keccak256 has collided on two different byte strings. The parent and the expiry play no part.
   */
  lemma AlreadyExistsIffRepeat(keccak: Hash, st: Storage, msg: Msg, args: IssueArgs)
    requires WellKeyed(keccak, st, msg.timestamp)
    requires CheckIssuer(st, msg.sender, msg.timestamp, args.scope, args.parentAccreditationId) == None
    ensures Issue(keccak, st, msg, args).1 == Failure(AccreditationAlreadyExists) <==>
              exists id :: id in st.accreditations &&
                (Repeats(st.accreditations[id], msg, args)
                 || (RecordPreimage(st.accreditations[id]) != Preimage(msg, args)
                     && keccak(RecordPreimage(st.accreditations[id])) == keccak(Preimage(msg, args))))
  {
    var m := st.accreditations;
    var newId := keccak(Preimage(msg, args));
    forall id | id in m && RecordPreimage(m[id]) == Preimage(msg, args) ensures Repeats(m[id], msg, args) {
      var a := m[id];
      AbiEncoding.PackAccreditationInjective(
        a.issuer, a.subject, ScopeByte(a.scope), a.permissionsHash, a.issuedAt,
        msg.sender, args.subject, ScopeByte(args.scope), args.permissionsHash, msg.timestamp);
      ScopeByteInjective(a.scope, args.scope);
    }
    if newId in m {
      assert keccak(RecordPreimage(m[newId])) == newId;
    }
    forall id | id in m && (Repeats(m[id], msg, args) || keccak(RecordPreimage(m[id])) == newId) ensures newId in m {
      assert id == keccak(RecordPreimage(m[id]));
    }
  }

  // ---------------------------------------------------------------------------------------
  // getTrustChain
  // ---------------------------------------------------------------------------------------

  /**
   * What `getTrustChain` returns for a nonzero identifier: nonzero ids ending in the argument, each the
   * stored parent of the next, complete unless cut off at eleven; for a valid identifier at most
   * four ids, all valid, starting at a record the owner issued without a parent.
   */
  lemma TrustChainListing(m: Records, owner: Address, now: Uint256, id: Bytes32)
    requires id != ZERO_ID
    ensures var chain := Reversed(ParentWalk(m, id, CHAIN_BOUND));
            && 0 < |chain| <= 11
            && chain[|chain| - 1] == id
            && (forall i | 0 <= i < |chain| :: chain[i] != ZERO_ID)
            && (forall i | 0 <= i < |chain| - 1 :: chain[i] == Get(m, chain[i + 1]).parentAccreditationId)
            && (|chain| < 11 ==> Get(m, chain[0]).parentAccreditationId == ZERO_ID)
            && (ValidateTrustChain(m, owner, now, id) ==>
                  && |chain| <= 4
                  && (forall i | 0 <= i < |chain| :: ValidateTrustChain(m, owner, now, chain[i]))
                  && Get(m, chain[0]).issuer == owner
                  && Get(m, chain[0]).parentAccreditationId == ZERO_ID)
  {
    var walk := ParentWalk(m, id, CHAIN_BOUND);
    WalkFollowsParents(m, id, CHAIN_BOUND);
    if ValidateTrustChain(m, owner, now, id) {
      var path := ValidHasPath(m, owner, now, id);
      PathIsValid(m, owner, now, path);
      PathIsWalk(m, owner, now, path, CHAIN_BOUND);
      forall i | 0 <= i < |walk| ensures ValidateTrustChain(m, owner, now, walk[i]) {
        ValidWalkIsValid(m, owner, now, id, CHAIN_BOUND, walk[i]);
      }
    }
  }
}
