/**
 * How the services recover the identifier a transaction created: they read the lookup array of
 * the subject (or holder) backwards and take the first entry whose record matches what they sent.
 */
module IssuanceTracking {
  import opened Evm
  import opened AppendOnlyIndex
  import opened TrustSystem
  import Acc = AccreditationRecords
  import AR = AccreditationRegistries
  import AI = AccreditationInvariants
  import CR = CredentialRegistries
  import CI = CredentialInvariants

  /** The last entry of `ids` that is one of `wanted`. */
  function LastIn(ids: seq<Bytes32>, wanted: set<Bytes32>): Option<Bytes32> {
    if ids == [] then None
    else if ids[|ids| - 1] in wanted then Some(ids[|ids| - 1])
    else LastIn(ids[..|ids| - 1], wanted)
  }

  lemma LastInAppend(ids: seq<Bytes32>, id: Bytes32, wanted: set<Bytes32>)
    ensures LastIn(ids + [id], wanted) == if id in wanted then Some(id) else LastIn(ids, wanted)
  {
    assert (ids + [id])[..|ids|] == ids;
  }

  /** Only the entries of the list matter. */
  lemma {:induction false} LastInCongruent(ids: seq<Bytes32>, wanted: set<Bytes32>, wanted': set<Bytes32>)
    requires forall id | id in ids :: id in wanted <==> id in wanted'
    ensures LastIn(ids, wanted) == LastIn(ids, wanted')
  {
    if ids != [] {
      assert ids[|ids| - 1] in ids;
      LastInCongruent(ids[..|ids| - 1], wanted, wanted');
    }
  }

  /** Every listed identifier is one of `keys`. */
  ghost predicate OnlyLists(index: Index, keys: set<Bytes32>) {
    forall who: Address, id: Bytes32 | id in Listed(index, who) :: id in keys
  }

  /** Pushing a new identifier moves a scan exactly if it is wanted; one that is wanted is listed where the scan looks. */
  lemma PushMovesScan(
    index: Index, keys: set<Bytes32>, who: Address, id: Bytes32, where: Address, wanted: set<Bytes32>, wanted': set<Bytes32>
  )
    requires OnlyLists(index, keys) && id !in keys
    requires wanted' == wanted || (wanted' == wanted + {id} && who == where)
    requires wanted <= keys
    ensures OnlyLists(Push(index, who, id), keys + {id})
    ensures LastIn(Listed(Push(index, who, id), where), wanted') ==
              if id in wanted' then Some(id) else LastIn(Listed(index, where), wanted)
  {
    var ids := Listed(index, where);
    LastInCongruent(ids, wanted, wanted');
    LastInAppend(ids, id, wanted');
  }

  lemma ExactOnlyLists(entries: map<Bytes32, Entry>, index: Index)
    requires IndexExact(entries, index)
    ensures OnlyLists(index, entries.Keys)
  {
    forall who: Address, id: Bytes32 | id in Listed(index, who) ensures id in entries.Keys {
      assert ListExact(entries, who, Listed(index, who));
    }
  }

  // ---------------------------------------------------------------------------------------
  // Accreditations
  // ---------------------------------------------------------------------------------------

  /** What the service compares; the expiry is not among it. */
  datatype Sought = Sought(
    issuer: Address, subject: Address, scope: Acc.Scope, parentAccreditationId: Bytes32, permissionsHash: Bytes32
  )

  function SoughtOf(sender: Address, args: AR.IssueArgs): Sought {
    Sought(sender, args.subject, args.scope, args.parentAccreditationId, args.permissionsHash)
  }

  predicate Matches(a: Acc.Accreditation, sought: Sought) {
    && a.present
    && a.issuer == sought.issuer
    && a.subject == sought.subject
    && a.scope == sought.scope
    && a.parentAccreditationId == sought.parentAccreditationId
    && a.permissionsHash == sought.permissionsHash
  }

  function Matching(m: Acc.Records, sought: Sought): set<Bytes32> {
    set id | id in m && Matches(m[id], sought)
  }

  /** What the reverse scan returns in state `st`; `None` stands for the exception it throws. */
  function ScanAccreditations(st: AR.Storage, sought: Sought): Option<Bytes32> {
    LastIn(Listed(st.bySubject, sought.subject), Matching(st.accreditations, sought))
  }

  method FindIssuedAccreditationId(st: AR.Storage, sought: Sought) returns (r: Option<Bytes32>)
    ensures r == ScanAccreditations(st, sought)
  {
    var ids := Listed(st.bySubject, sought.subject);
    assert ids[..|ids|] == ids;
    for i := |ids| downto 0
      invariant LastIn(ids, Matching(st.accreditations, sought)) == LastIn(ids[..i], Matching(st.accreditations, sought))
    {
      var candidate := Acc.Get(st.accreditations, ids[i]);
      assert ids[..i + 1][..i] == ids[..i];
      if !candidate.present {
        continue;
      }
      if candidate.issuer != sought.issuer {
        continue;
      }
      if candidate.subject != sought.subject {
        continue;
      }
      if candidate.scope != sought.scope {
        continue;
      }
      if candidate.parentAccreditationId != sought.parentAccreditationId {
        continue;
      }
      if candidate.permissionsHash != sought.permissionsHash {
        continue;
      }
      return Some(ids[i]);
    }
    return None;
  }

  /** The action is a successful issue of exactly what is sought; its result. */
  function Issued(keccak: Hash, w: World, action: Action, sought: Sought): Option<Bytes32> {
    if action.IssueAccreditation? && SoughtOf(action.sender, action.issueArgs) == sought then
      match AR.Issue(keccak, w.acc, Context(w, action.sender), action.issueArgs).1
      case Success(id) => Some(id)
      case Failure(_) => None
    else None
  }

  /** One issue moves the scan only if it is a success of what is sought, and then to the new identifier. */
  lemma IssueMovesScan(keccak: Hash, st: AR.Storage, msg: Msg, args: AR.IssueArgs, sought: Sought)
    requires OnlyLists(st.bySubject, st.accreditations.Keys)
    ensures var (st', r) := AR.Issue(keccak, st, msg, args);
            && OnlyLists(st'.bySubject, st'.accreditations.Keys)
            && ScanAccreditations(st', sought) ==
                 if r.Success? && SoughtOf(msg.sender, args) == sought then Some(r.value) else ScanAccreditations(st, sought)
  {
    var (st', r) := AR.Issue(keccak, st, msg, args);
    if r.Success? {
      var wanted := Matching(st.accreditations, sought);
      var wanted' := wanted + if SoughtOf(msg.sender, args) == sought then {r.value} else {};
      assert Matching(st'.accreditations, sought) == wanted';
      assert st'.accreditations.Keys == st.accreditations.Keys + {r.value};
      PushMovesScan(st.bySubject, st.accreditations.Keys, args.subject, r.value, sought.subject, wanted, wanted');
    }
  }

  /** A revocation does not move the scan: the revoked record still matches. */
  lemma RevokeKeepsScan(st: AR.Storage, msg: Msg, id: Bytes32, sought: Sought)
    requires OnlyLists(st.bySubject, st.accreditations.Keys)
    ensures var st' := AR.Revoke(st, msg, id).0;
            && OnlyLists(st'.bySubject, st'.accreditations.Keys)
            && ScanAccreditations(st', sought) == ScanAccreditations(st, sought)
  {
    var (st', r) := AR.Revoke(st, msg, id);
    if r.Success? {
      assert st'.accreditations.Keys == st.accreditations.Keys;
      assert Matching(st'.accreditations, sought) == Matching(st.accreditations, sought);
    }
  }

  // ---------------------------------------------------------------------------------------
  // Credentials
  // ---------------------------------------------------------------------------------------

  /** What the service compares; the expiry is not among it. */
  datatype SoughtCredential = SoughtCredential(
    issuer: Address, holder: Address, credentialHash: Bytes32, credentialType: Bytes, issuerAccreditationId: Bytes32
  )

  function SoughtCredentialOf(sender: Address, args: CR.RecordArgs): SoughtCredential {
    SoughtCredential(sender, args.holder, args.credentialHash, args.credentialType, args.issuerAccreditationId)
  }

  predicate MatchesCredential(c: CR.Credential, sought: SoughtCredential) {
    && c.present
    && c.issuer == sought.issuer
    && c.holder == sought.holder
    && c.credentialHash == sought.credentialHash
    && c.credentialType == sought.credentialType
    && c.issuerAccreditationId == sought.issuerAccreditationId
  }

  function MatchingCredentials(m: CR.Credentials, sought: SoughtCredential): set<Bytes32> {
    set id | id in m && MatchesCredential(m[id], sought)
  }

  function ScanCredentials(st: CR.Storage, sought: SoughtCredential): Option<Bytes32> {
    LastIn(Listed(st.byHolder, sought.holder), MatchingCredentials(st.credentials, sought))
  }

  method FindIssuedCredentialId(st: CR.Storage, sought: SoughtCredential) returns (r: Option<Bytes32>)
    ensures r == ScanCredentials(st, sought)
  {
    var ids := Listed(st.byHolder, sought.holder);
    assert ids[..|ids|] == ids;
    for i := |ids| downto 0
      invariant LastIn(ids, MatchingCredentials(st.credentials, sought))
             == LastIn(ids[..i], MatchingCredentials(st.credentials, sought))
    {
      var candidate := CR.Get(st.credentials, ids[i]);
      assert ids[..i + 1][..i] == ids[..i];
      if !candidate.present {
        continue;
      }
      if candidate.issuer != sought.issuer {
        continue;
      }
      if candidate.holder != sought.holder {
        continue;
      }
      if candidate.credentialHash != sought.credentialHash {
        continue;
      }
      if candidate.credentialType != sought.credentialType {
        continue;
      }
      if candidate.issuerAccreditationId != sought.issuerAccreditationId {
        continue;
      }
      return Some(ids[i]);
    }
    return None;
  }

  function Recorded(keccak: Hash, w: World, action: Action, sought: SoughtCredential): Option<Bytes32> {
    if action.RecordCredential? && SoughtCredentialOf(action.sender, action.recordArgs) == sought then
      match CR.Record(keccak, w.acc, w.cred, Context(w, action.sender), action.recordArgs).1
      case Success(id) => Some(id)
      case Failure(_) => None
    else None
  }

  lemma MatchingWithRecorded(st: CR.Storage, id: Bytes32, msg: Msg, args: CR.RecordArgs, sought: SoughtCredential)
    requires !CR.Get(st.credentials, id).present
    ensures MatchingCredentials(CR.WithRecorded(st, id, msg, args).credentials, sought)
         == MatchingCredentials(st.credentials, sought) + if SoughtCredentialOf(msg.sender, args) == sought then {id} else {}
  {
  }

  lemma RecordMovesScan(
    keccak: Hash, acc: AR.Storage, st: CR.Storage, msg: Msg, args: CR.RecordArgs, sought: SoughtCredential
  )
    requires OnlyLists(st.byHolder, st.credentials.Keys)
    ensures var (st', r) := CR.Record(keccak, acc, st, msg, args);
            && OnlyLists(st'.byHolder, st'.credentials.Keys)
            && ScanCredentials(st', sought) ==
                 if r.Success? && SoughtCredentialOf(msg.sender, args) == sought then Some(r.value) else ScanCredentials(st, sought)
  {
    var (st', r) := CR.Record(keccak, acc, st, msg, args);
    if r.Success? {
      var wanted := MatchingCredentials(st.credentials, sought);
      var wanted' := wanted + if SoughtCredentialOf(msg.sender, args) == sought then {r.value} else {};
      MatchingWithRecorded(st, r.value, msg, args, sought);
      assert st'.credentials.Keys == st.credentials.Keys + {r.value};
      PushMovesScan(st.byHolder, st.credentials.Keys, args.holder, r.value, sought.holder, wanted, wanted');
    }
  }

  lemma ChangeKeepsScan(st: CR.Storage, msg: Msg, id: Bytes32, change: CR.StatusChange, sought: SoughtCredential)
    requires OnlyLists(st.byHolder, st.credentials.Keys)
    ensures var st' := CR.Change(st, msg, id, change).0;
            && OnlyLists(st'.byHolder, st'.credentials.Keys)
            && ScanCredentials(st', sought) == ScanCredentials(st, sought)
  {
    var (st', r) := CR.Change(st, msg, id, change);
    if r.Success? {
      assert st'.credentials.Keys == st.credentials.Keys;
      assert MatchingCredentials(st'.credentials, sought) == MatchingCredentials(st.credentials, sought);
    }
  }

  // ---------------------------------------------------------------------------------------
  // Scans over runs
  // ---------------------------------------------------------------------------------------

  /** Either kind of request a service sends and then looks for. */
  datatype Request = ForAccreditation(accreditation: Sought) | ForCredential(credential: SoughtCredential)

  function Scan(w: World, request: Request): Option<Bytes32> {
    match request
    case ForAccreditation(sought) => ScanAccreditations(w.acc, sought)
    case ForCredential(sought) => ScanCredentials(w.cred, sought)
  }

  /** The identifier the action creates, if it successfully carries out the request. */
  function Created(keccak: Hash, w: World, action: Action, request: Request): Option<Bytes32> {
    match request
    case ForAccreditation(sought) => Issued(keccak, w, action, sought)
    case ForCredential(sought) => Recorded(keccak, w, action, sought)
  }

  /** Some action of the run successfully carries out the request. */
  predicate CreatedAgain(keccak: Hash, w: World, actions: seq<Action>, request: Request)
    decreases |actions|
  {
    actions != [] &&
    (Created(keccak, w, actions[0], request).Some? || CreatedAgain(keccak, Step(keccak, w, actions[0]), actions[1..], request))
  }

  /** Is `id` an identifier of the kind requested? */
  predicate Stored(w: World, request: Request, id: Bytes32) {
    match request
    case ForAccreditation(_) => id in w.acc.accreditations
    case ForCredential(_) => id in w.cred.credentials
  }

  ghost predicate ListsStored(w: World) {
    OnlyLists(w.acc.bySubject, w.acc.accreditations.Keys) && OnlyLists(w.cred.byHolder, w.cred.credentials.Keys)
  }

  lemma InvariantListsStored(keccak: Hash, w: World)
    requires WorldInvariant(keccak, w)
    ensures ListsStored(w)
  {
    ExactOnlyLists(Entries(w.acc.accreditations, AI.EntryOf(AI.Subject)), w.acc.bySubject);
    ExactOnlyLists(Entries(w.cred.credentials, CI.EntryOf(CI.Holder)), w.cred.byHolder);
  }

  lemma AccreditationScanStep(keccak: Hash, w: World, action: Action, sought: Sought)
    requires ListsStored(w)
    ensures var w' := Step(keccak, w, action);
            && OnlyLists(w'.acc.bySubject, w'.acc.accreditations.Keys)
            && var id := Issued(keccak, w, action, sought);
               ScanAccreditations(w'.acc, sought) == if id.Some? then id else ScanAccreditations(w.acc, sought)
  {
    match action {
      case IssueAccreditation(sender, args) => IssueMovesScan(keccak, w.acc, Context(w, sender), args, sought);
      case RevokeAccreditation(sender, id) => RevokeKeepsScan(w.acc, Context(w, sender), id, sought);
      case _ =>
    }
  }

  lemma CredentialScanStep(keccak: Hash, w: World, action: Action, sought: SoughtCredential)
    requires ListsStored(w)
    ensures var w' := Step(keccak, w, action);
            && OnlyLists(w'.cred.byHolder, w'.cred.credentials.Keys)
            && var id := Recorded(keccak, w, action, sought);
               ScanCredentials(w'.cred, sought) == if id.Some? then id else ScanCredentials(w.cred, sought)
  {
    match action {
      case RecordCredential(sender, args) => RecordMovesScan(keccak, w.acc, w.cred, Context(w, sender), args, sought);
      case ChangeCredential(sender, id, change) => ChangeKeepsScan(w.cred, Context(w, sender), id, change, sought);
      case _ =>
    }
  }

  lemma StepKeepsListsStored(keccak: Hash, w: World, action: Action)
    requires ListsStored(w)
    ensures ListsStored(Step(keccak, w, action))
  {
    AccreditationScanStep(keccak, w, action, Sought(0, 0, Acc.NoScope, 0, 0));
    CredentialScanStep(keccak, w, action, SoughtCredential(0, 0, 0, [], 0));
  }

  /** A step moves the scan iff it carries out the request, and then to the identifier it creates, which is new. */
  lemma ScanStep(keccak: Hash, w: World, action: Action, request: Request)
    requires ListsStored(w)
    ensures var id := Created(keccak, w, action, request);
            Scan(Step(keccak, w, action), request) == if id.Some? then id else Scan(w, request)
  {
    match request {
      case ForAccreditation(sought) => AccreditationScanStep(keccak, w, action, sought);
      case ForCredential(sought) => CredentialScanStep(keccak, w, action, sought);
    }
  }

  /** What a step creates was not stored before and is after; what was stored stays. */
  lemma CreatedIsNew(keccak: Hash, w: World, action: Action, request: Request, id: Bytes32)
    ensures Created(keccak, w, action, request) == Some(id) ==>
              !Stored(w, request, id) && Stored(Step(keccak, w, action), request, id)
    ensures Stored(w, request, id) ==> Stored(Step(keccak, w, action), request, id)
  {
  }

  /** Over a run the scan moves iff the request is carried out again; an identifier passed over never comes back. */
  lemma {:induction false} ScanRun(keccak: Hash, w: World, actions: seq<Action>, request: Request, id: Bytes32)
    requires ListsStored(w) && Stored(w, request, id)
    ensures var found := Scan(Run(keccak, w, actions), request);
            if CreatedAgain(keccak, w, actions, request) then found != Some(id) else found == Scan(w, request)
    decreases |actions|
  {
    if actions != [] {
      StepKeepsListsStored(keccak, w, actions[0]);
      ScanStep(keccak, w, actions[0], request);
      CreatedIsNew(keccak, w, actions[0], request, id);
      ScanRun(keccak, Step(keccak, w, actions[0]), actions[1..], request, id);
    }
  }

  /**
   * After a request, for an accreditation or for a credential, has been carried out in any reachable state, and
   * whatever transactions follow before the scan, the scan returns the identifier just created iff
   * none of them successfully repeats the request.
   */
  lemma CreatedIsFoundUnlessRepeated(keccak: Hash, w: World, action: Action, request: Request, id: Bytes32, after: seq<Action>)
    requires WorldInvariant(keccak, w) && Created(keccak, w, action, request) == Some(id)
    ensures var w1 := Step(keccak, w, action);
            Scan(Run(keccak, w1, after), request) == Some(id) <==> !CreatedAgain(keccak, w1, after, request)
  {
    InvariantListsStored(keccak, w);
    StepKeepsListsStored(keccak, w, action);
    ScanStep(keccak, w, action, request);
    CreatedIsNew(keccak, w, action, request, id);
    ScanRun(keccak, Step(keccak, w, action), after, request, id);
  }
}
