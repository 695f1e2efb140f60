/**
 * The three contracts on one chain: every call by every caller, and time moving forward.
 * A call that reverts leaves the state as it was.
 */
module TrustSystem {
  import opened Evm
  import opened TrustChain
  import Acc = AccreditationRecords
  import AR = AccreditationRegistries
  import AI = AccreditationInvariants
  import CR = CredentialRegistries
  import CI = CredentialInvariants
  import Root = RootAuthorities

  datatype World = World(now: Uint256, number: Uint256, acc: AR.Storage, cred: CR.Storage, root: Root.Storage)

  datatype Action =
    | Advance(timestamp: Uint256, number: Uint256)
    | IssueAccreditation(sender: Address, issueArgs: AR.IssueArgs)
    | RevokeAccreditation(sender: Address, id: Bytes32)
    | RecordCredential(sender: Address, recordArgs: CR.RecordArgs)
    | ChangeCredential(sender: Address, id: Bytes32, change: CR.StatusChange)
    | CallRoot(sender: Address, call: Root.Call)

  function Context(w: World, sender: Address): Msg {
    Msg(sender, w.now, w.number)
  }

  /** One block-header change or one transaction. Timestamps do not decrease. */
  function Step(keccak: Hash, w: World, action: Action): World {
    match action
    case Advance(timestamp, number) => if timestamp < w.now then w else w.(now := timestamp, number := number)
    case IssueAccreditation(sender, args) => w.(acc := AR.Issue(keccak, w.acc, Context(w, sender), args).0)
    case RevokeAccreditation(sender, id) => w.(acc := AR.Revoke(w.acc, Context(w, sender), id).0)
    case RecordCredential(sender, args) => w.(cred := CR.Record(keccak, w.acc, w.cred, Context(w, sender), args).0)
    case ChangeCredential(sender, id, change) => w.(cred := CR.Change(w.cred, Context(w, sender), id, change).0)
    case CallRoot(sender, call) => w.(root := Root.Execute(w.root, Context(w, sender), call).0)
  }

  function Run(keccak: Hash, w: World, actions: seq<Action>): World
    decreases |actions|
  {
    if actions == [] then w else Run(keccak, Step(keccak, w, actions[0]), actions[1..])
  }

  lemma RunOne(keccak: Hash, w: World, action: Action)
    ensures Run(keccak, w, [action]) == Step(keccak, w, action)
  {
    var actions := [action];
    assert actions[1..] == [];
    assert Run(keccak, w, actions) == Run(keccak, Step(keccak, w, action), []);
  }

  lemma RunThen(keccak: Hash, w: World, actions: seq<Action>, action: Action)
    ensures Run(keccak, w, [action] + actions) == Run(keccak, Step(keccak, w, action), actions)
  {
    assert ([action] + actions)[1..] == actions;
  }

  /** The three contracts just deployed. */
  function Genesis(now: Uint256, number: Uint256, accOwner: Address, rootOwner: Address): World {
    World(now, number, AR.Deployed(accOwner), CR.DEPLOYED, Root.Deployed(rootOwner))
  }

  predicate Valid(w: World, id: Bytes32) {
    Acc.ValidateTrustChain(w.acc.accreditations, w.acc.owner, w.now, id)
  }

  predicate Active(w: World, c: Bytes32) {
    CR.IsActive(w.acc, w.cred, w.now, c)
  }

  // ---------------------------------------------------------------------------------------
  // Every reachable state
  // ---------------------------------------------------------------------------------------

  ghost predicate WorldInvariant(keccak: Hash, w: World) {
    && AI.RegistryInvariant(keccak, w.acc, w.now)
    && CI.RegistryInvariant(keccak, w.acc.accreditations, w.cred, w.now)
    && Root.ListExact(w.root)
  }

  /** No flag of a member state is cleared, and none that is not a member becomes one again. */
  ghost predicate MembersEvolve(st: Root.Storage, st': Root.Storage) {
    forall who | who in st.memberStates ::
      who in st'.memberStates && (Root.IsMemberState(st', who) ==> Root.IsMemberState(st, who))
  }

  /** How a later state may differ from an earlier one. */
  ghost predicate WorldEvolves(w: World, w': World) {
    && w.now <= w'.now
    && w.acc.owner == w'.acc.owner
    && Evolves(w.acc.accreditations, w'.acc.accreditations)
    && IssuedSince(w.acc.accreditations, w'.acc.accreditations, w.now)
    && CI.Evolves(w.cred.credentials, w'.cred.credentials)
    && MembersEvolve(w.root, w'.root)
  }

  lemma CallEvolves(st: Root.Storage, msg: Msg, call: Root.Call)
    ensures MembersEvolve(st, Root.Execute(st, msg, call).0)
  {
    forall who | who in st.memberStates {
      Root.ExecuteNeverReadmits(st, msg, call, who);
    }
  }

  lemma StepEvolves(keccak: Hash, w: World, action: Action)
    ensures WorldEvolves(w, Step(keccak, w, action))
  {
    match action {
      case Advance(_, _) =>
      case IssueAccreditation(sender, args) => AI.IssueEvolves(keccak, w.acc, Context(w, sender), args);
      case RevokeAccreditation(sender, id) => AI.RevokeEvolves(w.acc, Context(w, sender), id);
      case RecordCredential(sender, args) => CI.RecordEvolves(keccak, w.acc, w.cred, Context(w, sender), args);
      case ChangeCredential(sender, id, change) => CI.ChangeEvolves(w.cred, Context(w, sender), id, change);
      case CallRoot(sender, call) => CallEvolves(w.root, Context(w, sender), call);
    }
  }

  lemma IssuedSinceTransitive(m1: Acc.Records, m2: Acc.Records, m3: Acc.Records, now1: Uint256, now2: Uint256)
    requires IssuedSince(m1, m2, now1) && IssuedSince(m2, m3, now2) && Evolves(m2, m3) && now1 <= now2
    ensures IssuedSince(m1, m3, now1)
  {
    forall id: Bytes32 | Acc.Get(m3, id).present && !Acc.Get(m1, id).present ensures now1 <= Acc.Get(m3, id).issuedAt {
      assert Acc.Get(m2, id).present ==> Acc.Get(m3, id).issuedAt == Acc.Get(m2, id).issuedAt;
    }
  }

  lemma {:induction false} RunEvolves(keccak: Hash, w: World, actions: seq<Action>)
    ensures WorldEvolves(w, Run(keccak, w, actions))
    decreases |actions|
  {
    if actions != [] {
      var w1 := Step(keccak, w, actions[0]);
      var w2 := Run(keccak, w1, actions[1..]);
      StepEvolves(keccak, w, actions[0]);
      RunEvolves(keccak, w1, actions[1..]);
      EvolvesTransitive(w.acc.accreditations, w1.acc.accreditations, w2.acc.accreditations);
      IssuedSinceTransitive(w.acc.accreditations, w1.acc.accreditations, w2.acc.accreditations, w.now, w1.now);
      CI.EvolvesTransitive(w.cred.credentials, w1.cred.credentials, w2.cred.credentials);
    }
  }

  lemma StepKeepsInvariant(keccak: Hash, w: World, action: Action)
    requires WorldInvariant(keccak, w)
    ensures WorldInvariant(keccak, Step(keccak, w, action))
  {
    var w' := Step(keccak, w, action);
    match action {
      case Advance(_, _) =>
      case IssueAccreditation(sender, args) =>
        AI.IssueKeepsInvariant(keccak, w.acc, Context(w, sender), args);
        StepEvolves(keccak, w, action);
        CI.EvolutionKeepsIssuers(w.acc.accreditations, w'.acc.accreditations, w.cred);
      case RevokeAccreditation(sender, id) =>
        AI.RevokeKeepsInvariant(keccak, w.acc, Context(w, sender), id);
        StepEvolves(keccak, w, action);
        CI.EvolutionKeepsIssuers(w.acc.accreditations, w'.acc.accreditations, w.cred);
      case RecordCredential(sender, args) =>
        CI.RecordKeepsInvariant(keccak, w.acc, w.cred, Context(w, sender), args);
      case ChangeCredential(sender, id, change) =>
        CI.ChangeKeepsInvariant(keccak, w.acc.accreditations, w.cred, Context(w, sender), id, change);
      case CallRoot(sender, call) =>
        Root.ExecuteKeepsList(w.root, Context(w, sender), call);
    }
  }

  lemma {:induction false} RunKeepsInvariant(keccak: Hash, w: World, actions: seq<Action>)
    requires WorldInvariant(keccak, w)
    ensures WorldInvariant(keccak, Run(keccak, w, actions))
    decreases |actions|
  {
    if actions != [] {
      StepKeepsInvariant(keccak, w, actions[0]);
      RunKeepsInvariant(keccak, Step(keccak, w, actions[0]), actions[1..]);
    }
  }

  /** The invariant of all three contracts holds after any calls by any callers. */
  lemma ReachableInvariant(
    keccak: Hash, now: Uint256, number: Uint256, accOwner: Address, rootOwner: Address, actions: seq<Action>
  )
    ensures WorldInvariant(keccak, Run(keccak, Genesis(now, number, accOwner, rootOwner), actions))
  {
    AI.DeployedInvariant(keccak, accOwner, now);
    RunKeepsInvariant(keccak, Genesis(now, number, accOwner, rootOwner), actions);
  }

  // ---------------------------------------------------------------------------------------
  // Verdicts over whole runs
  // ---------------------------------------------------------------------------------------

  /** An identifier that validates in one state and fails in a later one fails ever after. */
  lemma ValidityNeverRegained(keccak: Hash, w: World, first: seq<Action>, second: seq<Action>, id: Bytes32)
    requires Valid(w, id) && !Valid(Run(keccak, w, first), id)
    ensures !Valid(Run(keccak, Run(keccak, w, first), second), id)
  {
    var w1 := Run(keccak, w, first);
    var w2 := Run(keccak, w1, second);
    RunEvolves(keccak, w, first);
    RunEvolves(keccak, w1, second);
    LostVerdictStaysLost(w.acc.accreditations, w1.acc.accreditations, w2.acc.accreditations, w.acc.owner,
                         w.now, w1.now, w2.now, id);
  }

  /** An identifier that fails although its record and its next three ancestors are stored never validates. */
  lemma StoredFailureIsFinal(keccak: Hash, w: World, actions: seq<Action>, id: Bytes32)
    requires WalkStored(w.acc.accreditations, id, 3) && !Valid(w, id)
    ensures !Valid(Run(keccak, w, actions), id)
  {
    var w' := Run(keccak, w, actions);
    RunEvolves(keccak, w, actions);
    if Valid(w', id) {
      StoredWalkOnlyLoses(w.acc.accreditations, w'.acc.accreditations, w.acc.owner, w.now, w'.now, id, 3);
    }
  }

  /** The identifier of a parentless MemberState that the owner issues to itself at `time`. */
  function OwnersStateId(keccak: Hash, owner: Address, permissionsHash: Bytes32, time: Uint256): Bytes32 {
    keccak(AR.Preimage(Msg(owner, time, 0), OwnersStateArgs(owner, permissionsHash)))
  }

  function OwnersStateArgs(owner: Address, permissionsHash: Bytes32): AR.IssueArgs {
    AR.IssueArgs(owner, Acc.MemberState, ZERO_ID, permissionsHash, 0)
  }

  /**
   * At some time to come, `id` still dangles from just the identifier that a MemberState of the owner
   * for itself would take then.
   */
  ghost predicate Repairable(keccak: Hash, w: World, id: Bytes32) {
    exists time: Uint256, permissionsHash: Bytes32 ::
      && w.now <= time
      && Dangling(w.acc.accreditations, w.acc.owner, time, id, OwnersStateId(keccak, w.acc.owner, permissionsHash, time))
  }

  /** Waiting for that time and issuing that MemberState makes the identifier valid. */
  lemma RepairRun(keccak: Hash, w: World, id: Bytes32, time: Uint256, permissionsHash: Bytes32)
    requires w.now <= time
    requires Dangling(w.acc.accreditations, w.acc.owner, time, id, OwnersStateId(keccak, w.acc.owner, permissionsHash, time))
    ensures var repair := [Advance(time, w.number), IssueAccreditation(w.acc.owner, OwnersStateArgs(w.acc.owner, permissionsHash))];
            Valid(Run(keccak, w, repair), id)
  {
    var owner := w.acc.owner;
    var args := OwnersStateArgs(owner, permissionsHash);
    var missing := OwnersStateId(keccak, owner, permissionsHash, time);
    var waited := Step(keccak, w, Advance(time, w.number));
    var msg := Context(waited, owner);
    assert AR.Preimage(msg, args) == AR.Preimage(Msg(owner, time, 0), args);
    StateRepairs(w.acc.accreditations, owner, time, id, missing, AR.NewRecord(missing, msg, args));
    var issue := IssueAccreditation(owner, args);
    RunOne(keccak, waited, issue);
    RunThen(keccak, w, [issue], Advance(time, w.number));
    assert [Advance(time, w.number)] + [issue] == [Advance(time, w.number), issue];
  }

  lemma RepairableDangles(keccak: Hash, w: World, id: Bytes32)
    requires Repairable(keccak, w, id)
    ensures exists missing :: Dangling(w.acc.accreditations, w.acc.owner, w.now, id, missing)
  {
    var time: Uint256, permissionsHash: Bytes32 :|
      w.now <= time
      && Dangling(w.acc.accreditations, w.acc.owner, time, id, OwnersStateId(keccak, w.acc.owner, permissionsHash, time));
    var missing := OwnersStateId(keccak, w.acc.owner, permissionsHash, time);
    DanglingBefore(w.acc.accreditations, w.acc.owner, w.now, time, id, missing);
  }

  lemma RepairableIsRepaired(keccak: Hash, w: World, id: Bytes32)
    requires Repairable(keccak, w, id)
    ensures exists actions :: Valid(Run(keccak, w, actions), id)
  {
    var time: Uint256, permissionsHash: Bytes32 :|
      w.now <= time
      && Dangling(w.acc.accreditations, w.acc.owner, time, id, OwnersStateId(keccak, w.acc.owner, permissionsHash, time));
    RepairRun(keccak, w, id, time, permissionsHash);
  }

  /** A MemberState of the owner for itself sits under the identifier it was given at its time of issue. */
  lemma OwnersStateKey(keccak: Hash, st: AR.Storage, now: Uint256, id: Bytes32)
    requires AI.WellKeyed(keccak, st, now) && id in st.accreditations && OwnersState(st.accreditations[id], st.owner)
    ensures var a := st.accreditations[id];
            a.issuedAt <= now && id == OwnersStateId(keccak, st.owner, a.permissionsHash, a.issuedAt)
  {
    assert id == keccak(AI.RecordPreimage(st.accreditations[id]));
  }

  /** A stored identifier that fails in one state and validates in a later one was repairable. */
  lemma LateVerdictRepairable(keccak: Hash, w: World, w': World, id: Bytes32)
    requires WorldEvolves(w, w') && AI.AllAuthorised(w.acc) && AI.WellKeyed(keccak, w'.acc, w'.now)
    requires id in w.acc.accreditations && !Valid(w, id) && Valid(w', id)
    ensures Repairable(keccak, w, id)
  {
    var m, m', owner := w.acc.accreditations, w'.acc.accreditations, w.acc.owner;
    var missing := LateVerdictDangled(m, m', owner, w.now, w'.now, id);
    OwnersStateKey(keccak, w'.acc, w'.now, missing);
    DanglingBefore(m, owner, m'[missing].issuedAt, w'.now, id, missing);
  }

  lemma ValidLaterRepairable(keccak: Hash, w: World, actions: seq<Action>, id: Bytes32)
    requires WorldInvariant(keccak, w) && id in w.acc.accreditations
    requires !Valid(w, id) && Valid(Run(keccak, w, actions), id)
    ensures Repairable(keccak, w, id)
  {
    RunEvolves(keccak, w, actions);
    RunKeepsInvariant(keccak, w, actions);
    LateVerdictRepairable(keccak, w, Run(keccak, w, actions), id);
  }

  /**
   * When failure is final. In a reachable state a stored identifier that fails validates at the end of some run
   * iff it is repairable: nothing checks the parent of a Ministry the owner issues, so such a record
   * may come before its parent, and turn valid, with all below it, when the parent is issued. A caller can
   * rule that out from storage alone: what dangles from nothing now never validates.
   */
  lemma FailureIsFinalIff(keccak: Hash, w: World, id: Bytes32)
    requires WorldInvariant(keccak, w) && id in w.acc.accreditations && !Valid(w, id)
    ensures (exists actions :: Valid(Run(keccak, w, actions), id)) <==> Repairable(keccak, w, id)
    ensures Repairable(keccak, w, id) ==> exists missing :: Dangling(w.acc.accreditations, w.acc.owner, w.now, id, missing)
  {
    forall actions | Valid(Run(keccak, w, actions), id) ensures Repairable(keccak, w, id) {
      ValidLaterRepairable(keccak, w, actions, id);
    }
    if Repairable(keccak, w, id) {
      RepairableIsRepaired(keccak, w, id);
      RepairableDangles(keccak, w, id);
    }
  }

  /**
   * Such a failure is reached from every deployment: the owner issues a Ministry under the identifier its
   * own MemberState will take, and the MemberState after it.
   */
  lemma FailureMayBeRepaired(keccak: Hash, now: Uint256, number: Uint256, owner: Address, rootOwner: Address, subject: Address)
    requires var stateId := OwnersStateId(keccak, owner, 0, now);
             stateId != ZERO_ID
             && keccak(AR.Preimage(Msg(owner, now, number), AR.IssueArgs(subject, Acc.Ministry, stateId, 0, 0))) != stateId
    ensures var ministry := AR.IssueArgs(subject, Acc.Ministry, OwnersStateId(keccak, owner, 0, now), 0, 0);
            var id := keccak(AR.Preimage(Msg(owner, now, number), ministry));
            var w := Run(keccak, Genesis(now, number, owner, rootOwner), [IssueAccreditation(owner, ministry)]);
            && id in w.acc.accreditations
            && !Valid(w, id)
            && exists actions :: Valid(Run(keccak, w, actions), id)
  {
    var stateId := OwnersStateId(keccak, owner, 0, now);
    var ministry := AR.IssueArgs(subject, Acc.Ministry, stateId, 0, 0);
    var msg := Msg(owner, now, number);
    var id := keccak(AR.Preimage(msg, ministry));
    var genesis := Genesis(now, number, owner, rootOwner);
    var action := IssueAccreditation(owner, ministry);
    var w := Run(keccak, genesis, [action]);
    RunOne(keccak, genesis, action);
    assert w.acc.accreditations == map[id := AR.NewRecord(id, msg, ministry)];
    assert Dangling(w.acc.accreditations, owner, now, id, stateId);
    RepairRun(keccak, w, id, now, 0);
  }

  // ---------------------------------------------------------------------------------------
  // Revocation
  // ---------------------------------------------------------------------------------------

  /**
   * Revocation is final and cascades: once `a` has been revoked, in every later state no
   * identifier whose parent walk meets `a`, now or at the time, validates, and no credential
   * recorded under such an identifier is active for any reader.
   */
  lemma RevocationCascades(
    keccak: Hash, w: World, sender: Address, a: Bytes32, actions: seq<Action>, id: Bytes32, n: nat
  )
    requires AR.Revoke(w.acc, Context(w, sender), a).1.Success?
    ensures var w' := Run(keccak, Step(keccak, w, RevokeAccreditation(sender, a)), actions);
            a in Acc.ParentWalk(w.acc.accreditations, id, n) || a in Acc.ParentWalk(w'.acc.accreditations, id, n) ==>
              && !Valid(w', id)
              && (forall c: Bytes32 | c in w'.cred.credentials && w'.cred.credentials[c].issuerAccreditationId == id ::
                    && !CR.IsActive(w'.acc, w'.cred, w'.now, c)
                    && !CR.VerifyCredential(w'.acc, w'.cred, w'.now, c).isValid)
  {
    var w1 := Step(keccak, w, RevokeAccreditation(sender, a));
    var w' := Run(keccak, w1, actions);
    var m, m' := w.acc.accreditations, w'.acc.accreditations;
    StepEvolves(keccak, w, RevokeAccreditation(sender, a));
    RunEvolves(keccak, w1, actions);
    assert Acc.Get(w1.acc.accreditations, a).revoked && Acc.Get(m', a).revoked;
    if a in Acc.ParentWalk(m, id, n) {
      EvolvesTransitive(m, w1.acc.accreditations, m');
      WalkPersists(m, m', id, n, a);
    }
    if a in Acc.ParentWalk(m', id, n) && Valid(w', id) {
      ValidWalkIsValid(m', w'.acc.owner, w'.now, id, n, a);
    }
  }

  /** In every reachable state a credential's accreditation is an Institution's and is about its issuer. */
  lemma RecordedUnderOwnInstitution(
    keccak: Hash, now: Uint256, number: Uint256, accOwner: Address, rootOwner: Address, actions: seq<Action>, c: Bytes32
  )
    ensures var w := Run(keccak, Genesis(now, number, accOwner, rootOwner), actions);
            c in w.cred.credentials ==>
              var cred := w.cred.credentials[c];
              var a := Acc.Get(w.acc.accreditations, cred.issuerAccreditationId);
              a.present && a.scope == Acc.Institution && a.subject == cred.issuer
  {
    ReachableInvariant(keccak, now, number, accOwner, rootOwner, actions);
  }

  /** A revoked credential keeps that status, and stays inactive, in every later state. */
  lemma CredentialRevocationIsFinal(keccak: Hash, w: World, actions: seq<Action>, c: Bytes32)
    requires c in w.cred.credentials && w.cred.credentials[c].status == CR.Revoked
    ensures var w' := Run(keccak, w, actions);
            && CR.Get(w'.cred.credentials, c) == w.cred.credentials[c]
            && !Active(w', c)
  {
    RunEvolves(keccak, w, actions);
    assert CR.Get(w.cred.credentials, c).present;
  }

  /** Not revoked, not expired, and recorded under an accreditation that validates now. */
  predicate InGoodStanding(w: World, c: Bytes32)
    requires c in w.cred.credentials
  {
    var cred := w.cred.credentials[c];
    cred.status != CR.Revoked && !Expired(cred.expiresAt, w.now) && Valid(w, cred.issuerAccreditationId)
  }

  lemma ActiveLater(keccak: Hash, w: World, actions: seq<Action>, c: Bytes32)
    requires WorldInvariant(keccak, w) && c in w.cred.credentials && Active(Run(keccak, w, actions), c)
    ensures InGoodStanding(w, c)
  {
    var w' := Run(keccak, w, actions);
    var cred := w.cred.credentials[c];
    RunEvolves(keccak, w, actions);
    assert CR.Get(w.cred.credentials, c).present;
    assert CI.Accredited(w.acc.accreditations, cred);
    if !Valid(w, cred.issuerAccreditationId) {
      StoredFailureIsFinal(keccak, w, actions, cred.issuerAccreditationId);
    }
  }

  lemma ExpiredIsNeverStored(keccak: Hash, w: World, c: Bytes32)
    requires WorldInvariant(keccak, w) && c in w.cred.credentials
    ensures w.cred.credentials[c].status != CR.StatusExpired
  {
    assert CI.LogExact(w.cred);
  }

  /** Good standing is activity now, or activity once the issuer lifts a suspension. */
  lemma GoodStanding(w: World, c: Bytes32)
    requires c in w.cred.credentials && w.cred.credentials[c].status != CR.StatusExpired
    ensures Active(w, c) ==> InGoodStanding(w, c)
    ensures InGoodStanding(w, c) && !Active(w, c) ==> w.cred.credentials[c].status == CR.Suspended
  {
  }

  lemma ReactivatedIsActive(keccak: Hash, w: World, c: Bytes32)
    requires c in w.cred.credentials && w.cred.credentials[c].status == CR.Suspended && InGoodStanding(w, c)
    ensures Active(Run(keccak, w, [ChangeCredential(w.cred.credentials[c].issuer, c, CR.ToActive)]), c)
  {
    RunOne(keccak, w, ChangeCredential(w.cred.credentials[c].issuer, c, CR.ToActive));
  }

  lemma StandingHasFuture(keccak: Hash, w: World, c: Bytes32)
    requires c in w.cred.credentials && w.cred.credentials[c].status != CR.StatusExpired && InGoodStanding(w, c)
    ensures exists actions :: Active(Run(keccak, w, actions), c)
  {
    GoodStanding(w, c);
    if Active(w, c) {
      assert Active(Run(keccak, w, []), c);
    } else {
      ReactivatedIsActive(keccak, w, c);
    }
  }

  /**
   * Which credentials have a future. In a reachable state a stored credential is active at the end of some run
   * iff it is not revoked, has not expired, and its accreditation validates now. So one whose trust
   * chain fails is inactive for good, and an inactive one comes back only out of suspension.
   */
  lemma MayBecomeActiveIff(keccak: Hash, w: World, c: Bytes32)
    requires WorldInvariant(keccak, w) && c in w.cred.credentials
    ensures (exists actions :: Active(Run(keccak, w, actions), c)) <==> InGoodStanding(w, c)
    ensures !Active(w, c) && InGoodStanding(w, c) ==> w.cred.credentials[c].status == CR.Suspended
  {
    ExpiredIsNeverStored(keccak, w, c);
    GoodStanding(w, c);
    if InGoodStanding(w, c) {
      StandingHasFuture(keccak, w, c);
    } else {
      forall actions ensures !Active(Run(keccak, w, actions), c) {
        if Active(Run(keccak, w, actions), c) { ActiveLater(keccak, w, actions, c); }
      }
    }
  }

  /** In a reachable state the status reported is the one stored iff the credential has not expired. */
  lemma ReportsStoredStatusIff(keccak: Hash, w: World, c: Bytes32)
    requires WorldInvariant(keccak, w) && c in w.cred.credentials
    ensures CR.VerifyCredential(w.acc, w.cred, w.now, c).status == w.cred.credentials[c].status
       <==> !Expired(w.cred.credentials[c].expiresAt, w.now)
    ensures CR.GetCredentialStatus(w.cred, w.now, c) == Success(w.cred.credentials[c].status)
       <==> !Expired(w.cred.credentials[c].expiresAt, w.now)
  {
    assert w.cred.credentials[c].status != CR.StatusExpired;
    CR.ReadersAgree(w.acc, w.cred, w.now, c);
  }

  /** The calls of one address that issues itself a Ministry, an Institution under it, and records and revokes a credential. */
  function RevokeThenExpire(keccak: Hash, owner: Address, now: Uint256, number: Uint256, args: CR.RecordArgs): seq<Action>
    requires now + 1 < TWO_256
  {
    var msg := Msg(owner, now, number);
    var ministry := MinistryArgs(owner);
    [IssueAccreditation(owner, ministry)]
    + ([IssueAccreditation(owner, InstitutionArgs(owner, keccak(AR.Preimage(msg, ministry))))]
    + ([RecordCredential(owner, args)]
    + ([ChangeCredential(owner, keccak(CR.Preimage(msg, args)), CR.ToRevoked([]))]
    + [Advance(now + 1, number)])))
  }

  function MinistryArgs(subject: Address): AR.IssueArgs {
    AR.IssueArgs(subject, Acc.Ministry, ZERO_ID, 0, 0)
  }

  function InstitutionArgs(subject: Address, parentId: Bytes32): AR.IssueArgs {
    AR.IssueArgs(subject, Acc.Institution, parentId, 0, 0)
  }

  lemma InstitutionUnderMinistry(keccak: Hash, w: World, owner: Address)
    requires w.acc == AR.Deployed(owner)
    requires var ministryId := keccak(AR.Preimage(Context(w, owner), MinistryArgs(owner)));
             ministryId != ZERO_ID
             && keccak(AR.Preimage(Context(w, owner), InstitutionArgs(owner, ministryId))) != ministryId
    ensures var ministryId := keccak(AR.Preimage(Context(w, owner), MinistryArgs(owner)));
            var institutionId := keccak(AR.Preimage(Context(w, owner), InstitutionArgs(owner, ministryId)));
            var w1 := Step(keccak, w, IssueAccreditation(owner, MinistryArgs(owner)));
            var w2 := Step(keccak, w1, IssueAccreditation(owner, InstitutionArgs(owner, ministryId)));
            && Valid(w2, institutionId)
            && var a := Acc.Get(w2.acc.accreditations, institutionId); a.subject == owner && a.scope == Acc.Institution
  {
    var msg := Context(w, owner);
    var ministryId := keccak(AR.Preimage(msg, MinistryArgs(owner)));
    var institution := InstitutionArgs(owner, ministryId);
    var institutionId := keccak(AR.Preimage(msg, institution));
    var w1 := Step(keccak, w, IssueAccreditation(owner, MinistryArgs(owner)));
    assert w1.acc.accreditations == map[ministryId := AR.NewRecord(ministryId, msg, MinistryArgs(owner))];
    assert Valid(w1, ministryId);
    var w2 := Step(keccak, w1, IssueAccreditation(owner, institution));
    assert w2.acc.accreditations == w1.acc.accreditations[institutionId := AR.NewRecord(institutionId, msg, institution)];
    assert Valid(w2, ministryId);
  }

  lemma RecordRevokeExpire(keccak: Hash, w: World, issuer: Address, args: CR.RecordArgs, later: Uint256)
    requires 0 < args.expiresAt < later && w.now <= later && w.cred == CR.DEPLOYED && Valid(w, args.issuerAccreditationId)
    requires var a := Acc.Get(w.acc.accreditations, args.issuerAccreditationId); a.subject == issuer && a.scope == Acc.Institution
    ensures var c := keccak(CR.Preimage(Context(w, issuer), args));
            var w1 := Step(keccak, w, RecordCredential(issuer, args));
            var w2 := Step(keccak, w1, ChangeCredential(issuer, c, CR.ToRevoked([])));
            var w3 := Step(keccak, w2, Advance(later, w.number));
            && c in w3.cred.credentials
            && w3.cred.credentials[c].status == CR.Revoked
            && CR.VerifyCredential(w3.acc, w3.cred, w3.now, c).status == CR.StatusExpired
  {
    var c := keccak(CR.Preimage(Context(w, issuer), args));
    CI.MayRecordIff(w.acc, issuer, w.now, args.issuerAccreditationId);
    var w1 := Step(keccak, w, RecordCredential(issuer, args));
    assert w1.cred.credentials == map[c := CR.NewRecord(c, Context(w, issuer), args)];
  }

  /** A credential that is both: from every deployment, a run leads to a revoked credential that reads as expired. */
  lemma RevokedMayReadExpired(
    keccak: Hash, now: Uint256, number: Uint256, owner: Address, rootOwner: Address, args: CR.RecordArgs
  )
    requires 0 < now && now + 1 < TWO_256 && args.expiresAt == now
    requires var ministryId := keccak(AR.Preimage(Msg(owner, now, number), MinistryArgs(owner)));
             && ministryId != ZERO_ID
             && args.issuerAccreditationId == keccak(AR.Preimage(Msg(owner, now, number), InstitutionArgs(owner, ministryId)))
             && args.issuerAccreditationId != ministryId
    ensures var c := keccak(CR.Preimage(Msg(owner, now, number), args));
            var w := Run(keccak, Genesis(now, number, owner, rootOwner), RevokeThenExpire(keccak, owner, now, number, args));
            && c in w.cred.credentials
            && w.cred.credentials[c].status == CR.Revoked
            && CR.VerifyCredential(w.acc, w.cred, w.now, c).status == CR.StatusExpired
  {
    var msg := Msg(owner, now, number);
    var ministryId, institutionId := keccak(AR.Preimage(msg, MinistryArgs(owner))), args.issuerAccreditationId;
    var c := keccak(CR.Preimage(msg, args));
    var a1 := IssueAccreditation(owner, MinistryArgs(owner));
    var a2 := IssueAccreditation(owner, InstitutionArgs(owner, ministryId));
    var a3 := RecordCredential(owner, args);
    var a4 := ChangeCredential(owner, c, CR.ToRevoked([]));
    var a5 := Advance(now + 1, number);
    var w0 := Genesis(now, number, owner, rootOwner);
    var w1 := Step(keccak, w0, a1);
    var w2 := Step(keccak, w1, a2);
    InstitutionUnderMinistry(keccak, w0, owner);
    var w3 := Step(keccak, w2, a3);
    RunOne(keccak, Step(keccak, w3, a4), a5);
    RunThen(keccak, w3, [a5], a4);
    RunThen(keccak, w2, [a4] + [a5], a3);
    RunThen(keccak, w1, [a3] + ([a4] + [a5]), a2);
    RunThen(keccak, w0, [a2] + ([a3] + ([a4] + [a5])), a1);
    RecordRevokeExpire(keccak, w2, owner, args, now + 1);
  }

  /** A removed member state is never a member again. */
  lemma RemovalIsFinal(keccak: Hash, w: World, actions: seq<Action>, sender: Address, who: Address)
    requires Root.Execute(w.root, Context(w, sender), Root.RemoveMemberState(who)).1.Success?
    ensures !Root.IsMemberState(Run(keccak, Step(keccak, w, CallRoot(sender, Root.RemoveMemberState(who))), actions).root, who)
  {
    RunEvolves(keccak, Step(keccak, w, CallRoot(sender, Root.RemoveMemberState(who))), actions);
  }
}
