/**
 * What whole runs leave behind: what becomes of one accreditation, one credential, one member state, and what
 * the logs say, told from the calls that were made.
 */
module Histories {
  import opened Evm
  import opened TrustChain
  import opened TrustSystem
  import Acc = AccreditationRecords
  import AR = AccreditationRegistries
  import AI = AccreditationInvariants
  import CR = CredentialRegistries
  import CI = CredentialInvariants
  import Root = RootAuthorities

  // ---------------------------------------------------------------------------------------
  // Who can change what
  // ---------------------------------------------------------------------------------------

  /** The action asks, with the right to, for the revocation of an accreditation, or of a credential. */
  predicate AsksToRevoke(action: Action, owner: Address, issuer: Address, id: Bytes32) {
    action.RevokeAccreditation? && action.id == id && action.sender in {owner, issuer}
  }

  predicate AsksToRevokeCredential(action: Action, issuer: Address, c: Bytes32) {
    action.ChangeCredential? && action.id == c && action.change.ToRevoked? && action.sender == issuer
  }

  lemma RevokedStep(keccak: Hash, w: World, action: Action, id: Bytes32)
    requires id in w.acc.accreditations
    ensures var a, a' := w.acc.accreditations[id], Acc.Get(Step(keccak, w, action).acc.accreditations, id);
            && a'.present && a'.issuer == a.issuer
            && (a'.revoked <==> a.revoked || AsksToRevoke(action, w.acc.owner, a.issuer, id))
  {
  }

  lemma CredentialRevokedStep(keccak: Hash, w: World, action: Action, c: Bytes32)
    requires c in w.cred.credentials
    ensures var cred, cred' := w.cred.credentials[c], CR.Get(Step(keccak, w, action).cred.credentials, c);
            && cred'.present && cred'.issuer == cred.issuer
            && (cred'.status == CR.Revoked <==> cred.status == CR.Revoked || AsksToRevokeCredential(action, cred.issuer, c))
  {
  }

  lemma StepKeepsOwner(keccak: Hash, w: World, action: Action)
    ensures Step(keccak, w, action).acc.owner == w.acc.owner
  {
  }

  /** A stored accreditation is revoked after a run iff it was before, or its issuer or the owner asked for it on the way. */
  lemma {:induction false} RevokedIffAsked(keccak: Hash, w: World, actions: seq<Action>, id: Bytes32)
    requires id in w.acc.accreditations
    ensures Acc.Get(Run(keccak, w, actions).acc.accreditations, id).revoked <==>
              || w.acc.accreditations[id].revoked
              || exists action | action in actions :: AsksToRevoke(action, w.acc.owner, w.acc.accreditations[id].issuer, id)
    decreases |actions|
  {
    if actions != [] {
      RevokedStep(keccak, w, actions[0], id);
      StepKeepsOwner(keccak, w, actions[0]);
      assert actions == [actions[0]] + actions[1..];
      RevokedIffAsked(keccak, Step(keccak, w, actions[0]), actions[1..], id);
    }
  }

  /** A stored credential is revoked after a run iff it was before, or its issuer asked for it on the way. */
  lemma {:induction false} CredentialRevokedIffAsked(keccak: Hash, w: World, actions: seq<Action>, c: Bytes32)
    requires c in w.cred.credentials
    ensures CR.Get(Run(keccak, w, actions).cred.credentials, c).status == CR.Revoked <==>
              || w.cred.credentials[c].status == CR.Revoked
              || exists action | action in actions :: AsksToRevokeCredential(action, w.cred.credentials[c].issuer, c)
    decreases |actions|
  {
    if actions != [] {
      CredentialRevokedStep(keccak, w, actions[0], c);
      assert actions == [actions[0]] + actions[1..];
      CredentialRevokedIffAsked(keccak, Step(keccak, w, actions[0]), actions[1..], c);
    }
  }

  /** A listed member state is a member after a run iff it was before and the owner has not removed it on the way. */
  lemma {:induction false} MemberUnlessRemoved(keccak: Hash, w: World, actions: seq<Action>, who: Address)
    requires who in w.root.memberStates
    ensures Root.IsMemberState(Run(keccak, w, actions).root, who) <==>
              && Root.IsMemberState(w.root, who)
              && forall action | action in actions ::
                   !(action.CallRoot? && action.sender == w.root.owner && action.call == Root.RemoveMemberState(who))
    decreases |actions|
  {
    if actions != [] {
      assert actions == [actions[0]] + actions[1..];
      MembershipDiagram(keccak, w, actions[0], who);
      MemberUnlessRemoved(keccak, Step(keccak, w, actions[0]), actions[1..], who);
    }
  }

  /** The life of a stored credential: its issuer alone moves it, to Revoked or Suspended unless revoked, back to Active if suspended. */
  lemma StatusDiagram(keccak: Hash, w: World, action: Action, c: Bytes32)
    requires c in w.cred.credentials
    ensures var cred := w.cred.credentials[c];
            CR.Get(Step(keccak, w, action).cred.credentials, c).status ==
              if action.ChangeCredential? && action.id == c && action.sender == cred.issuer then
                match (cred.status, action.change)
                case (Active, ToSuspended(_)) => CR.Suspended
                case (Suspended, ToActive) => CR.Active
                case (Revoked, _) => CR.Revoked
                case (_, ToRevoked(_)) => CR.Revoked
                case (_, ToSuspended(_)) => CR.Suspended
                case (status, ToActive) => status
              else cred.status
  {
  }

  /** Membership of the root authority's list changes only by its owner's calls: once added, once and for all removed. */
  lemma MembershipDiagram(keccak: Hash, w: World, action: Action, who: Address)
    ensures var st, st' := w.root, Step(keccak, w, action).root;
            Root.IsMemberState(st', who) <==>
              if action.CallRoot? && action.sender == st.owner && action.call.stateAddress == who then
                match action.call
                case AddMemberState(_, _, _) => who !in st.memberStates || Root.IsMemberState(st, who)
                case RemoveMemberState(_) => false
                case UpdateMemberState(_, _) => Root.IsMemberState(st, who)
              else Root.IsMemberState(st, who)
  {
  }

  // ---------------------------------------------------------------------------------------
  // An accreditation from its issue on
  // ---------------------------------------------------------------------------------------

  /** Whatever follows an issue, the record keeps what was asked for. */
  lemma IssuedRecordKept(keccak: Hash, w: World, sender: Address, args: AR.IssueArgs, actions: seq<Action>)
    requires AR.Issue(keccak, w.acc, Context(w, sender), args).1.Success?
    ensures var id := AR.Issue(keccak, w.acc, Context(w, sender), args).1.value;
            var a := Acc.Get(Run(keccak, Step(keccak, w, IssueAccreditation(sender, args)), actions).acc.accreditations, id);
            && a.present && a.id == id
            && a.issuer == sender
            && a.subject == args.subject
            && a.parentAccreditationId == args.parentAccreditationId
            && a.scope == args.scope
            && a.permissionsHash == args.permissionsHash
            && a.issuedAt == w.now
            && a.expiresAt == args.expiresAt
  {
    var id := AR.Issue(keccak, w.acc, Context(w, sender), args).1.value;
    var w1 := Step(keccak, w, IssueAccreditation(sender, args));
    RunEvolves(keccak, w1, actions);
    assert Acc.Get(w1.acc.accreditations, id).present;
  }

  /** An expired record never validates, whatever its parents do. */
  lemma NeverValidPastExpiry(keccak: Hash, w: World, sender: Address, args: AR.IssueArgs, actions: seq<Action>)
    requires AR.Issue(keccak, w.acc, Context(w, sender), args).1.Success?
    ensures var id := AR.Issue(keccak, w.acc, Context(w, sender), args).1.value;
            var w' := Run(keccak, Step(keccak, w, IssueAccreditation(sender, args)), actions);
            0 < args.expiresAt < w'.now ==> !Valid(w', id)
  {
    IssuedRecordKept(keccak, w, sender, args, actions);
  }

  /** Past its expiry, zero meaning none, or revoked at the request of someone entitled to. */
  ghost predicate EndedBy(owner: Address, actions: seq<Action>, now: Uint256, a: Acc.Accreditation, id: Bytes32) {
    || 0 < a.expiresAt < now
    || exists action | action in actions :: AsksToRevoke(action, owner, a.issuer, id)
  }

  lemma LiveUnlessEnded(keccak: Hash, w: World, actions: seq<Action>, id: Bytes32)
    requires id in w.acc.accreditations && !w.acc.accreditations[id].revoked
    ensures var w' := Run(keccak, w, actions);
            Live(Acc.Get(w'.acc.accreditations, id), w'.now) <==>
              !EndedBy(w.acc.owner, actions, w'.now, w.acc.accreditations[id], id)
  {
    RunEvolves(keccak, w, actions);
    RevokedIffAsked(keccak, w, actions, id);
    assert Acc.Get(w.acc.accreditations, id).present;
  }

  /**
   * How long a verdict lasts. An identifier that validates does so at the end of a run iff neither its record nor any
   * ancestor has by then expired or been revoked, by its issuer or the owner, on the way.
   */
  lemma ValidityEndsIff(keccak: Hash, w: World, actions: seq<Action>, id: Bytes32)
    requires Valid(w, id)
    ensures var m, w' := w.acc.accreditations, Run(keccak, w, actions);
            Valid(w', id) <==>
              forall a | a in Lineage(m, id, 3) :: !EndedBy(w.acc.owner, actions, w'.now, Acc.Get(m, a), a)
  {
    var m, w' := w.acc.accreditations, Run(keccak, w, actions);
    RunEvolves(keccak, w, actions);
    ValidLaterIff(m, w'.acc.accreditations, w.acc.owner, w.now, w'.now, id, 3);
    forall a | a in Lineage(m, id, 3)
      ensures Live(Acc.Get(w'.acc.accreditations, a), w'.now) <==> !EndedBy(w.acc.owner, actions, w'.now, Acc.Get(m, a), a)
    {
      LineageIsLive(m, w.acc.owner, w.now, id, a);
      LiveUnlessEnded(keccak, w, actions, a);
    }
  }

  lemma LineageIsLive(m: Acc.Records, owner: Address, now: Uint256, id: Bytes32, a: Bytes32)
    requires Acc.ValidateTrustChain(m, owner, now, id) && a in Lineage(m, id, 3)
    ensures a in m && !m[a].revoked
  {
    var parentId := Acc.Get(m, id).parentAccreditationId;
    if a != id {
      ValidWalkIsValid(m, owner, now, parentId, 3, a);
    }
  }

  /** The simplest case: a parentless MemberState validates until it expires or is revoked, and from the start unless issued late. */
  lemma MemberStateValidIff(keccak: Hash, w: World, sender: Address, args: AR.IssueArgs, actions: seq<Action>)
    requires AR.Issue(keccak, w.acc, Context(w, sender), args).1.Success?
    requires args.scope == Acc.MemberState && args.parentAccreditationId == ZERO_ID
    ensures var id := AR.Issue(keccak, w.acc, Context(w, sender), args).1.value;
            var w' := Run(keccak, Step(keccak, w, IssueAccreditation(sender, args)), actions);
            Valid(w', id) <==>
              && (args.expiresAt == 0 || w'.now <= args.expiresAt)
              && !exists action | action in actions :: AsksToRevoke(action, w.acc.owner, sender, id)
  {
    var id := AR.Issue(keccak, w.acc, Context(w, sender), args).1.value;
    var w1 := Step(keccak, w, IssueAccreditation(sender, args));
    IssuedRecordKept(keccak, w, sender, args, actions);
    RunEvolves(keccak, w1, actions);
    RevokedIffAsked(keccak, w1, actions, id);
  }

  // ---------------------------------------------------------------------------------------
  // A credential from its recording on
  // ---------------------------------------------------------------------------------------

  /** Whatever follows a record, the credential keeps what was asked for. */
  lemma RecordedCredentialKept(keccak: Hash, w: World, sender: Address, args: CR.RecordArgs, actions: seq<Action>)
    requires CR.Record(keccak, w.acc, w.cred, Context(w, sender), args).1.Success?
    ensures var id := CR.Record(keccak, w.acc, w.cred, Context(w, sender), args).1.value;
            var c := CR.Get(Run(keccak, Step(keccak, w, RecordCredential(sender, args)), actions).cred.credentials, id);
            && c.present && c.id == id
            && c.issuer == sender
            && c.holder == args.holder
            && c.credentialHash == args.credentialHash
            && c.credentialType == args.credentialType
            && c.issuedAt == w.now
            && c.expiresAt == args.expiresAt
            && c.issuerAccreditationId == args.issuerAccreditationId
  {
    var id := CR.Record(keccak, w.acc, w.cred, Context(w, sender), args).1.value;
    var w1 := Step(keccak, w, RecordCredential(sender, args));
    RunEvolves(keccak, w1, actions);
    assert CR.Get(w1.cred.credentials, id).present;
  }

  /** The issuer's last word on whether `c` is suspended, `status` if it says nothing. */
  function LastStanding(actions: seq<Action>, issuer: Address, c: Bytes32, status: CR.Status): CR.Status {
    if actions == [] then status
    else
      var front, last := actions[..|actions| - 1], actions[|actions| - 1];
      if last.ChangeCredential? && last.sender == issuer && last.id == c && last.change.ToSuspended? then CR.Suspended
      else if last.ChangeCredential? && last.sender == issuer && last.id == c && last.change.ToActive? then CR.Active
      else LastStanding(front, issuer, c, status)
  }

  lemma {:induction false} RunThenLast(keccak: Hash, w: World, actions: seq<Action>)
    requires actions != []
    ensures Run(keccak, w, actions) == Step(keccak, Run(keccak, w, actions[..|actions| - 1]), actions[|actions| - 1])
    decreases |actions|
  {
    if |actions| == 1 {
      assert actions == [actions[0]];
      RunOne(keccak, w, actions[0]);
      assert actions[..0] == [];
    } else {
      var w1 := Step(keccak, w, actions[0]);
      var rest := actions[1..];
      RunThenLast(keccak, w1, rest);
      assert rest[..|rest| - 1] == actions[..|actions| - 1][1..];
    }
  }

  /** The status of an unrevoked credential after a run: Revoked if its issuer asked for that, else its issuer's last word. */
  lemma {:induction false} StatusAfterRun(keccak: Hash, w: World, actions: seq<Action>, c: Bytes32)
    requires c in w.cred.credentials && w.cred.credentials[c].status in {CR.Active, CR.Suspended}
    ensures var cred, cred' := w.cred.credentials[c], CR.Get(Run(keccak, w, actions).cred.credentials, c);
            && cred'.present && cred'.issuer == cred.issuer
            && cred'.status ==
                 if exists action | action in actions :: AsksToRevokeCredential(action, cred.issuer, c) then CR.Revoked
                 else LastStanding(actions, cred.issuer, c, cred.status)
    decreases |actions|
  {
    if actions != [] {
      var front, last := actions[..|actions| - 1], actions[|actions| - 1];
      assert actions == front + [last];
      StatusAfterRun(keccak, w, front, c);
      LastStandingIsPlain(front, w.cred.credentials[c].issuer, c, w.cred.credentials[c].status);
      RunThenLast(keccak, w, actions);
      StatusDiagram(keccak, Run(keccak, w, front), last, c);
      CredentialRevokedStep(keccak, Run(keccak, w, front), last, c);
    }
  }

  lemma {:induction false} LastStandingIsPlain(actions: seq<Action>, issuer: Address, c: Bytes32, status: CR.Status)
    requires status in {CR.Active, CR.Suspended}
    ensures LastStanding(actions, issuer, c, status) in {CR.Active, CR.Suspended}
  {
    if actions != [] { LastStandingIsPlain(actions[..|actions| - 1], issuer, c, status); }
  }

  /**
   * When a recorded credential is active. After any run: iff its issuer has not asked for revocation and did not last
   * leave it suspended, it has not expired, and its accreditation validates.
   */
  lemma RecordedIsActiveIff(keccak: Hash, w: World, sender: Address, args: CR.RecordArgs, actions: seq<Action>)
    requires CR.Record(keccak, w.acc, w.cred, Context(w, sender), args).1.Success?
    ensures var id := CR.Record(keccak, w.acc, w.cred, Context(w, sender), args).1.value;
            var w' := Run(keccak, Step(keccak, w, RecordCredential(sender, args)), actions);
            Active(w', id) <==>
              && (!exists action | action in actions :: AsksToRevokeCredential(action, sender, id))
              && LastStanding(actions, sender, id, CR.Active) == CR.Active
              && (args.expiresAt == 0 || w'.now <= args.expiresAt)
              && Valid(w', args.issuerAccreditationId)
  {
    RecordedCredentialKept(keccak, w, sender, args, actions);
    StatusAfterRun(keccak, Step(keccak, w, RecordCredential(sender, args)), actions,
                   CR.Record(keccak, w.acc, w.cred, Context(w, sender), args).1.value);
  }

  // ---------------------------------------------------------------------------------------
  // A member state from its addition on
  // ---------------------------------------------------------------------------------------

  predicate UpdatesDocument(action: Action, owner: Address, who: Address) {
    action.CallRoot? && action.sender == owner && action.call.UpdateMemberState? && action.call.stateAddress == who
  }

  /** The last document the owner gave for `who`, `document` if none. */
  function LastDocument(actions: seq<Action>, owner: Address, who: Address, document: Bytes): Bytes {
    if actions == [] then document
    else if UpdatesDocument(actions[|actions| - 1], owner, who) then actions[|actions| - 1].call.didDocument
    else LastDocument(actions[..|actions| - 1], owner, who, document)
  }

  lemma MemberStep(w: World, keccak: Hash, action: Action, who: Address)
    requires who in w.root.memberStates
    ensures var w' := Step(keccak, w, action);
            var info, info' := Root.Info(w.root.info, who), Root.Info(w'.root.info, who);
            && who in w'.root.memberStates && w'.root.owner == w.root.owner
            && info'.countryCode == info.countryCode && info'.addedAt == info.addedAt
            && info'.didDocument == if UpdatesDocument(action, w.root.owner, who) then action.call.didDocument else info.didDocument
  {
  }

  /** What is known of a listed state after a run: country and time stay, the document is the owner's last, even once removed. */
  lemma {:induction false} MemberAfterRun(keccak: Hash, w: World, actions: seq<Action>, who: Address)
    requires who in w.root.memberStates
    ensures var w' := Run(keccak, w, actions);
            var info, info' := Root.Info(w.root.info, who), Root.Info(w'.root.info, who);
            && who in w'.root.memberStates && w'.root.owner == w.root.owner
            && info'.countryCode == info.countryCode && info'.addedAt == info.addedAt
            && info'.didDocument == LastDocument(actions, w.root.owner, who, info.didDocument)
    decreases |actions|
  {
    if actions != [] {
      var front := actions[..|actions| - 1];
      MemberAfterRun(keccak, w, front, who);
      RunThenLast(keccak, w, actions);
      MemberStep(Run(keccak, w, front), keccak, actions[|actions| - 1], who);
    }
  }

  /** A state the owner adds: a member until removed, with the country given and the document last given. */
  lemma AddedMember(keccak: Hash, w: World, sender: Address, who: Address, countryCode: Bytes, document: Bytes, actions: seq<Action>)
    requires Root.Execute(w.root, Context(w, sender), Root.AddMemberState(who, countryCode, document)).1.Success?
    ensures var w' := Run(keccak, Step(keccak, w, CallRoot(sender, Root.AddMemberState(who, countryCode, document))), actions);
            var info := Root.Info(w'.root.info, who);
            && who in w'.root.memberStates
            && info.countryCode == countryCode
            && info.addedAt == w.now
            && info.didDocument == LastDocument(actions, w.root.owner, who, document)
            && (Root.IsMemberState(w'.root, who) <==>
                  !exists action | action in actions ::
                     action.CallRoot? && action.sender == w.root.owner && action.call == Root.RemoveMemberState(who))
  {
    var w1 := Step(keccak, w, CallRoot(sender, Root.AddMemberState(who, countryCode, document)));
    MemberAfterRun(keccak, w1, actions, who);
    MemberUnlessRemoved(keccak, w1, actions, who);
  }

  // ---------------------------------------------------------------------------------------
  // The logs
  // ---------------------------------------------------------------------------------------

  /** What the accreditation registry announces of an action. */
  function AccreditationNews(keccak: Hash, w: World, action: Action): seq<AR.Event> {
    match action
    case IssueAccreditation(sender, args) =>
      (match AR.Issue(keccak, w.acc, Context(w, sender), args).1
       case Success(id) => [AR.AccreditationIssued(id, sender, args.subject, args.scope, args.parentAccreditationId)]
       case Failure(_) => [])
    case RevokeAccreditation(sender, id) =>
      if AR.Revoke(w.acc, Context(w, sender), id).1.Success? then [AR.AccreditationRevoked(id, sender, w.number)] else []
    case _ => []
  }

  function CredentialNews(keccak: Hash, w: World, action: Action): seq<CR.Event> {
    match action
    case RecordCredential(sender, args) =>
      (match CR.Record(keccak, w.acc, w.cred, Context(w, sender), args).1
       case Success(id) => [CR.CredentialIssued(id, sender, args.holder, args.credentialType, args.issuerAccreditationId)]
       case Failure(_) => [])
    case ChangeCredential(sender, id, change) =>
      var status := CR.Get(w.cred.credentials, id).status;
      if CR.Change(w.cred, Context(w, sender), id, change).1.Failure? then []
      else (match change
        case ToRevoked(reason) =>
          [CR.CredentialRevoked(id, sender, w.number, reason), CR.CredentialStatusUpdated(id, status, CR.Revoked)]
        case ToSuspended(reason) =>
          [CR.CredentialSuspended(id, sender, w.now, reason), CR.CredentialStatusUpdated(id, status, CR.Suspended)]
        case ToActive =>
          [CR.CredentialReactivated(id, sender, w.now), CR.CredentialStatusUpdated(id, status, CR.Active)])
    case _ => []
  }

  function MemberNews(w: World, action: Action): seq<Root.Event> {
    match action
    case CallRoot(sender, call) =>
      if Root.Execute(w.root, Context(w, sender), call).1.Failure? then []
      else (match call
        case AddMemberState(who, countryCode, document) => [Root.MemberStateAdded(who, countryCode, document)]
        case RemoveMemberState(who) => [Root.MemberStateRemoved(who, Root.Info(w.root.info, who).countryCode)]
        case UpdateMemberState(who, document) => [Root.MemberStateUpdated(who, document)])
    case _ => []
  }

  lemma AccreditationStepNews(keccak: Hash, w: World, action: Action)
    ensures Step(keccak, w, action).acc.log == w.acc.log + AccreditationNews(keccak, w, action)
  {
  }

  lemma CredentialStepNews(keccak: Hash, w: World, action: Action)
    ensures Step(keccak, w, action).cred.log == w.cred.log + CredentialNews(keccak, w, action)
  {
  }

  lemma MemberStepNews(keccak: Hash, w: World, action: Action)
    ensures Step(keccak, w, action).root.log == w.root.log + MemberNews(w, action)
  {
  }

  datatype News = News(acc: seq<AR.Event>, cred: seq<CR.Event>, root: seq<Root.Event>)

  /** What the calls of a run announce, each in the state it is made in, a refused one nothing. */
  function RunNews(keccak: Hash, w: World, actions: seq<Action>): News {
    if actions == [] then News([], [], [])
    else
      var front, last := actions[..|actions| - 1], actions[|actions| - 1];
      var news, w' := RunNews(keccak, w, front), Run(keccak, w, front);
      News(news.acc + AccreditationNews(keccak, w', last),
           news.cred + CredentialNews(keccak, w', last),
           news.root + MemberNews(w', last))
  }

  /** The logs of `w'` are those of `w` with the news added. */
  predicate LogsExtend(w: World, news: News, w': World) {
    && w'.acc.log == w.acc.log + news.acc
    && w'.cred.log == w.cred.log + news.cred
    && w'.root.log == w.root.log + news.root
  }

  lemma StepNews(keccak: Hash, w: World, action: Action, w': World)
    requires w' == Step(keccak, w, action)
    ensures LogsExtend(w, News(AccreditationNews(keccak, w, action), CredentialNews(keccak, w, action), MemberNews(w, action)), w')
  {
    AccreditationStepNews(keccak, w, action);
    CredentialStepNews(keccak, w, action);
    MemberStepNews(keccak, w, action);
  }

  lemma NewsAdds(w: World, w1: World, w2: World, news: News, more: News)
    requires LogsExtend(w, news, w1) && LogsExtend(w1, more, w2)
    ensures LogsExtend(w, News(news.acc + more.acc, news.cred + more.cred, news.root + more.root), w2)
  {
  }

  /** The logs of the three contracts are what the calls announced, in order, and nothing else. */
  lemma {:induction false} LogsTellRun(keccak: Hash, w: World, actions: seq<Action>)
    ensures LogsExtend(w, RunNews(keccak, w, actions), Run(keccak, w, actions))
    decreases |actions|
  {
    if actions != [] {
      var front, last := actions[..|actions| - 1], actions[|actions| - 1];
      var w1, w2 := Run(keccak, w, front), Run(keccak, w, actions);
      LogsTellRun(keccak, w, front);
      RunThenLast(keccak, w, actions);
      StepNews(keccak, w1, last, w2);
      NewsAdds(w, w1, w2, RunNews(keccak, w, front),
               News(AccreditationNews(keccak, w1, last), CredentialNews(keccak, w1, last), MemberNews(w1, last)));
    }
  }
}
