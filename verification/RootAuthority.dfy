/** The EU root authority: the list of member states, kept by its owner. */
module RootAuthorities {
  import opened Evm

  datatype MemberStateInfo = MemberStateInfo(countryCode: Bytes, didDocument: Bytes, addedAt: Uint256, active: bool)

  const NO_INFO := MemberStateInfo([], [], 0, false)

  datatype Error = NotOwner | AlreadyMemberState | MemberStateNotFound

  datatype Event =
    | MemberStateAdded(stateAddress: Address, countryCode: Bytes, didDocument: Bytes)
    | MemberStateRemoved(stateAddress: Address, countryCode: Bytes)
    | MemberStateUpdated(stateAddress: Address, didDocument: Bytes)

  /** `memberStates` is the set of flagged addresses; an unwritten info entry reads as `NO_INFO`. */
  datatype Storage = Storage(
    owner: Address,
    memberStates: set<Address>,
    info: map<Address, MemberStateInfo>,
    list: seq<Address>,
    log: seq<Event>
  )

  function Deployed(owner: Address): Storage {
    Storage(owner, {}, map[], [], [])
  }

  function Info(info: map<Address, MemberStateInfo>, who: Address): MemberStateInfo {
    if who in info then info[who] else NO_INFO
  }

  datatype Call =
    | AddMemberState(stateAddress: Address, countryCode: Bytes, didDocument: Bytes)
    | RemoveMemberState(stateAddress: Address)
    | UpdateMemberState(stateAddress: Address, didDocument: Bytes)

  function Execute(st: Storage, msg: Msg, call: Call): (Storage, Result<(), Error>) {
    if msg.sender != st.owner then (st, Failure(NotOwner))
    else
      var who := call.stateAddress;
      var known := who in st.memberStates;
      match call
      case AddMemberState(_, countryCode, didDocument) =>
        if known then (st, Failure(AlreadyMemberState))
        else (st.(memberStates := st.memberStates + {who},
                  info := st.info[who := MemberStateInfo(countryCode, didDocument, msg.timestamp, true)],
                  list := st.list + [who],
                  log := st.log + [MemberStateAdded(who, countryCode, didDocument)]),
              Success(()))
      case RemoveMemberState(_) =>
        if !known then (st, Failure(MemberStateNotFound))
        else (st.(info := st.info[who := Info(st.info, who).(active := false)],
                  log := st.log + [MemberStateRemoved(who, Info(st.info, who).countryCode)]),
              Success(()))
      case UpdateMemberState(_, didDocument) =>
        if !known then (st, Failure(MemberStateNotFound))
        else (st.(info := st.info[who := Info(st.info, who).(didDocument := didDocument)],
                  log := st.log + [MemberStateUpdated(who, didDocument)]),
              Success(()))
  }

  predicate IsMemberState(st: Storage, who: Address) {
    who in st.memberStates && Info(st.info, who).active
  }

  /** The active member states, as a set. */
  function ActiveStates(st: Storage): set<Address> {
    set who | who in st.memberStates && Info(st.info, who).active
  }

  /** The list holds exactly the flagged addresses, each once, and only flagged ones have information. */
  ghost predicate ListExact(st: Storage) {
    && (forall who :: who in st.list <==> who in st.memberStates)
    && (forall i, j | 0 <= i < j < |st.list| :: st.list[i] != st.list[j])
    && st.info.Keys == st.memberStates
  }

  lemma ExecuteKeepsList(st: Storage, msg: Msg, call: Call)
    requires ListExact(st)
    ensures ListExact(Execute(st, msg, call).0)
  {
  }

  /** Why a call is refused, reason by reason; a refusal changes nothing. */
  lemma Refusals(st: Storage, msg: Msg, call: Call)
    ensures var (st', r) := Execute(st, msg, call);
            var known := call.stateAddress in st.memberStates;
            && (r.Failure? ==> st' == st)
            && (r == Failure(NotOwner) <==> msg.sender != st.owner)
            && (r == Failure(AlreadyMemberState) <==> msg.sender == st.owner && call.AddMemberState? && known)
            && (r == Failure(MemberStateNotFound) <==> msg.sender == st.owner && !call.AddMemberState? && !known)
  {
  }

  /** A flag is never cleared, and a flagged address that is not active stays inactive: no call adds it again. */
  lemma ExecuteNeverReadmits(st: Storage, msg: Msg, call: Call, who: Address)
    requires who in st.memberStates
    ensures var st' := Execute(st, msg, call).0;
            who in st'.memberStates && (IsMemberState(st', who) ==> IsMemberState(st, who))
  {
  }

  /** How many positions of a list hold active member states. */
  function CountActive(info: map<Address, MemberStateInfo>, list: seq<Address>): nat {
    if list == [] then 0
    else CountActive(info, list[..|list| - 1]) + if Info(info, list[|list| - 1]).active then 1 else 0
  }

  lemma {:induction false} CountActiveIsCardinality(info: map<Address, MemberStateInfo>, list: seq<Address>)
    requires forall i, j | 0 <= i < j < |list| :: list[i] != list[j]
    ensures CountActive(info, list) == |set who | who in list && Info(info, who).active|
  {
    if list != [] {
      var front, last := list[..|list| - 1], list[|list| - 1];
      CountActiveIsCardinality(info, front);
      assert list == front + [last] && last !in front;
      var before := set who | who in front && Info(info, who).active;
      var after := set who | who in list && Info(info, who).active;
      assert forall who :: who in list <==> who in front || who == last;
      assert after == before + if Info(info, last).active then {last} else {};
    }
  }

  /** The number the counting loop returns is the number of addresses for which `isMemberState` holds. */
  lemma CountIsNumberOfMemberStates(st: Storage)
    requires ListExact(st)
    ensures CountActive(st.info, st.list) == |ActiveStates(st)|
  {
    CountActiveIsCardinality(st.info, st.list);
    assert ActiveStates(st) == set who | who in st.list && Info(st.info, who).active;
  }

  class EURootAuthority {
    const owner: Address
    var memberStates: set<Address>
    var memberStateInfo: map<Address, MemberStateInfo>
    var memberStateList: seq<Address>
    var log: seq<Event>

    ghost function State(): Storage
      reads this
    {
      Storage(owner, memberStates, memberStateInfo, memberStateList, log)
    }

    constructor (deployer: Address)
      ensures State() == Deployed(deployer)
    {
      owner, memberStates, memberStateInfo, memberStateList, log := deployer, {}, map[], [], [];
    }

    method AddMemberState(msg: Msg, stateAddress: Address, countryCode: Bytes, didDocument: Bytes)
      returns (r: Result<(), Error>)
      modifies this
      ensures (State(), r) == Execute(old(State()), msg, Call.AddMemberState(stateAddress, countryCode, didDocument))
    {
      if msg.sender != owner {
        return Failure(NotOwner);
      }
      if stateAddress in memberStates {
        return Failure(AlreadyMemberState);
      }

      memberStates := memberStates + {stateAddress};
      memberStateInfo := memberStateInfo[stateAddress := MemberStateInfo(countryCode, didDocument, msg.timestamp, true)];
      memberStateList := memberStateList + [stateAddress];
      log := log + [MemberStateAdded(stateAddress, countryCode, didDocument)];
      return Success(());
    }

    method RemoveMemberState(msg: Msg, stateAddress: Address) returns (r: Result<(), Error>)
      modifies this
      ensures (State(), r) == Execute(old(State()), msg, Call.RemoveMemberState(stateAddress))
    {
      if msg.sender != owner {
        return Failure(NotOwner);
      }
      if stateAddress !in memberStates {
        return Failure(MemberStateNotFound);
      }

      memberStateInfo := memberStateInfo[stateAddress := Info(memberStateInfo, stateAddress).(active := false)];
      log := log + [MemberStateRemoved(stateAddress, Info(memberStateInfo, stateAddress).countryCode)];
      return Success(());
    }

    method UpdateMemberState(msg: Msg, stateAddress: Address, didDocument: Bytes) returns (r: Result<(), Error>)
      modifies this
      ensures (State(), r) == Execute(old(State()), msg, Call.UpdateMemberState(stateAddress, didDocument))
    {
      if msg.sender != owner {
        return Failure(NotOwner);
      }
      if stateAddress !in memberStates {
        return Failure(MemberStateNotFound);
      }

      memberStateInfo := memberStateInfo[stateAddress := Info(memberStateInfo, stateAddress).(didDocument := didDocument)];
      log := log + [MemberStateUpdated(stateAddress, didDocument)];
      return Success(());
    }

    method GetActiveMemberStateCount() returns (count: nat)
      ensures count == CountActive(memberStateInfo, memberStateList)
    {
      count := 0;
      for i := 0 to |memberStateList|
        invariant count == CountActive(memberStateInfo, memberStateList[..i])
      {
        assert memberStateList[..i + 1][..i] == memberStateList[..i];
        if Info(memberStateInfo, memberStateList[i]).active {
          count := count + 1;
        }
      }
      assert memberStateList[..|memberStateList|] == memberStateList;
    }
  }
}
