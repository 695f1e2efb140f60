/** Questions asked of the accreditation registry from outside the chain, and how the answers agree. */
module WalletLookup {
  import opened Evm
  import opened AccreditationRecords
  import opened AccreditationRegistries
  import opened AppendOnlyIndex
  import opened AccreditationInvariants
  import opened TrustChain

  // ---------------------------------------------------------------------------------------
  // hasValidAccreditation
  // ---------------------------------------------------------------------------------------

  /** What the contract's loop decides, by its index of the subject. */
  ghost predicate HasValid(st: Storage, now: Uint256, subject: Address, scope: Scope) {
    exists id :: id in Listed(st.bySubject, subject) && Grants(st.accreditations, st.owner, now, scope, id)
  }

  /** The index of a subject lists its records and no others, in order of issue. */
  ghost predicate SubjectListed(m: Records, subject: Address, ids: seq<Bytes32>) {
    && (forall id: Bytes32 :: id in ids <==> id in m && m[id].subject == subject)
    && (forall i, j | 0 <= i < j < |ids| :: Get(m, ids[i]).issuedAt <= Get(m, ids[j]).issuedAt)
  }

  lemma SubjectIndex(st: Storage, subject: Address)
    requires PartyIndexExact(st, Subject)
    ensures SubjectListed(st.accreditations, subject, Listed(st.bySubject, subject))
  {
    var m, ids := st.accreditations, Listed(st.bySubject, subject);
    var entries := Entries(m, EntryOf(Subject));
    assert ListExact(entries, subject, ids);
    forall i, j | 0 <= i < j < |ids| ensures Get(m, ids[i]).issuedAt <= Get(m, ids[j]).issuedAt {
      assert ids[i] in ids && ids[j] in ids;
      assert entries[ids[i]].issuedAt <= entries[ids[j]].issuedAt;
    }
  }

  /** The loop over the index misses nothing: it answers for every record of the registry. */
  lemma HasValidIffSomeRecord(keccak: Hash, st: Storage, now: Uint256, subject: Address, scope: Scope)
    requires RegistryInvariant(keccak, st, now)
    ensures HasValid(st, now, subject, scope) <==>
              exists id :: id in st.accreditations && st.accreditations[id].subject == subject
                           && Grants(st.accreditations, st.owner, now, scope, id)
  {
    SubjectIndex(st, subject);
  }

  /** The stricter expiry test matters for one second: a valid record grants its own scope except at the instant it expires. */
  lemma GrantsIffValidBeforeExpiry(st: Storage, now: Uint256, scope: Scope, id: Bytes32)
    ensures var a := Get(st.accreditations, id);
            Grants(st.accreditations, st.owner, now, scope, id) <==>
              && a.scope == scope
              && ValidateTrustChain(st.accreditations, st.owner, now, id)
              && !(a.expiresAt != 0 && a.expiresAt == now)
  {
  }

  // ---------------------------------------------------------------------------------------
  // The wallet's scan
  // ---------------------------------------------------------------------------------------

  datatype Lookup = Found(id: Bytes32) | NotFound | Thrown

  /** The wallet's side: its clock, and `Number`, by which it reads an expiry. */
  datatype Wallet = Wallet(clockMs: nat, toNumber: Uint256 -> real)

  /** `Number.MAX_SAFE_INTEGER + 1`: up to here every integer is a double. */
  const EXACT: nat := 0x20_0000_0000_0000

  /** All the results need of the conversion: it is exact as far as doubles are, and beyond that does not fall short. */
  ghost predicate Rounds(wallet: Wallet) {
    && (forall n: Uint256 | n <= EXACT :: wallet.toNumber(n) == n as real)
    && (forall n: Uint256 | n > EXACT :: wallet.toNumber(n) >= EXACT as real)
  }

  predicate NotExpired(wallet: Wallet, expiresAt: Uint256) {
    wallet.toNumber(expiresAt) == 0.0 || wallet.toNumber(expiresAt) > wallet.clockMs as real / 1000.0
  }

  /**
   * The wallet's test of one record. It compares seconds with its own clock divided by 1000, a real
   * number, and asks the contract for the chain verdict at the chain's own time.
   */
  predicate Qualifies(st: Storage, now: Uint256, wallet: Wallet, scope: Scope, id: Bytes32) {
    var record := Get(st.accreditations, id);
    && record.present
    && !record.revoked
    && record.scope == scope
    && NotExpired(wallet, record.expiresAt)
    && ValidateTrustChain(st.accreditations, st.owner, now, id)
  }

  /** The first `k` listed records are readable and do not qualify, and the scan ended on the next one with `r`. */
  ghost predicate ScanStopsAt(st: Storage, now: Uint256, wallet: Wallet, scope: Scope, ids: seq<Bytes32>, k: nat, r: Lookup) {
    && k <= |ids|
    && (forall j | 0 <= j < k :: Get(st.accreditations, ids[j]).present && !Qualifies(st, now, wallet, scope, ids[j]))
    && match r
       case Found(id) => k < |ids| && ids[k] == id && Qualifies(st, now, wallet, scope, id)
       case NotFound => k == |ids|
       case Thrown => k < |ids| && !Get(st.accreditations, ids[k]).present
  }

  /** The scan stops at the first listed record that qualifies, or at one that `getAccreditation` refuses. */
  ghost predicate ScanOutcome(st: Storage, now: Uint256, wallet: Wallet, scope: Scope, ids: seq<Bytes32>, r: Lookup) {
    exists k: nat :: ScanStopsAt(st, now, wallet, scope, ids, k, r)
  }

  /** The loop the three `findActive...Accreditation` methods share. */
  method FindActive(st: Storage, now: Uint256, wallet: Wallet, scope: Scope, address: Address) returns (r: Lookup)
    ensures ScanOutcome(st, now, wallet, scope, Listed(st.bySubject, address), r)
  {
    var ids := Listed(st.bySubject, address);
    for i := 0 to |ids|
      invariant forall j | 0 <= j < i ::
          Get(st.accreditations, ids[j]).present && !Qualifies(st, now, wallet, scope, ids[j])
    {
      var record := Get(st.accreditations, ids[i]);
      if !record.present {
        assert ScanStopsAt(st, now, wallet, scope, ids, i, Thrown);
        return Thrown;
      }
      if record.present && !record.revoked && record.scope == scope
         && NotExpired(wallet, record.expiresAt)
      {
        var valid := ValidateTrustChain(st.accreditations, st.owner, now, ids[i]);
        if valid {
          assert ScanStopsAt(st, now, wallet, scope, ids, i, Found(ids[i]));
          return Found(ids[i]);
        }
      }
    }
    assert ScanStopsAt(st, now, wallet, scope, ids, |ids|, NotFound);
    return NotFound;
  }

  /** `findActiveInstitutionAccreditation`: no address, no accreditation; a refused read is thrown on. */
  method FindActiveInstitution(st: Storage, now: Uint256, wallet: Wallet, address: Option<Address>) returns (r: Lookup)
    ensures address.None? ==> r == NotFound
    ensures address.Some? ==> ScanOutcome(st, now, wallet, Institution, Listed(st.bySubject, address.value), r)
  {
    if address.None? {
      return NotFound;
    }
    r := FindActive(st, now, wallet, Institution, address.value);
  }

  /**
   * `findActiveBusinessRegistryAccreditation` and `findActiveEnterpriseAccreditation`, which differ in
   * `scope` only: a refused read is logged and answered like an empty scan.
   */
  method FindActiveBusiness(st: Storage, now: Uint256, wallet: Wallet, scope: Scope, address: Option<Address>)
    returns (r: Lookup)
    requires scope in {BusinessRegistry, Enterprise}
    ensures address.None? ==> r == NotFound
    ensures address.Some? ==>
              var ids := Listed(st.bySubject, address.value);
              || (r != Thrown && ScanOutcome(st, now, wallet, scope, ids, r))
              || (r == NotFound && ScanOutcome(st, now, wallet, scope, ids, Thrown))
  {
    if address.None? {
      return NotFound;
    }
    r := FindActive(st, now, wallet, scope, address.value);
    if r == Thrown {
      return NotFound;
    }
  }

  /** A whole number of seconds exceeds a clock reading iff it exceeds its whole seconds. */
  lemma SecondsAgainstMilliseconds(seconds: nat, clockMs: nat)
    ensures seconds as real > clockMs as real / 1000.0 <==> seconds > clockMs / 1000
  {
    var whole, rest := clockMs / 1000, clockMs % 1000;
    assert clockMs as real == 1000.0 * whole as real + rest as real;
    assert clockMs as real / 1000.0 == whole as real + rest as real / 1000.0;
    if seconds > whole {
      assert seconds as real >= whole as real + 1.0;
    } else {
      assert seconds as real <= whole as real;
    }
  }

  /** What the scan finds is the earliest record that qualifies; if nothing qualifies it finds nothing. */
  lemma ScanFindsEarliest(st: Storage, now: Uint256, wallet: Wallet, scope: Scope, subject: Address, r: Lookup)
    requires SubjectListed(st.accreditations, subject, Listed(st.bySubject, subject))
    requires ScanOutcome(st, now, wallet, scope, Listed(st.bySubject, subject), r)
    ensures r != Thrown
    ensures r.Found? ==> r.id in st.accreditations && st.accreditations[r.id].subject == subject
                         && Qualifies(st, now, wallet, scope, r.id)
    ensures forall id | id in st.accreditations && st.accreditations[id].subject == subject
                        && Qualifies(st, now, wallet, scope, id) ::
              r.Found? && st.accreditations[r.id].issuedAt <= st.accreditations[id].issuedAt
  {
    var m, ids := st.accreditations, Listed(st.bySubject, subject);
    var k: nat :| ScanStopsAt(st, now, wallet, scope, ids, k, r);
    assert forall i | 0 <= i < |ids| :: ids[i] in ids;
    forall id | id in m && m[id].subject == subject && Qualifies(st, now, wallet, scope, id)
      ensures r.Found? && m[r.id].issuedAt <= m[id].issuedAt
    {
      assert id in ids;
      var i :| 0 <= i < |ids| && ids[i] == id;
      assert k <= i;
      assert k < i ==> Get(m, ids[k]).issuedAt <= Get(m, ids[i]).issuedAt;
    }
  }

  /** The wallet's expiry test is the contract's stricter one, at the whole seconds of the wallet's clock. */
  lemma NotExpiredIff(wallet: Wallet, expiresAt: Uint256)
    requires Rounds(wallet) && wallet.clockMs / 1000 < EXACT
    ensures NotExpired(wallet, expiresAt) <==> expiresAt == 0 || expiresAt > wallet.clockMs / 1000
  {
    if expiresAt <= EXACT {
      SecondsAgainstMilliseconds(expiresAt, wallet.clockMs);
    } else {
      SecondsAgainstMilliseconds(EXACT, wallet.clockMs);
    }
  }

  /** The wallet's test is no laxer than the contract's if its clock is not behind, and no stricter if it is not ahead. */
  lemma QualifiesAgainstGrants(st: Storage, now: Uint256, wallet: Wallet, scope: Scope, id: Bytes32)
    requires Rounds(wallet) && wallet.clockMs / 1000 < EXACT
    ensures now <= wallet.clockMs / 1000 && Qualifies(st, now, wallet, scope, id) ==>
              Grants(st.accreditations, st.owner, now, scope, id)
    ensures wallet.clockMs / 1000 <= now && Grants(st.accreditations, st.owner, now, scope, id) ==>
              Qualifies(st, now, wallet, scope, id)
  {
    NotExpiredIff(wallet, Get(st.accreditations, id).expiresAt);
  }

  lemma FoundGrants(st: Storage, now: Uint256, wallet: Wallet, scope: Scope, subject: Address, r: Lookup)
    requires SubjectListed(st.accreditations, subject, Listed(st.bySubject, subject))
    requires Rounds(wallet) && wallet.clockMs / 1000 < EXACT
    requires ScanOutcome(st, now, wallet, scope, Listed(st.bySubject, subject), r)
    ensures r != Thrown
    ensures now <= wallet.clockMs / 1000 && r.Found? ==>
              && HasValid(st, now, subject, scope)
              && Get(st.accreditations, r.id).subject == subject
              && Grants(st.accreditations, st.owner, now, scope, r.id)
  {
    ScanFindsEarliest(st, now, wallet, scope, subject, r);
    if r.Found? {
      QualifiesAgainstGrants(st, now, wallet, scope, r.id);
    }
  }

  lemma GrantedIsFound(st: Storage, now: Uint256, wallet: Wallet, scope: Scope, subject: Address, r: Lookup)
    requires SubjectListed(st.accreditations, subject, Listed(st.bySubject, subject))
    requires Rounds(wallet) && wallet.clockMs / 1000 < EXACT
    requires ScanOutcome(st, now, wallet, scope, Listed(st.bySubject, subject), r)
    ensures wallet.clockMs / 1000 <= now ==>
              forall id | id in st.accreditations && st.accreditations[id].subject == subject
                          && Grants(st.accreditations, st.owner, now, scope, id) ::
                r.Found? && Get(st.accreditations, r.id).issuedAt <= st.accreditations[id].issuedAt
  {
    ScanFindsEarliest(st, now, wallet, scope, subject, r);
    forall id | wallet.clockMs / 1000 <= now && id in st.accreditations && st.accreditations[id].subject == subject
                && Grants(st.accreditations, st.owner, now, scope, id)
      ensures r.Found? && Get(st.accreditations, r.id).issuedAt <= st.accreditations[id].issuedAt
    {
      QualifiesAgainstGrants(st, now, wallet, scope, id);
    }
  }

  /**
   * Wallet and contract, on one snapshot. The scan never throws. With the wallet's clock not behind the
   * chain's, what it finds is an accreditation of the subject that grants the scope; with the clock not
   * ahead, it finds something whenever one does, issued no later than any that does. With both clocks in the
   * same second the scan finds something iff `hasValidAccreditation` holds.
   */
  lemma WalletAgreesWithContract(
    keccak: Hash, st: Storage, now: Uint256, wallet: Wallet, scope: Scope, subject: Address, r: Lookup
  )
    requires RegistryInvariant(keccak, st, now) && Rounds(wallet) && wallet.clockMs / 1000 < EXACT
    requires ScanOutcome(st, now, wallet, scope, Listed(st.bySubject, subject), r)
    ensures r != Thrown
    ensures now <= wallet.clockMs / 1000 && r.Found? ==>
              && HasValid(st, now, subject, scope)
              && Get(st.accreditations, r.id).subject == subject
              && Grants(st.accreditations, st.owner, now, scope, r.id)
    ensures wallet.clockMs / 1000 <= now && HasValid(st, now, subject, scope) ==> r.Found?
    ensures wallet.clockMs / 1000 <= now && r.Found? ==>
              forall id | id in st.accreditations && st.accreditations[id].subject == subject
                          && Grants(st.accreditations, st.owner, now, scope, id) ::
                Get(st.accreditations, r.id).issuedAt <= st.accreditations[id].issuedAt
    ensures wallet.clockMs / 1000 == now ==> (r.Found? <==> HasValid(st, now, subject, scope))
  {
    SubjectIndex(st, subject);
    FoundGrants(st, now, wallet, scope, subject, r);
    GrantedIsFound(st, now, wallet, scope, subject, r);
  }

  // ---------------------------------------------------------------------------------------
  // VerifyAsync
  // ---------------------------------------------------------------------------------------

  const LONG_MAX: nat := 0x7FFF_FFFF_FFFF_FFFF

  /** The service's own expiry test; expiries beyond 64 bits count as none. */
  predicate IsExpired(expiresAt: Uint256, serverNow: nat) {
    if expiresAt == 0 then false
    else if expiresAt > LONG_MAX then false
    else serverNow > expiresAt
  }

  datatype Standing = Active | MissingRecord | Revoked | PastExpiry | ChainInvalid

  /** `VerifyAsync` reads the record, then asks the contract. */
  function Verify(st: Storage, now: Uint256, serverNow: nat, id: Bytes32): (bool, Standing) {
    var onChain := Get(st.accreditations, id);
    if !onChain.present then (false, MissingRecord)
    else if onChain.revoked then (false, Revoked)
    else if IsExpired(onChain.expiresAt, serverNow) then (false, PastExpiry)
    else if ValidateTrustChain(st.accreditations, st.owner, now, id) then (true, Active)
    else (false, ChainInvalid)
  }

  /**
   * Whatever the server's clock says, a positive answer is the contract's. With the server on chain time,
   * within 64 bits, the answers coincide, and the reason given for a refusal is the real one: the record is
   * live and yet no path leads from it to the owner.
   */
  lemma VerifyAgreesWithContract(st: Storage, now: Uint256, serverNow: nat, id: Bytes32)
    ensures Verify(st, now, serverNow, id).0 ==> ValidateTrustChain(st.accreditations, st.owner, now, id)
    ensures serverNow == now <= LONG_MAX ==>
              && (Verify(st, now, serverNow, id).0 <==> ValidateTrustChain(st.accreditations, st.owner, now, id))
              && (Verify(st, now, serverNow, id).1 == ChainInvalid <==>
                    && Live(Get(st.accreditations, id), now)
                    && !exists path :: TrustPath(st.accreditations, st.owner, now, path) && path[0] == id)
  {
    ValidIffTrustPath(st.accreditations, st.owner, now, id);
  }

  /** The reason given, case by case: the server's clock decides on an expiry that fits 64 bits, and the contract on the rest. */
  lemma StandingIff(st: Storage, now: Uint256, serverNow: nat, id: Bytes32)
    ensures var (ok, standing) := Verify(st, now, serverNow, id);
            var stored := id in st.accreditations;
            var a := Get(st.accreditations, id);
            var late := 0 < a.expiresAt < serverNow && a.expiresAt <= 0x7FFF_FFFF_FFFF_FFFF;
            && (standing == MissingRecord <==> !stored)
            && (standing == Revoked <==> stored && a.revoked)
            && (standing == PastExpiry <==> stored && !a.revoked && late)
            && (standing == Active <==>
                  stored && !a.revoked && !late && ValidateTrustChain(st.accreditations, st.owner, now, id))
            && (ok <==> standing == Active)
  {
  }
}
